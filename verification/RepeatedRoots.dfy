/** Repeated roots: a polynomial whose leaves all split, though it does not itself, has one or was divided with a
    remainder; and a shortest solution of the identities of the syndromes has none. */
module RepeatedRoots {
  import opened Gf2
  import opened GaloisField
  import opened FieldLaws
  import opened FieldPoly
  import opened PowerSeries
  import opened Newton
  import opened BerlekampMassey
  import opened Locator
  import opened LocatorUnique
  import opened Chien
  import opened LowRoots
  import opened PolyDivision
  import opened PolyGcd
  import opened EuclidChain
  import opened TracePoly
  import opened TraceFactor

  /** X + x. */
  ghost function Line(F: Field, x: nat): (a: Ser)
    requires F.Ok() && F.El(x)
    ensures IsSer(F, a)
  {
    FieldShape(F);
    (i: nat) => if i == 0 then x else if i == 1 then 1 else 0
  }

  /** (X + x)^2 = X^2 + x^2. */
  ghost function Twice(F: Field, x: nat): (a: Ser)
    requires F.Ok() && F.El(x)
    ensures IsSer(F, a)
  {
    FieldShape(F);
    (i: nat) => if i == 0 then GfMul(F, x, x) else if i == 2 then 1 else 0
  }

  lemma {:induction false} LineAt(F: Field, x: nat)
    requires F.Ok() && F.El(x)
    ensures Line(F, x)(0) == x && Line(F, x)(1) == 1 && forall i: nat :: i > 1 ==> Line(F, x)(i) == 0
    ensures forall i: nat :: Tail(Line(F, x))(i) == One(F)(i)
  {
  }

  lemma {:induction false} TwiceAt(F: Field, x: nat)
    requires F.Ok() && F.El(x)
    ensures Twice(F, x)(0) == GfMul(F, x, x) && Twice(F, x)(1) == 0 && Twice(F, x)(2) == 1
    ensures forall i: nat :: i > 2 ==> Twice(F, x)(i) == 0
    ensures forall i: nat :: Tail(Tail(Twice(F, x)))(i) == One(F)(i)
  {
  }

  lemma {:induction false} TimesOne(F: Field, a: Ser, b: Ser, n: nat)
    requires F.Ok() && IsSer(F, a) && IsSer(F, b) && forall i: nat :: b(i) == One(F)(i)
    ensures Conv(F, b, a, n) == a(n)
  {
    hide F.Ok, Conv, One;
    OneAt(F);
    ConvCong(F, b, One(F), a, a, n);
    ConvComm(F, One(F), a, n);
    ConvOne(F, a, n);
  }

  /** Multiplication by X + x. */
  lemma {:induction false} TimesLine(F: Field, a: Ser, x: nat, n: nat)
    requires F.Ok() && IsSer(F, a) && F.El(x)
    ensures F.El(a(n))
    ensures Conv(F, a, Line(F, x), n) == if n == 0 then GfMul(F, x, a(0)) else Xor(GfMul(F, x, a(n)), a(n - 1))
  {
    hide F.Ok, Conv, One, Line, GfMul, Xor, Tail;
    var l := Line(F, x);
    LineAt(F, x);
    SerAt(F, a, n);
    ConvComm(F, a, l, n);
    ConvStep(F, l, a, n);
    if n > 0 {
      TailIsSer(F, l);
      TimesOne(F, a, Tail(l), n - 1);
    }
  }

  /** Multiplication by X^2 + x^2. */
  lemma {:induction false} TimesTwice(F: Field, a: Ser, x: nat, n: nat)
    requires F.Ok() && IsSer(F, a) && F.El(x)
    ensures F.El(a(n)) && F.El(GfMul(F, x, x))
    ensures Conv(F, a, Twice(F, x), n) == if n < 2 then GfMul(F, GfMul(F, x, x), a(n))
                                          else Xor(GfMul(F, GfMul(F, x, x), a(n)), a(n - 2))
  {
    hide F.Ok, Conv, One, Twice, GfMul, Xor;
    var w := Twice(F, x);
    TwiceAt(F, x);
    SerAt(F, a, n);
    ConvComm(F, a, w, n);
    ConvStep(F, w, a, n);
    if n > 0 {
      TailIsSer(F, w);
      SerAt(F, a, n - 1);
      ConvStep(F, Tail(w), a, n - 1);
      MulZero(F, a(n - 1));
      XorZero(GfMul(F, w(0), a(n)));
      if n > 1 {
        TailIsSer(F, Tail(w));
        TimesOne(F, a, Tail(Tail(w)), n - 2);
        XorZero(a(n - 2));
      }
    }
  }

  lemma {:induction false} LineSquared(F: Field, x: nat, n: nat)
    requires F.Ok() && F.El(x)
    ensures Conv(F, Line(F, x), Line(F, x), n) == Twice(F, x)(n)
  {
    hide F.Ok, Conv, Line, Twice, GfMul, Xor;
    LineAt(F, x);
    TwiceAt(F, x);
    TimesLine(F, Line(F, x), x, n);
    MulOne(F, x);
    MulZero(F, x);
    XorSelf(x);
    XorZero(1);
    XorZero(0);
  }

  // ----- roots and linear divisors

  /** What coefficient n of f is, given those of the quotient by X + x, with a zero on top. */
  ghost predicate QuotientAt(F: Field, f: seq<nat>, q: seq<nat>, x: nat, n: nat)
    requires F.Ok() && IsPoly(F, f) && IsPoly(F, q) && F.El(x) && n < |f| == |q|
  {
    f[n] == Xor(GfMul(F, x, q[n]), if n == 0 then Eval(F, f, x) else q[n - 1])
  }

  lemma {:induction false} QuotientFirst(F: Field, f: seq<nat>, q: seq<nat>, x: nat)
    requires F.Ok() && IsPoly(F, f) && IsPoly(F, q) && F.El(x) && 1 <= |f| == |q| && q[0] == Eval(F, f[1..], x)
    ensures QuotientAt(F, f, q, x, 0)
  {
    hide F.Ok, GfMul, Xor;
    var v := GfMul(F, x, q[0]);
    XorSolve(v, f[0]);
    XorComm(v, f[0]);
  }

  /** Dividing by X + x leaves the value at x. */
  lemma {:induction false} DivRootCoefs(F: Field, f: seq<nat>, x: nat)
    requires F.Ok() && IsPoly(F, f) && |f| >= 1 && F.El(x)
    ensures var q := DivRoot(F, f, x) + [0];
            IsPoly(F, q) && |q| == |f| && forall n: nat :: n < |f| ==> QuotientAt(F, f, q, x, n)
  {
    FieldShape(F);
    hide F.Ok, GfMul, Xor;
    var q, rest := DivRoot(F, f, x) + [0], f[1..];
    if |f| == 1 {
      assert rest == [];
    } else {
      DivRootCoefs(F, rest, x);
      var p := DivRoot(F, rest, x) + [0];
      assert q == [Eval(F, rest, x)] + p;
      forall n: nat | 1 <= n < |f| ensures QuotientAt(F, f, q, x, n) {
        assert QuotientAt(F, rest, p, x, n - 1);
        assert q[n] == p[n - 1] && q[n - 1] == if n == 1 then Eval(F, rest, x) else p[n - 2];
      }
    }
    QuotientFirst(F, f, q, x);
  }

  /** A polynomial with the root x is a multiple of X + x. */
  lemma {:induction false} RootDivides(F: Field, f: seq<nat>, x: nat)
    requires F.Ok() && IsPoly(F, f) && |f| >= 1 && RootOf(F, f, x)
    ensures F.El(x) && Divides(F, Line(F, x), Ser1(f))
  {
    hide F.Ok, Conv, Line, GfMul, Xor, Eval, DivRoot, Divides, Ser1;
    var q := DivRoot(F, f, x) + [0];
    DivRootCoefs(F, f, x);
    FieldShape(F);
    SerAtIs(F, f);
    SerAtIs(F, q);
    MulZero(F, x);
    XorZero(0);
    assert q[|q| - 1] == 0;
    forall n: nat ensures Ser1(f)(n) == Conv(F, Ser1(q), Line(F, x), n) {
      TimesLine(F, Ser1(q), x, n);
      if n < |f| {
        assert QuotientAt(F, f, q, x, n);
        XorZero(GfMul(F, x, q[n]));
      }
    }
    DividesIntro(F, Line(F, x), Ser1(f), Ser1(q), |q| - 1);
  }

  // ----- repeated roots

  /** No (X + x)^2 divides f. */
  ghost predicate SquareFree(F: Field, f: seq<nat>)
    requires F.Ok() && |f| >= 1
  {
    forall x: nat :: F.El(x) ==> !Divides(F, Twice(F, x), Ser1(f))
  }

  /** (a l) (b l) = (a b) (l l). */
  lemma {:induction false} Regroup(F: Field, a: Ser, b: Ser, l: Ser, w: Ser, n: nat)
    requires F.Ok() && IsSer(F, a) && IsSer(F, b) && IsSer(F, l) && IsSer(F, w)
    requires forall i: nat :: w(i) == Conv(F, l, l, i)
    ensures Conv(F, Prod(F, a, l), Prod(F, b, l), n) == Conv(F, Prod(F, a, b), w, n)
  {
    hide F.Ok, Conv, Prod;
    var al, bl, ll, ab := Prod(F, a, l), Prod(F, b, l), Prod(F, l, l), Prod(F, a, b);
    // (a l) (b l) = b ((a l) l)
    ConvLeftComm(F, al, b, l, n);
    // (a l) l = a (l l) = a w
    forall i: nat | i <= n ensures b(i) == b(i) && Prod(F, al, l)(i) == Prod(F, a, w)(i) {
      ProdAt(F, al, l, i);
      ProdAt(F, a, w, i);
      ConvAssoc(F, a, l, l, i);
      forall j: nat | j <= i ensures a(j) == a(j) && ll(j) == w(j) { ProdAt(F, l, l, j); }
      ConvCong(F, a, a, ll, w, i);
    }
    ConvCong(F, b, b, Prod(F, al, l), Prod(F, a, w), n);
    ConvLeftComm(F, b, a, w, n);
    ConvAssoc(F, a, b, w, n);
  }

  /** A common root of divisor and quotient is a repeated root. */
  lemma {:induction false} CommonRepeats(F: Field, f: seq<nat>, g: seq<nat>, q: seq<nat>, x: nat)
    requires F.Ok() && DivRem(F, f, g, q, [0]) && |f| >= 1 && IsPoly(F, g) && IsPoly(F, q)
    requires RootOf(F, g, x) && RootOf(F, q, x)
    ensures F.El(x) && Divides(F, Twice(F, x), Ser1(f))
  {
    hide F.Ok, Conv, Line, Twice, GfMul, Xor, RootOf, Divides, DivRem, Prod, Ser1, Monic, Division;
    DivRemShape(F, f, g, q, [0]);
    QuotientTop(F, f, g, q, [0]);
    RootDivides(F, g, x);
    RootDivides(F, q, x);
    var l, w, m, d := Line(F, x), Twice(F, x), Monic(F, g, |g| - 1), |g| - 1;
    MonicDivides(F, g, l);
    var a, i := DividesElim(F, l, m);
    var b, j := DividesElim(F, l, Ser1(q));
    forall k: nat ensures w(k) == Conv(F, l, l, k) { LineSquared(F, x, k); }
    var p := Prod(F, a, b);
    forall n: nat ensures Ser1(f)(n) == Conv(F, p, w, n) {
      ExactProduct(F, f, g, q, n);
      forall k: nat | k <= n ensures m(k) == Prod(F, a, l)(k) && Ser1(q)(k) == Prod(F, b, l)(k) {
        ProdAt(F, a, l, k);
        ProdAt(F, b, l, k);
      }
      ConvCong(F, m, Prod(F, a, l), Ser1(q), Prod(F, b, l), n);
      Regroup(F, a, b, l, w, n);
    }
    forall k: nat | k > i + j ensures p(k) == 0 {
      ProdAt(F, a, b, k);
      ConvDegree(F, a, i, b, j, k);
    }
    DegreeIntro(p, i + j);
    DividesIntro(F, w, Ser1(f), p, i + j);
  }

  lemma {:induction false} DegreeIntro(a: Ser, d: nat)
    requires forall i: nat :: i > d ==> a(i) == 0
    ensures DegreeAtMost(a, d)
  {
  }

  lemma {:induction false} MonicDivides(F: Field, g: seq<nat>, h: Ser)
    requires F.Ok() && Trimmed(F, g) && |g| > 1 && Divides(F, h, Ser1(g))
    ensures Divides(F, h, Monic(F, g, |g| - 1)) && IsSer(F, h)
  {
    hide F.Ok, Divides, GfInv, Times, SerTo;
    DividesSer(F, h, Ser1(g));
    MonicDef(F, g, |g| - 1);
    InverseIn(F, g[|g| - 1]);
    DividesTimes(F, h, GfInv(F, g[|g| - 1]), Ser1(g));
  }

  lemma {:induction false} InverseIn(F: Field, x: nat)
    requires F.Ok() && F.El(x) && x != 0
    ensures F.El(GfInv(F, x))
  {
    hide F.Ok;
    MulInverse(F, x);
  }

  /** Without a remainder f is the product of the monic divisor and the quotient. */
  lemma {:induction false} ExactProduct(F: Field, f: seq<nat>, g: seq<nat>, q: seq<nat>, n: nat)
    requires F.Ok() && DivRem(F, f, g, q, [0]) && |f| >= 1 && |g| > 1 && IsPoly(F, g) && g[|g| - 1] != 0 && IsPoly(F, q)
             && |q| >= 1
    ensures IsSer(F, Ser1(q)) && Ser1(f)(n) == Conv(F, Monic(F, g, |g| - 1), Ser1(q), n)
  {
    hide F.Ok, Conv, Xor, Monic, Division, DivRem;
    var z: seq<nat> := [0];
    FieldShape(F);
    SerAtIs(F, q);
    SerAtIs(F, z);
    DivDivision(F, f, g, q, z);
    DivisionAt(F, Ser1(f), Monic(F, g, |g| - 1), Ser1(q), Ser1(z), n);
    XorZero(Conv(F, Monic(F, g, |g| - 1), Ser1(q), n));
  }

  /** Divisor and quotient of a polynomial without repeated roots have none, and no common root. */
  lemma {:induction false} PartsSquareFree(F: Field, f: seq<nat>, g: seq<nat>, q: seq<nat>)
    requires F.Ok() && DivRem(F, f, g, q, [0]) && |f| >= 1 && |g| >= 1 && |q| >= 1 && SquareFree(F, f)
    ensures SquareFree(F, g) && SquareFree(F, q) && NoCommonRoot(F, g, q)
  {
    hide F.Ok, Divides, DivRem, Twice, RootOf, Ser1;
    DivRemShape(F, f, g, q, [0]);
    forall x: nat | F.El(x) ensures !Divides(F, Twice(F, x), Ser1(g)) && !Divides(F, Twice(F, x), Ser1(q)) {
      if Divides(F, Twice(F, x), Ser1(g)) { DivisorDivides(F, f, g, q, Twice(F, x)); }
      if Divides(F, Twice(F, x), Ser1(q)) { QuotientDivides(F, f, g, q, Twice(F, x)); }
    }
    forall x: nat | RootOf(F, g, x) ensures !RootOf(F, q, x) {
      if RootOf(F, q, x) { CommonRepeats(F, f, g, q, x); }
    }
  }

  lemma {:induction false} DivisorDivides(F: Field, f: seq<nat>, g: seq<nat>, q: seq<nat>, h: Ser)
    requires F.Ok() && DivRem(F, f, g, q, [0]) && |f| >= 1 && |g| >= 1 && Divides(F, h, Ser1(g))
    ensures Divides(F, h, Ser1(f))
  {
    hide F.Ok, Divides, DivRem;
    var z: seq<nat> := [0];
    FieldShape(F);
    DividesSer(F, h, Ser1(g));
    SerAtIs(F, z);
    DividesZero(F, h, Ser1(z));
    DivisorsOf(F, f, g, q, z, h);
  }

  lemma {:induction false} QuotientDivides(F: Field, f: seq<nat>, g: seq<nat>, q: seq<nat>, h: Ser)
    requires F.Ok() && DivRem(F, f, g, q, [0]) && |f| >= 1 && |q| >= 1 && Divides(F, h, Ser1(q))
    ensures Divides(F, h, Ser1(f))
  {
    hide F.Ok, Divides, DivRem, Monic, Conv;
    DivRemShape(F, f, g, q, [0]);
    var m := Monic(F, g, |g| - 1);
    MonicShape(F, g, |g| - 1);
    SerAtIs(F, q);
    forall n: nat ensures Ser1(f)(n) == Conv(F, Ser1(q), m, n) {
      ExactProduct(F, f, g, q, n);
      ConvComm(F, m, Ser1(q), n);
    }
    DividesProduct(F, h, Ser1(q), m, |g| - 1, Ser1(f));
  }

  /** Without repeated roots, divisions without remainder are exact. */
  lemma {:induction false} DividedExact(F: Field, k: nat, f: seq<nat>, T: Factoring)
    requires F.Ok() && Fits(F, k, f, T) && |f| >= 1 && SquareFree(F, f)
    ensures Divided(T) <==> Exact(F, T)
    decreases T
  {
    hide F.Ok, IsChain, IsTrace, DivRem, SquareFree, NoCommonRoot;
    match T
    case Leaf =>
    case Whole(zs, t, rest) => DividedExact(F, k + 1, f, rest);
    case Parts(zs, chain, q, r, left, right) =>
      if r == [0] {
        ChainShape(F, chain);
        DivRemShape(F, f, Divisor(chain), q, r);
        PartsSquareFree(F, f, Divisor(chain), q);
        DividedExact(F, k + 1, Divisor(chain), left);
        DividedExact(F, k + 1, q, right);
      }
  }

  /** A polynomial without repeated roots of which all leaves split does so itself if and only if no division on the
      way left a remainder. */
  lemma {:induction false} SplitsIffDivided(F: Field, f: seq<nat>, T: Factoring)
    requires F.Ok() && F.m > 1 && Trimmed(F, f) && f[|f| - 1] != 0 && Fits(F, 1, f, T) && SquareFree(F, f)
    ensures Splits(F, f, |f| - 1) <==> AllSolved(F, f, T) && Divided(T)
  {
    hide F.Ok, Fits, AllSolved, Exact, Divided, Splits, SquareFree;
    SplitsIffExact(F, f, T);
    DividedExact(F, 1, f, T);
  }

  // ----- shortest solutions

  /** The identities of odd index hold for c if they hold for c times X^2 + x^2. */
  lemma {:induction false} HalfSolves(F: Field, u: Ser, s: Ser, c: Ser, x: nat, n: nat, k: nat)
    requires F.Ok() && IsSer(F, u) && IsSer(F, s) && IsSer(F, c) && F.El(x) && x != 0
    requires forall i: nat :: s(i) == Conv(F, c, Twice(F, x), i)
    requires forall i: nat :: i < n && i % 2 == 1 ==> Conv(F, u, s, i) == 0
    requires k < n && k % 2 == 1
    ensures Conv(F, u, c, k) == 0
    decreases k
  {
    hide F.Ok, Conv, Prod, Twice, GfMul, Xor;
    var w, uc := Twice(F, x), Prod(F, u, c);
    assert Conv(F, u, s, k) == 0;
    forall i: nat | i <= k ensures u(i) == u(i) && s(i) == Prod(F, c, w)(i) { ProdAt(F, c, w, i); }
    ConvCong(F, u, u, s, Prod(F, c, w), k);
    ConvAssoc(F, u, c, w, k);
    TimesTwice(F, uc, x, k);
    ProdAt(F, u, c, k);
    if k > 1 {
      HalfSolves(F, u, s, c, x, n, k - 2);
      ProdAt(F, u, c, k - 2);
      XorZero(GfMul(F, GfMul(F, x, x), uc(k)));
    }
    MulNonzero(F, x, x);
    if uc(k) != 0 { MulNonzero(F, GfMul(F, x, x), uc(k)); }
  }

  lemma {:induction false} CofactorDegree(F: Field, s: Ser, d: nat, c: Ser, n: nat, x: nat) returns (e: nat)
    requires F.Ok() && IsSer(F, c) && F.El(x) && DegreeAtMost(c, n) && DegreeAtMost(s, d) && s(0) == 1
    requires forall i: nat :: s(i) == Conv(F, c, Twice(F, x), i)
    ensures e + 2 <= d && DegreeAtMost(c, e)
  {
    hide F.Ok, Conv, Twice, GfMul, DegreeAtMost;
    e := ExactDegree(c, n);
    TwiceAt(F, x);
    DegreeIntro(Twice(F, x), 2);
    LeadingProduct(F, c, e, Twice(F, x), 2);
    MulOne(F, c(e));
    DegreeDef(s, d);
    if c(e) == 0 {
      DegreeDef(c, e);
      ConvZero(F, c, Twice(F, x), 0);
    }
  }

  /** A shortest solution has no repeated root: without it there would be a shorter one. */
  lemma {:induction false} ShortestSquareFree(F: Field, u: Ser, f: seq<nat>, n: nat)
    requires F.Ok() && IsPoly(F, f) && |f| >= 1 && Solves(F, u, Ser1(f), |f| - 1, n) && Minimal(F, u, |f| - 1, n)
    ensures SquareFree(F, f)
  {
    hide F.Ok, Conv, Twice, GfMul, Xor, Divides, Minimal;
    forall x: nat | F.El(x) ensures !Divides(F, Twice(F, x), Ser1(f)) {
      if Divides(F, Twice(F, x), Ser1(f)) { ShorterExists(F, u, Ser1(f), |f| - 1, n, x); }
    }
  }

  lemma {:induction false} ShorterExists(F: Field, u: Ser, s: Ser, d: nat, n: nat, x: nat)
    requires F.Ok() && Solves(F, u, s, d, n) && F.El(x) && Divides(F, Twice(F, x), s)
    ensures !Minimal(F, u, d, n)
  {
    hide F.Ok, Conv, Twice, GfMul, Xor, Divides, Times;
    var c, b := DividesElim(F, Twice(F, x), s);
    var e := CofactorDegree(F, s, d, c, b, x);
    TimesTwice(F, c, x, 0);
    var y := GfMul(F, x, x);
    MulZero(F, 0);
    MulZero(F, c(0));
    assert x != 0;
    var v := Times(F, y, c);
    TimesAt(F, y, c);
    forall i: nat | i > e ensures v(i) == 0 { TimesCoef(F, y, c, i); MulZero(F, y); }
    TimesCoef(F, y, c, 0);
    forall k: nat | k < n && k % 2 == 1 ensures Conv(F, u, v, k) == 0 {
      HalfSolves(F, u, s, c, x, n, k);
      ConvComm(F, u, v, k);
      ConvTimesLeft(F, y, c, u, k);
      ConvComm(F, c, u, k);
      MulZero(F, y);
    }
    assert Solves(F, u, v, e, n);
  }
}
