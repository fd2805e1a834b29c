/** At most t errors: the shortest solution of the first 2t identities is the error locator. */
module LocatorUnique {
  import opened Gf2
  import opened GaloisField
  import opened FieldLaws
  import opened FieldPoly
  import opened PowerSeries
  import opened Newton
  import opened Locator

  /** Distinct error positions. */
  ghost predicate Positions(F: Field, ps: seq<nat>) {
    && (forall i :: 0 <= i < |ps| ==> ps[i] < F.N())
    && (forall i, j :: 0 <= i < j < |ps| ==> ps[i] != ps[j])
  }

  // ----- shape of the locator

  lemma {:induction false} LocShape(F: Field, ps: seq<nat>)
    requires F.Ok()
    ensures LocSer(F, ps)(0) == 1 && DegreeAtMost(LocSer(F, ps), |ps|) && LocSer(F, ps)(|ps|) != 0
  {
    hide Xor, GfMul, F.Ok, A, MulLin, LocSer;
    if ps == [] {
      LocNone(F);
    } else {
      var k := |ps| - 1;
      var x, a := A(F, ps[k]), LocSer(F, ps[..k]);
      LocShape(F, ps[..k]);
      LocSerStep(F, ps);
      MulLinAt(F, x, a, 0);
      MulLinAt(F, x, a, k + 1);
      MulZero(F, x);
      XorZero(GfMul(F, x, a(k)));
      MulNonzero(F, x, a(k));
      forall i: nat | i > k + 1 ensures MulLin(F, x, a)(i) == 0 {
        MulLinAt(F, x, a, i);
        XorZero(0);
      }
    }
  }

  lemma {:induction false} LocNone(F: Field)
    requires F.Ok()
    ensures LocSer(F, [])(0) == 1 && forall i: nat :: i > 0 ==> LocSer(F, [])(i) == 0
  {
    hide F.Ok, A;
  }

  lemma {:induction false} LocSolves(F: Field, ps: seq<nat>, n: nat)
    requires F.Ok()
    ensures Solves(F, PowerSer(F, ps), LocSer(F, ps), |ps|, n)
  {
    hide Xor, GfMul, F.Ok, A, MulLin, LocSer, Conv, PowerSer;
    LocShape(F, ps);
    forall k: nat | k < n && k % 2 == 1 ensures Conv(F, PowerSer(F, ps), LocSer(F, ps), k) == 0 {
      LocatorIdentity(F, ps, k);
    }
  }

  // ----- values of the locator

  lemma {:induction false} EvalXTimes(F: Field, x: nat, b: Ser, d: nat, r: nat)
    requires F.Ok() && F.El(x) && F.El(r) && IsSer(F, b)
    ensures EvalSer(F, XTimes(F, x, b), d + 1, r) == GfMul(F, GfMul(F, x, r), EvalSer(F, b, d, r))
  {
    hide *;
    var s := XTimes(F, x, b);
    EvalSerStep(F, s, d + 1, r);
    XTimesAt(F, x, b, 0);
    TailIsSer(F, s);
    forall i: nat | i <= d ensures Tail(s)(i) == Times(F, x, b)(i) {
      TailAt(s, i);
      XTimesAt(F, x, b, i + 1);
      TimesCoef(F, x, b, i);
    }
    EvalSerCong(F, Tail(s), Times(F, x, b), d, r);
    EvalSerTimes(F, x, b, d, r);
    var v := EvalSer(F, b, d, r);
    XorZero(GfMul(F, r, GfMul(F, x, v)));
    MulAssoc(F, r, x, v);
    MulComm(F, r, x);
  }

  /** The even part of (1 + x X) a is the even part of a plus x X times its odd part, and conversely. */
  lemma {:induction false} PartsOfMulLin(F: Field, x: nat, a: Ser, i: nat)
    requires F.Ok() && F.El(x) && IsSer(F, a)
    ensures IsSer(F, Even(a)) && IsSer(F, Odd(a))
    ensures Even(MulLin(F, x, a))(i) == Xor(Even(a)(i), XTimes(F, x, Odd(a))(i))
    ensures Odd(MulLin(F, x, a))(i) == Xor(Odd(a)(i), XTimes(F, x, Even(a))(i))
  {
    hide *;
    PartsAreSer(F, a);
    EvenAt(MulLin(F, x, a), i);
    EvenAt(a, i);
    MulLinAt(F, x, a, i);
    XTimesAt(F, x, Odd(a), i);
    XTimesAt(F, x, Even(a), i);
    SerAt(F, a, i);
    XorZero(a(i));
    XorZero(0);
    MulZero(F, x);
    if i > 0 {
      EvenAt(a, i - 1);
      XorZero(GfMul(F, x, a(i - 1)));
    }
  }

  lemma {:induction false} PartsBounded(F: Field, a: Ser, d: nat)
    requires F.Ok() && IsSer(F, a) && DegreeAtMost(a, d)
    ensures DegreeAtMost(Even(a), d) && DegreeAtMost(Odd(a), d)
  {
  }

  /** The value at r of a sum b + x X c, as the parts of (1 + x X) a are. */
  lemma {:induction false} EvalPart(F: Field, x: nat, b: Ser, c: Ser, s: Ser, d: nat, r: nat)
    requires F.Ok() && F.El(x) && F.El(r) && IsSer(F, b) && IsSer(F, c) && IsSer(F, s) && DegreeAtMost(b, d)
    requires forall i: nat :: s(i) == Xor(b(i), XTimes(F, x, c)(i))
    ensures EvalSer(F, s, d + 1, r) == Xor(EvalSer(F, b, d, r), GfMul(F, GfMul(F, x, r), EvalSer(F, c, d, r)))
  {
    hide *;
    var xc := XTimes(F, x, c);
    SumIsSer(F, b, xc);
    SumAt(F, b, xc);
    EvalSerCong(F, s, Sum(b, xc), d + 1, r);
    EvalSerSum(F, b, xc, d + 1, r);
    DegreeDef(b, d);
    EvalSerBound(F, b, d, d + 1, r);
    EvalXTimes(F, x, c, d, r);
  }

  lemma {:induction false} EvalEvenPart(F: Field, x: nat, a: Ser, d: nat, r: nat)
    requires F.Ok() && F.El(x) && F.El(r) && IsSer(F, a) && DegreeAtMost(a, d)
    ensures IsSer(F, Even(a)) && IsSer(F, Odd(a)) && IsSer(F, Even(MulLin(F, x, a)))
    ensures Xor(EvalSer(F, Even(a), d, r), GfMul(F, GfMul(F, x, r), EvalSer(F, Odd(a), d, r)))
         == EvalSer(F, Even(MulLin(F, x, a)), d + 1, r)
  {
    hide *;
    PartsAreSer(F, a);
    PartsAreSer(F, MulLin(F, x, a));
    PartsBounded(F, a, d);
    forall i: nat ensures Even(MulLin(F, x, a))(i) == Xor(Even(a)(i), XTimes(F, x, Odd(a))(i)) {
      PartsOfMulLin(F, x, a, i);
    }
    EvalPart(F, x, Even(a), Odd(a), Even(MulLin(F, x, a)), d, r);
  }

  lemma {:induction false} EvalWhole(F: Field, a: Ser, d: nat, r: nat)
    requires F.Ok() && F.El(r) && IsSer(F, a)
    ensures IsSer(F, Even(a)) && IsSer(F, Odd(a))
    ensures EvalSer(F, a, d, r) == Xor(EvalSer(F, Even(a), d, r), EvalSer(F, Odd(a), d, r))
  {
    hide *;
    PartsAreSer(F, a);
    SumAt(F, Even(a), Odd(a));
    SumIsSer(F, Even(a), Odd(a));
    EvalSerCong(F, a, Sum(Even(a), Odd(a)), d, r);
    EvalSerSum(F, Even(a), Odd(a), d, r);
  }

  lemma {:induction false} OnePlus(F: Field, y: nat)
    requires F.Ok() && F.El(y)
    ensures F.El(1) && F.El(Xor(1, y))
  {
    FieldShape(F);
    XorBound(1, y, F.m);
  }

  lemma {:induction false} EvalMulLin(F: Field, x: nat, a: Ser, d: nat, r: nat)
    requires F.Ok() && F.El(x) && F.El(r) && IsSer(F, a) && DegreeAtMost(a, d)
    ensures F.El(Xor(1, GfMul(F, x, r)))
    ensures GfMul(F, Xor(1, GfMul(F, x, r)), EvalSer(F, a, d, r)) == EvalSer(F, MulLin(F, x, a), d + 1, r)
  {
    hide *;
    var y, v := GfMul(F, x, r), EvalSer(F, a, d, r);
    OnePlus(F, y);
    MulLinDef(F, x, a);
    SumAt(F, a, XTimes(F, x, a));
    EvalPart(F, x, a, a, MulLin(F, x, a), d, r);
    MulDistribLeft(F, 1, y, v);
    MulOne(F, v);
  }

  /** The inverse of a^q. */
  ghost function Inverse(F: Field, q: nat): (r: nat)
    requires F.Ok() && q < F.N()
    ensures F.El(r) && r != 0
  {
    A(F, F.N() - q)
  }

  lemma {:induction false} InverseProduct(F: Field, p: nat, q: nat)
    requires F.Ok() && p < F.N() && q < F.N()
    ensures GfMul(F, A(F, p), Inverse(F, q)) == 1 <==> p == q
  {
    hide GfMul, F.Ok, A, Pow2;
    var n := F.N();
    AZero(F);
    FieldShape(F);
    MulPowers(F, p, n - q);
    APeriod(F, 0);
    if p == q {
    } else if p > q {
      APeriod(F, p - q);
      if A(F, p - q) == 1 { AInjective(F, p - q, 0); }
    } else {
      if A(F, p + n - q) == 1 { AInjective(F, p + n - q, 0); }
    }
  }

  /** The locator vanishes exactly at the inverses of the error positions. */
  lemma {:induction false} LocRoots(F: Field, ps: seq<nat>, q: nat)
    requires F.Ok() && Positions(F, ps) && q < F.N()
    ensures EvalSer(F, LocSer(F, ps), |ps|, Inverse(F, q)) == 0 <==> q in ps
    decreases |ps|
  {
    hide Xor, GfMul, F.Ok, A, Pow2, LocSer, EvalSer, MulLin;
    var r := Inverse(F, q);
    if ps == [] {
      LocNone(F);
      EvalSerStep(F, LocSer(F, ps), 0, r);
    } else {
      var k := |ps| - 1;
      var a, x := LocSer(F, ps[..k]), A(F, ps[k]);
      LocRoots(F, ps[..k], q);
      LocShape(F, ps[..k]);
      LocSerStep(F, ps);
      EvalMulLin(F, x, a, k, r);
      InverseProduct(F, ps[k], q);
      var y, v := GfMul(F, x, r), EvalSer(F, a, k, r);
      assert ps == ps[..k] + [ps[k]];
      if y == 1 {
        XorSelf(1);
        MulZero(F, v);
      } else {
        if Xor(1, y) == 0 { XorEqualZero(1, y); }
        if v == 0 { MulZero(F, Xor(1, y)); } else { MulNonzero(F, Xor(1, y), v); }
      }
    }
  }

  /** At a root of the locator its even part does not vanish. */
  lemma {:induction false} EvenNonzero(F: Field, ps: seq<nat>, even: Ser, q: nat, r: nat)
    requires F.Ok() && q < F.N() && IsSer(F, even) && F.El(r) && q in ps && Positions(F, ps)
    requires even == Even(LocSer(F, ps)) && r == Inverse(F, q)
    ensures EvalSer(F, even, |ps|, r) != 0
    decreases |ps|
  {
    hide Xor, GfMul, F.Ok, A, Pow2, LocSer, EvalSer, MulLin, Even, Odd;
    var k := |ps| - 1;
    var a, x := LocSer(F, ps[..k]), A(F, ps[k]);
    assert ps == ps[..k] + [ps[k]];
    PartsAreSer(F, a);
    LocShape(F, ps[..k]);
    LocSerStep(F, ps);
    EvalEvenPart(F, x, a, k, r);
    EvalWhole(F, a, k, r);
    LocRoots(F, ps[..k], q);
    InverseProduct(F, ps[k], q);
    var y := GfMul(F, x, r);
    var ev, od := EvalSer(F, Even(a), k, r), EvalSer(F, Odd(a), k, r);
    if q == ps[k] {
      assert q !in ps[..k];
      MulOne(F, od);
    } else {
      EvenNonzero(F, ps[..k], Even(a), q, r);
      XorEqualZero(ev, od);
      OnePlus(F, y);
      MulDistribLeft(F, 1, y, ev);
      MulOne(F, ev);
      if Xor(1, y) == 0 { XorEqualZero(1, y); }
      MulNonzero(F, Xor(1, y), ev);
    }
  }

  // ----- uniqueness

  /** A zero cross product means s times the even part of t is t times the even part of s. */
  lemma {:induction false} CrossMeansProportional(F: Field, s: Ser, t: Ser, n: nat)
    requires F.Ok() && IsSer(F, s) && IsSer(F, t) && Cross(F, s, t)(n) == 0
    ensures IsSer(F, Even(s)) && IsSer(F, Even(t))
    ensures Conv(F, s, Even(t), n) == Conv(F, Even(s), t, n)
  {
    hide *;
    PartsAreSer(F, s);
    PartsAreSer(F, t);
    CrossAt(F, s, t, n);
    XorEqualZero(Conv(F, Even(s), Odd(t), n), Conv(F, Odd(s), Even(t), n));
    ConvSplit(F, s, Even(t), n);
    ConvComm(F, Even(s), t, n);
    ConvSplit(F, t, Even(s), n);
    ConvComm(F, Even(t), Even(s), n);
    ConvComm(F, Odd(t), Even(s), n);
  }

  lemma {:induction false} CrossAt(F: Field, s: Ser, t: Ser, n: nat)
    requires F.Ok() && IsSer(F, s) && IsSer(F, t)
    ensures IsSer(F, Even(s)) && IsSer(F, Even(t)) && IsSer(F, Odd(s)) && IsSer(F, Odd(t))
    ensures Cross(F, s, t)(n) == Xor(Conv(F, Even(s), Odd(t), n), Conv(F, Odd(s), Even(t), n))
  {
    hide Xor, GfMul, F.Ok, Conv, Even, Odd, Pow2;
    PartsAreSer(F, s);
    PartsAreSer(F, t);
  }

  /** A short solution vanishes wherever the locator does. */
  lemma {:induction false} SolutionVanishes(F: Field, u: Ser, s: Ser, d: nat, ps: seq<nat>, n: nat, q: nat, r: nat)
    requires F.Ok() && q < F.N() && IsSer(F, s) && F.El(r) && u(0) == 1 && n % 2 == 0
    requires d + |ps| <= n && q in ps && Positions(F, ps)
    requires Solves(F, u, s, d, n) && Solves(F, u, LocSer(F, ps), |ps|, n) && r == Inverse(F, q)
    ensures EvalSer(F, s, d, r) == 0
  {
    hide Xor, GfMul, F.Ok, Conv, Even, Odd, Pow2, LocSer, EvalSer, Cross, Inverse, Prod;
    var t, v := LocSer(F, ps), |ps|;
    PartsAreSer(F, s);
    PartsAreSer(F, t);
    PartsBounded(F, s, d);
    PartsBounded(F, t, v);
    forall i: nat | i <= d + v ensures Prod(F, s, Even(t))(i) == Prod(F, Even(s), t)(i) {
      CrossZero(F, u, s, t, d, v, n, i);
      CrossMeansProportional(F, s, t, i);
      ProdAt(F, s, Even(t), i);
      ProdAt(F, Even(s), t, i);
    }
    EvalSerCong(F, Prod(F, s, Even(t)), Prod(F, Even(s), t), d + v, r);
    EvalSerProd(F, s, d, Even(t), v, r);
    EvalSerProd(F, Even(s), d, t, v, r);
    LocRoots(F, ps, q);
    EvenNonzero(F, ps, Even(t), q, r);
    MulZero(F, EvalSer(F, Even(s), d, r));
    if EvalSer(F, s, d, r) != 0 {
      MulNonzero(F, EvalSer(F, s, d, r), EvalSer(F, Even(t), v, r));
    }
  }

  lemma {:induction false} EvalSerIsEval(F: Field, a: Ser, c: seq<nat>, x: nat)
    requires F.Ok() && IsSer(F, a) && F.El(x) && c != [] && IsPoly(F, c)
    requires forall i: nat :: i < |c| ==> c[i] == a(i)
    ensures EvalSer(F, a, |c| - 1, x) == Eval(F, c, x)
    decreases |c|
  {
    hide Xor, GfMul, F.Ok, Pow2;
    TailIsSer(F, a);
    if |c| == 1 {
      assert c[1..] == [];
      MulZero(F, x);
      XorZero(c[0]);
    } else {
      EvalSerIsEval(F, Tail(a), c[1..], x);
    }
  }

  ghost function Roots(F: Field, ps: seq<nat>): (rs: seq<nat>)
    requires F.Ok() && Positions(F, ps)
    ensures |rs| == |ps| + 1 && IsPoly(F, rs)
  {
    FieldShape(F);
    [0] + seq(|ps|, i requires 0 <= i < |ps| => Inverse(F, ps[i]))
  }

  lemma {:induction false} RootsDistinct(F: Field, ps: seq<nat>)
    requires F.Ok() && Positions(F, ps)
    ensures forall i, j :: 0 <= i < j <= |ps| ==> Roots(F, ps)[i] != Roots(F, ps)[j]
  {
    hide F.Ok, Inverse, Pow2;
    var rs := Roots(F, ps);
    forall i, j | 0 <= i < j <= |ps| ensures rs[i] != rs[j] {
      if i > 0 {
        InverseProduct(F, ps[i - 1], ps[i - 1]);
        InverseProduct(F, ps[i - 1], ps[j - 1]);
      }
    }
  }

  ghost function Coefs(a: Ser, n: nat): (c: seq<nat>)
    ensures |c| == n && forall i: nat :: i < n ==> c[i] == a(i)
  {
    seq(n, i requires 0 <= i < n => a(i))
  }

  /** The inverses of the given positions are roots of the polynomial s of degree at most |ps|. */
  ghost predicate Vanishes(F: Field, s: Ser, ps: seq<nat>)
    requires F.Ok() && IsSer(F, s) && Positions(F, ps)
  {
    forall i :: 0 <= i < |ps| ==> EvalSer(F, s, |ps|, Inverse(F, ps[i])) == 0
  }

  lemma {:induction false} VanishesAt(F: Field, s: Ser, ps: seq<nat>, i: nat)
    requires F.Ok() && IsSer(F, s) && Positions(F, ps) && i < |ps| && Vanishes(F, s, ps)
    ensures ps[i] < F.N() && EvalSer(F, s, |ps|, Inverse(F, ps[i])) == 0
  {
  }

  /** A polynomial with constant term 1 and as many roots as its degree is the locator of its roots. */
  lemma {:induction false} RootsDetermine(F: Field, s: Ser, ps: seq<nat>)
    requires F.Ok() && IsSer(F, s) && s(0) == 1 && DegreeAtMost(s, |ps|) && Positions(F, ps) && Vanishes(F, s, ps)
    ensures forall i: nat :: s(i) == LocSer(F, ps)(i)
  {
    hide *;
    var t, v := LocSer(F, ps), |ps|;
    LocShape(F, ps);
    SumIsSer(F, s, t);
    SumAt(F, s, t);
    var diff := Sum(s, t);
    var c := Coefs(diff, v + 1);
    CoefsPoly(F, diff, v + 1);
    var rs := Roots(F, ps);
    forall j | 0 <= j < |rs| ensures F.El(rs[j]) && Eval(F, c, rs[j]) == 0 {
      PolyAt(F, rs, j);
      EvalSerIsEval(F, diff, c, rs[j]);
      DifferenceRoot(F, s, ps, diff, j, rs[j]);
    }
    RootsDistinct(F, ps);
    RootsBound(F, c, rs);
    DegreeDef(s, v);
    DegreeDef(t, v);
    forall i: nat ensures s(i) == t(i) {
      if i <= v {
        ZeroAt(c, i);
        XorEqualZero(s(i), t(i));
      }
    }
  }

  /** A solution no longer than the locator is the locator. */
  lemma {:induction false} ShortSolutionIsLocator(F: Field, u: Ser, s: Ser, d: nat, ps: seq<nat>, n: nat)
    requires F.Ok() && u(0) == 1 && n % 2 == 0 && d <= |ps| && 2 * |ps| <= n && Positions(F, ps)
    requires Solves(F, u, s, d, n) && Solves(F, u, LocSer(F, ps), |ps|, n)
    ensures d == |ps| && forall i: nat :: s(i) == LocSer(F, ps)(i)
  {
    hide Xor, GfMul, F.Ok, Conv, Pow2, LocSer, EvalSer, Inverse;
    var v := |ps|;
    SolvesSer(F, u, s, d, n);
    forall i | 0 <= i < v ensures EvalSer(F, s, v, Inverse(F, ps[i])) == 0 {
      SolutionVanishes(F, u, s, d, ps, n, ps[i], Inverse(F, ps[i]));
      EvalSerBound(F, s, d, v, Inverse(F, ps[i]));
    }
    RootsDetermine(F, s, ps);
    LocShape(F, ps);
  }

  lemma {:induction false} SolvesSer(F: Field, u: Ser, s: Ser, d: nat, n: nat)
    requires F.Ok() && Solves(F, u, s, d, n)
    ensures IsSer(F, u) && IsSer(F, s) && s(0) == 1 && DegreeAtMost(s, d)
  {
  }

  lemma {:induction false} CoefsPoly(F: Field, a: Ser, n: nat)
    requires IsSer(F, a)
    ensures IsPoly(F, Coefs(a, n))
  {
  }

  lemma {:induction false} PolyAt(F: Field, c: seq<nat>, i: nat)
    requires IsPoly(F, c) && i < |c|
    ensures F.El(c[i])
  {
  }

  lemma {:induction false} ZeroAt(c: seq<nat>, i: nat)
    requires AllZero(c) && i < |c|
    ensures c[i] == 0
  {
  }

  lemma {:induction false} DifferenceRoot(F: Field, s: Ser, ps: seq<nat>, diff: Ser, j: nat, r: nat)
    requires F.Ok() && F.El(r) && IsSer(F, diff) && IsSer(F, s) && s(0) == 1
    requires Positions(F, ps) && j <= |ps| && r == Roots(F, ps)[j]
    requires diff == Sum(s, LocSer(F, ps)) && Vanishes(F, s, ps)
    ensures EvalSer(F, diff, |ps|, r) == 0
  {
    hide *;
    var t, v := LocSer(F, ps), |ps|;
    EvalSerSum(F, s, t, v, r);
    LocShape(F, ps);
    RootsAt(F, ps, j);
    if j == 0 {
      EvalAtZero(F, s, v);
      EvalAtZero(F, t, v);
      XorSelf(1);
    } else {
      var q := ps[j - 1];
      VanishesAt(F, s, ps, j - 1);
      LocRoots(F, ps, q);
      XorZero(0);
    }
  }

  lemma {:induction false} RootsAt(F: Field, ps: seq<nat>, j: nat)
    requires F.Ok() && Positions(F, ps) && j <= |ps|
    ensures j == 0 ==> Roots(F, ps)[j] == 0
    ensures j > 0 ==> ps[j - 1] < F.N() && Roots(F, ps)[j] == Inverse(F, ps[j - 1])
  {
    hide Inverse;
  }

  lemma {:induction false} EvalAtZero(F: Field, a: Ser, d: nat)
    requires F.Ok() && IsSer(F, a)
    ensures F.El(0) && EvalSer(F, a, d, 0) == a(0)
  {
    hide Xor, GfMul, F.Ok, Pow2, EvalSer;
    FieldShape(F);
    EvalSerStep(F, a, d, 0);
    if d > 0 {
      MulZero(F, EvalSer(F, Tail(a), d - 1, 0));
      XorZero(a(0));
    }
  }

  /** For at most t errors, any shortest solution of the 2t identities is the locator of the errors. */
  lemma {:induction false} MinimalIsLocator(F: Field, u: Ser, s: Ser, d: nat, ps: seq<nat>, t: nat)
    requires F.Ok() && u(0) == 1 && Positions(F, ps) && |ps| <= t
    requires IsSer(F, u) && forall k: nat :: k < 2 * t ==> u(k) == PowerSer(F, ps)(k)
    requires Solves(F, u, s, d, 2 * t) && Minimal(F, u, d, 2 * t)
    ensures d == |ps| && forall i: nat :: s(i) == LocSer(F, ps)(i)
  {
    hide Xor, GfMul, F.Ok, Conv, Pow2, LocSer, PowerSer;
    SolvesTransfer(F, u, ps, 2 * t);
    assert Solves(F, u, LocSer(F, ps), |ps|, 2 * t);
    ShortSolutionIsLocator(F, u, s, d, ps, 2 * t);
  }

  lemma {:induction false} SolvesTransfer(F: Field, u: Ser, ps: seq<nat>, n: nat)
    requires F.Ok() && IsSer(F, u) && forall k: nat :: k < n ==> u(k) == PowerSer(F, ps)(k)
    ensures Solves(F, u, LocSer(F, ps), |ps|, n)
  {
    hide Xor, GfMul, F.Ok, Conv, Pow2, LocSer, PowerSer;
    LocSolves(F, ps, n);
    var a := LocSer(F, ps);
    forall k: nat | k < n && k % 2 == 1 ensures Conv(F, u, a, k) == 0 {
      ConvCong(F, u, PowerSer(F, ps), a, a, k);
    }
  }
}
