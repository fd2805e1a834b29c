/** Division with remainder and Euclid's algorithm on polynomials given by their coefficients, as relations between the
    polynomials that occur; each relation determines its results. */
module EuclidChain {
  import opened Gf2
  import opened GaloisField
  import opened FieldLaws
  import opened FieldPoly
  import opened PowerSeries
  import opened Newton
  import opened BerlekampMassey
  import opened Locator
  import opened LocatorUnique
  import opened Chien
  import opened PolyDivision
  import opened PolyGcd

  /** Coefficients with a nonzero one on top, except for constants. */
  ghost predicate Trimmed(F: Field, c: seq<nat>) {
    IsPoly(F, c) && |c| >= 1 && (|c| > 1 ==> c[|c| - 1] != 0)
  }

  ghost function Ser1(c: seq<nat>): Ser
    requires |c| >= 1
  {
    SerTo(c, |c| - 1)
  }

  lemma {:induction false} SerAtIs(F: Field, c: seq<nat>)
    requires F.Ok() && IsPoly(F, c) && |c| >= 1
    ensures IsSer(F, Ser1(c)) && DegreeAtMost(Ser1(c), |c| - 1)
    ensures forall i: nat :: Ser1(c)(i) == if i < |c| then c[i] else 0
  {
    hide F.Ok;
    SerToIsSer(F, c, |c| - 1);
  }

  /** a = b q + r with the monic multiple of b, where r has fewer coefficients than b. */
  ghost predicate DivRem(F: Field, a: seq<nat>, b: seq<nat>, q: seq<nat>, r: seq<nat>)
    requires F.Ok()
  {
    && Trimmed(F, a) && Trimmed(F, b) && Trimmed(F, r) && IsPoly(F, q)
    && 1 < |b| <= |a| && |r| < |b| && |q| == |a| - |b| + 1
    && Division(F, Ser1(a), Monic(F, b, |b| - 1), Ser1(q), Ser1(r))
  }

  lemma {:induction false} SumDegree(F: Field, a: Ser, b: Ser, n: nat)
    requires IsSer(F, a) && IsSer(F, b) && DegreeAtMost(a, n) && DegreeAtMost(b, n)
    ensures IsSer(F, Sum(a, b)) && DegreeAtMost(Sum(a, b), n)
  {
    hide Xor, Pow2;
    SumIsSer(F, a, b);
    XorZero(0);
    DegreeDef(a, n);
    DegreeDef(b, n);
  }

  /** b (q + q') = r + r'. */
  lemma {:induction false} Differences(F: Field, a: Ser, b: Ser, q: Ser, r: Ser, q': Ser, r': Ser, n: nat)
    requires F.Ok() && Division(F, a, b, q, r) && Division(F, a, b, q', r')
    ensures IsSer(F, b) && IsSer(F, q) && IsSer(F, q') && IsSer(F, Sum(q, q'))
            && Conv(F, b, Sum(q, q'), n) == Xor(r(n), r'(n))
  {
    hide F.Ok, Conv, Xor, Division;
    DivisionAt(F, a, b, q, r, n);
    DivisionAt(F, a, b, q', r', n);
    SumIsSer(F, q, q');
    ConvComm(F, b, Sum(q, q'), n);
    ConvAddLeft(F, q, q', b, n);
    ConvComm(F, b, q, n);
    ConvComm(F, b, q', n);
    var p, p' := Conv(F, b, q, n), Conv(F, b, q', n);
    XorSwap4(p, p', r(n), r'(n));
    XorSelf(a(n));
    XorSwap4(p, r(n), p', r'(n));
    XorEqualZero(Xor(p, p'), Xor(r(n), r'(n)));
  }

  lemma {:induction false} QuotientUnique(F: Field, a: Ser, b: Ser, d: nat, q: Ser, r: Ser, q': Ser, r': Ser, n: nat)
    requires F.Ok() && Division(F, a, b, q, r) && Division(F, a, b, q', r') && d > 0
    requires DegreeAtMost(b, d) && b(d) == 1 && DegreeAtMost(q, n) && DegreeAtMost(q', n)
    requires DegreeAtMost(r, d - 1) && DegreeAtMost(r', d - 1)
    ensures forall i: nat :: q(i) == q'(i) && r(i) == r'(i)
  {
    hide F.Ok, Conv, Xor, Division, GfMul, DegreeAtMost, Sum;
    DivisionSer(F, a, b, q, r);
    DivisionSer(F, a, b, q', r');
    var s := Sum(q, q');
    SumDegree(F, q, q', n);
    SumAt(F, q, q');
    var e := ExactDegree(s, n);
    Differences(F, a, b, q, r, q', r', d + e);
    LeadingProduct(F, b, d, s, e);
    MulOne(F, s(e));
    DegreeDef(r, d - 1);
    DegreeDef(r', d - 1);
    XorZero(0);
    DegreeDef(s, e);
    forall i: nat ensures q(i) == q'(i) && r(i) == r'(i) {
      assert s(i) == 0;
      XorEqualZero(q(i), q'(i));
      Differences(F, a, b, q, r, q', r', i);
      ConvComm(F, b, s, i);
      ConvZero(F, s, b, i);
      XorEqualZero(r(i), r'(i));
    }
  }

  lemma {:induction false} SameCoefs(F: Field, c: seq<nat>, d: seq<nat>)
    requires F.Ok() && Trimmed(F, c) && Trimmed(F, d) && forall i: nat :: Ser1(c)(i) == Ser1(d)(i)
    ensures c == d
  {
    hide F.Ok, Ser1;
    SerAtIs(F, c);
    SerAtIs(F, d);
    assert Ser1(c)(|c| - 1) == Ser1(d)(|c| - 1);
    assert Ser1(c)(|d| - 1) == Ser1(d)(|d| - 1);
    forall i: nat | i < |c| ensures c[i] == d[i] { assert Ser1(c)(i) == Ser1(d)(i); }
  }

  /** Quotient and remainder are determined. */
  lemma {:induction false} DivRemUnique(F: Field, a: seq<nat>, b: seq<nat>, q: seq<nat>, r: seq<nat>, q': seq<nat>,
                                        r': seq<nat>)
    requires F.Ok() && DivRem(F, a, b, q, r) && DivRem(F, a, b, q', r')
    ensures q == q' && r == r'
  {
    hide F.Ok, Division, Monic, Ser1, Conv, DegreeAtMost;
    var d := |b| - 1;
    MonicShape(F, b, d);
    SerAtIs(F, q);
    SerAtIs(F, q');
    SerAtIs(F, r);
    SerAtIs(F, r');
    LowerDegree(Ser1(r), |r| - 1, d - 1);
    LowerDegree(Ser1(r'), |r'| - 1, d - 1);
    QuotientUnique(F, Ser1(a), Monic(F, b, d), d, Ser1(q), Ser1(r), Ser1(q'), Ser1(r'), |q| - 1);
    SameCoefs(F, r, r');
    forall i: nat | i < |q| ensures q[i] == q'[i] { assert Ser1(q)(i) == Ser1(q')(i); }
  }

  lemma {:induction false} LowerDegree(a: Ser, d: nat, e: nat)
    requires DegreeAtMost(a, d) && d <= e
    ensures DegreeAtMost(a, e)
  {
  }

  /** What gf_poly_mod leaves: a itself if it has fewer coefficients than b. */
  ghost predicate RemIs(F: Field, a: seq<nat>, b: seq<nat>, r: seq<nat>)
    requires F.Ok()
  {
    if |a| < |b| then r == a else HasRem(F, a, b, r)
  }

  ghost predicate HasRem(F: Field, a: seq<nat>, b: seq<nat>, r: seq<nat>)
    requires F.Ok()
  {
    exists q: seq<nat> :: DivRem(F, a, b, q, r)
  }

  lemma {:induction false} RemUnique(F: Field, a: seq<nat>, b: seq<nat>, r: seq<nat>, r': seq<nat>)
    requires F.Ok() && RemIs(F, a, b, r) && RemIs(F, a, b, r')
    ensures r == r'
  {
    hide F.Ok, DivRem;
    if |a| >= |b| {
      var q: seq<nat> :| DivRem(F, a, b, q, r);
      var q': seq<nat> :| DivRem(F, a, b, q', r');
      DivRemUnique(F, a, b, q, r, q', r');
    }
  }

  // ----- values

  lemma {:induction false} ProductValue(F: Field, a: Ser, m: Ser, d: nat, q: Ser, e: nat, r: Ser, n: nat, x: nat)
    requires F.Ok() && Division(F, a, m, q, r) && DegreeAtMost(m, d) && DegreeAtMost(q, e) && DegreeAtMost(r, n)
             && n <= d + e && F.El(x)
    ensures IsSer(F, a) && IsSer(F, m) && IsSer(F, q) && IsSer(F, r)
    ensures EvalSer(F, a, d + e, x) == Xor(GfMul(F, EvalSer(F, m, d, x), EvalSer(F, q, e, x)), EvalSer(F, r, n, x))
  {
    hide F.Ok, Division, Conv, DegreeAtMost, EvalSer, Prod, GfMul, Xor, Sum;
    DivisionSer(F, a, m, q, r);
    EvalSerProd(F, m, d, q, e, x);
    var p := Prod(F, m, q);
    SumIsSer(F, p, r);
    SumAt(F, p, r);
    forall i: nat ensures a(i) == Sum(p, r)(i) {
      DivisionAt(F, a, m, q, r, i);
      ProdAt(F, m, q, i);
    }
    EvalSerCong(F, a, Sum(p, r), d + e, x);
    EvalSerSum(F, p, r, d + e, x);
    DegreeDef(r, n);
    EvalSerBound(F, r, n, d + e, x);
  }

  lemma {:induction false} TrimmedPoly(F: Field, c: seq<nat>)
    requires Trimmed(F, c)
    ensures IsPoly(F, c) && |c| >= 1 && (|c| > 1 ==> c[|c| - 1] != 0)
  {
  }

  lemma {:induction false} DivDivision(F: Field, a: seq<nat>, b: seq<nat>, q: seq<nat>, r: seq<nat>)
    requires F.Ok() && DivRem(F, a, b, q, r) && |a| >= 1 && |b| > 1 && IsPoly(F, b) && b[|b| - 1] != 0 && |q| >= 1
             && |r| >= 1
    ensures Division(F, Ser1(a), Monic(F, b, |b| - 1), Ser1(q), Ser1(r))
  {
  }

  lemma {:induction false} DivValue(F: Field, a: seq<nat>, b: seq<nat>, q: seq<nat>, r: seq<nat>, x: nat)
    requires F.Ok() && DivRem(F, a, b, q, r) && F.El(x)
    ensures IsPoly(F, a) && IsPoly(F, b) && IsPoly(F, q) && IsPoly(F, r) && |b| > 1 && b[|b| - 1] != 0
    ensures Eval(F, a, x) == Xor(GfMul(F, EvalSer(F, Monic(F, b, |b| - 1), |b| - 1, x), Eval(F, q, x)), Eval(F, r, x))
  {
    hide *;
    DivRemShape(F, a, b, q, r);
    TrimmedPoly(F, a);
    TrimmedPoly(F, b);
    TrimmedPoly(F, r);
    var d := |b| - 1;
    DivDivision(F, a, b, q, r);
    MonicShape(F, b, d);
    SerAtIs(F, a);
    SerAtIs(F, q);
    SerAtIs(F, r);
    ProductValue(F, Ser1(a), Monic(F, b, d), d, Ser1(q), |q| - 1, Ser1(r), |r| - 1, x);
    EvalSerIsEval(F, Ser1(a), a, x);
    EvalSerIsEval(F, Ser1(q), q, x);
    EvalSerIsEval(F, Ser1(r), r, x);
  }

  lemma {:induction false} DivEval(F: Field, a: seq<nat>, b: seq<nat>, q: seq<nat>, r: seq<nat>, x: nat)
    requires F.Ok() && DivRem(F, a, b, q, r) && F.El(x)
    ensures IsPoly(F, a) && IsPoly(F, b) && IsPoly(F, q) && IsPoly(F, r)
    ensures Eval(F, b, x) == 0 ==> Eval(F, a, x) == Eval(F, r, x)
    ensures r == [0] ==> (Eval(F, a, x) == 0 <==> Eval(F, b, x) == 0 || Eval(F, q, x) == 0)
  {
    hide F.Ok, DivRem, Monic, EvalSer, Eval, GfMul, Xor;
    DivValue(F, a, b, q, r, x);
    MonicEval(F, b, x);
    var u, v := EvalSer(F, Monic(F, b, |b| - 1), |b| - 1, x), Eval(F, q, x);
    MulZero(F, u);
    MulZero(F, v);
    XorZero(Eval(F, r, x));
    XorZero(GfMul(F, u, v));
    if r == [0] {
      ConstantValue(F, r, x);
      if u != 0 && v != 0 { MulNonzero(F, u, v); }
    }
  }

  lemma {:induction false} ConstantValue(F: Field, r: seq<nat>, x: nat)
    requires F.Ok() && IsPoly(F, r) && |r| == 1 && F.El(x)
    ensures Eval(F, r, x) == r[0]
  {
    hide F.Ok, GfMul, Xor;
    assert r[1..] == [];
    MulZero(F, x);
    XorZero(r[0]);
  }

  lemma {:induction false} MonicEval(F: Field, b: seq<nat>, x: nat)
    requires F.Ok() && IsPoly(F, b) && |b| > 1 && b[|b| - 1] != 0 && F.El(x)
    ensures EvalSer(F, Monic(F, b, |b| - 1), |b| - 1, x) == 0 <==> Eval(F, b, x) == 0
  {
    hide F.Ok, Monic, EvalSer, Eval, Ser1;
    MonicValue(F, b, |b| - 1, x);
    SerAtIs(F, b);
    EvalSerIsEval(F, SerTo(b, |b| - 1), b, x);
  }

  // ----- Euclid's algorithm

  /** Every polynomial from the third on is the remainder of the two before it; the last is the first constant. */
  ghost predicate IsChain(F: Field, s: seq<seq<nat>>)
    requires F.Ok()
  {
    && |s| >= 2 && (forall i :: 0 <= i < |s| ==> Trimmed(F, s[i])) && |s[0]| >= |s[1]| && |s[|s| - 1]| == 1
    && (forall i :: 0 < i < |s| - 1 ==> |s[i]| > 1)
    && forall i :: 0 <= i < |s| - 2 ==> IsRem(F, s, i)
  }

  ghost predicate IsRem(F: Field, s: seq<seq<nat>>, i: nat)
    requires F.Ok() && i + 2 < |s|
  {
    HasRem(F, s[i], s[i + 1], s[i + 2])
  }

  lemma {:induction false} ChainTail(F: Field, s: seq<seq<nat>>)
    requires F.Ok() && IsChain(F, s) && |s| > 2
    ensures IsChain(F, s[1..]) && IsRem(F, s, 0)
  {
    hide F.Ok, DivRem, Trimmed;
    var t := s[1..];
    forall i | 0 <= i < |t| - 2 ensures IsRem(F, t, i) { assert IsRem(F, s, i + 1); }
    assert IsRem(F, s, 0);
    var q: seq<nat> :| DivRem(F, s[0], s[1], q, s[2]);
    DivRemShape(F, s[0], s[1], q, s[2]);
  }

  lemma {:induction false} DivRemShape(F: Field, a: seq<nat>, b: seq<nat>, q: seq<nat>, r: seq<nat>)
    requires F.Ok() && DivRem(F, a, b, q, r)
    ensures Trimmed(F, a) && Trimmed(F, b) && Trimmed(F, r) && IsPoly(F, q) && 1 < |b| <= |a| && |r| < |b|
            && |q| == |a| - |b| + 1
  {
  }

  /** The chain is determined by its first two polynomials. */
  lemma {:induction false} ChainUnique(F: Field, s: seq<seq<nat>>, t: seq<seq<nat>>)
    requires F.Ok() && IsChain(F, s) && IsChain(F, t) && s[0] == t[0] && s[1] == t[1]
    ensures s == t
    decreases |s|
  {
    hide F.Ok, DivRem, Trimmed;
    if |s| > 2 {
      assert |s[1]| > 1;
      assert |t| > 2;
      ChainTail(F, s);
      ChainTail(F, t);
      var q: seq<nat> :| DivRem(F, s[0], s[1], q, s[2]);
      var q': seq<nat> :| DivRem(F, t[0], t[1], q', t[2]);
      DivRemUnique(F, s[0], s[1], q, s[2], q', t[2]);
      ChainUnique(F, s[1..], t[1..]);
      assert s == [s[0]] + s[1..] && t == [t[0]] + t[1..];
    }
  }

  lemma {:induction false} ChainShape(F: Field, s: seq<seq<nat>>)
    requires F.Ok() && IsChain(F, s)
    ensures |s| >= 2 && Trimmed(F, s[0]) && Trimmed(F, s[1]) && Trimmed(F, s[|s| - 2]) && Trimmed(F, s[|s| - 1])
            && |s[|s| - 1]| == 1
    ensures |s[0]| >= |s[1]| && (|s[1]| > 1 ==> |s| > 2 && 1 < |s[|s| - 2]| <= |s[1]|)
    decreases |s|
  {
    hide F.Ok, DivRem, Trimmed;
    if |s| > 2 {
      ChainTail(F, s);
      ChainShape(F, s[1..]);
    }
  }

  /** All pairs of neighbours have the same common divisors. */
  lemma {:induction false} ChainDivisors(F: Field, s: seq<seq<nat>>)
    requires F.Ok() && IsChain(F, s)
    ensures |s| >= 2 && |s[0]| >= 1 && |s[1]| >= 1 && |s[|s| - 2]| >= 1 && |s[|s| - 1]| >= 1
    ensures SameDivisors(F, Ser1(s[0]), Ser1(s[1]), Ser1(s[|s| - 2]), Ser1(s[|s| - 1]))
    decreases |s|
  {
    hide F.Ok, DivRem, Ser1, SameDivisors;
    ChainShape(F, s);
    SameDivisorsSwap(F, Ser1(s[0]), Ser1(s[1]));
    if |s| > 2 {
      ChainTail(F, s);
      var t := s[1..];
      ChainShape(F, t);
      ChainDivisors(F, t);
      RemDivisors(F, s[0], s[1], s[2]);
      SameDivisorsTrans(F, Ser1(s[0]), Ser1(s[1]), Ser1(s[1]), Ser1(s[2]), Ser1(s[|s| - 2]), Ser1(s[|s| - 1]));
    }
  }

  lemma {:induction false} RemDivisors(F: Field, a: seq<nat>, b: seq<nat>, r: seq<nat>)
    requires F.Ok() && HasRem(F, a, b, r)
    ensures |a| >= 1 && |b| >= 1 && |r| >= 1 && SameDivisors(F, Ser1(a), Ser1(b), Ser1(b), Ser1(r))
  {
    hide F.Ok, Divides, Division, Monic, Ser1;
    var q: seq<nat> :| DivRem(F, a, b, q, r);
    SerAtIs(F, q);
    var x, y, z := Ser1(a), Ser1(b), Ser1(r);
    forall h: Ser ensures (Divides(F, h, x) && Divides(F, h, y)) <==> (Divides(F, h, y) && Divides(F, h, z)) {
      if Divides(F, h, y) { DivisorsOf(F, a, b, q, r, h); }
    }
  }

  lemma {:induction false} DivisorsOf(F: Field, a: seq<nat>, b: seq<nat>, q: seq<nat>, r: seq<nat>, h: Ser)
    requires F.Ok() && DivRem(F, a, b, q, r) && |a| >= 1 && |b| >= 1 && |r| >= 1 && Divides(F, h, Ser1(b))
    ensures Divides(F, h, Ser1(a)) <==> Divides(F, h, Ser1(r))
  {
    hide F.Ok, Divides, Division, Monic, SerTo;
    SerAtIs(F, q);
    RemainderDivisors(F, Ser1(a), b, |b| - 1, Ser1(q), |q| - 1, Ser1(r), h);
  }

  /** The polynomial before the constant is a greatest common divisor of the first two if the constant is 0;
      otherwise the first two have no common divisor. */
  lemma {:induction false} ChainGcd(F: Field, s: seq<seq<nat>>)
    requires F.Ok() && IsChain(F, s)
    ensures |s| >= 2 && |s[0]| >= 1 && |s[1]| >= 1 && |s[|s| - 2]| >= 1 && |s[|s| - 1]| == 1
    ensures s[|s| - 1][0] == 0 ==> IsGcd(F, Ser1(s[0]), Ser1(s[1]), Ser1(s[|s| - 2]))
    ensures s[|s| - 1][0] != 0 ==> Coprime(F, Ser1(s[0]), Ser1(s[1]))
  {
    hide F.Ok, DivRem, SerTo, SameDivisors, IsGcd, Coprime;
    ChainShape(F, s);
    ChainDivisors(F, s);
    var g, b := s[|s| - 2], s[|s| - 1];
    PolyGcd.Finish(F, Ser1(s[0]), Ser1(s[1]), g, |g| - 1, b);
  }

  // ----- what the division method leaves

  lemma {:induction false} SerToPrefix(c: seq<nat>, d: nat, i: nat)
    requires d < |c|
    ensures SerTo(c, d)(i) == Ser1(c[..d + 1])(i)
  {
  }

  lemma {:induction false} ModIsDivRem(F: Field, c: seq<nat>, deg: nat, b: seq<nat>, d: nat, c': seq<nat>, r: nat)
    requires F.Ok() && IsPoly(F, c) && IsPoly(F, c') && |c'| == |c| && 0 < d <= deg < |c| && r < d
             && Trimmed(F, c[..deg + 1])
    requires |b| == d + 1 && IsPoly(F, b) && b[d] != 0 && (r > 0 ==> c'[r] != 0)
    requires Division(F, SerTo(c, deg), Monic(F, b, d), Found(c', d, d - 1, deg), SerTo(c', r))
    ensures DivRem(F, c[..deg + 1], b, c'[d..deg + 1], c'[..r + 1])
  {
    hide F.Ok, Division, Monic, Found, SerTo, Ser1;
    var a, q, s := c[..deg + 1], c'[d..deg + 1], c'[..r + 1];
    SerAtIs(F, a);
    SerAtIs(F, q);
    SerAtIs(F, s);
    FoundAt(F, c', d, d - 1, deg);
    forall i: nat
      ensures SerTo(c, deg)(i) == Ser1(a)(i) && Found(c', d, d - 1, deg)(i) == Ser1(q)(i)
              && SerTo(c', r)(i) == Ser1(s)(i)
    {
      SerToPrefix(c, deg, i);
      SerToPrefix(c', r, i);
    }
    DivisionSer(F, SerTo(c, deg), Monic(F, b, d), Found(c', d, d - 1, deg), SerTo(c', r));
    DivisionCong(F, SerTo(c, deg), Monic(F, b, d), Found(c', d, d - 1, deg), SerTo(c', r), Ser1(a), Ser1(q), Ser1(s));
  }

  /** gf_poly_mod on a polynomial without leading zeros: the remainder, and the quotient above it. */
  method ReduceBy(F: Field, c: array<nat>, deg: nat, b: seq<nat>) returns (r: nat)
    requires F.Ok() && IsPoly(F, c[..]) && deg < c.Length && Trimmed(F, c[..deg + 1]) && Trimmed(F, b) && |b| > 1
    modifies c
    ensures IsPoly(F, c[..]) && r < c.Length && r <= deg && Trimmed(F, c[..r + 1]) && (deg + 1 >= |b| ==> r + 1 < |b|)
    ensures RemIs(F, old(c[..deg + 1]), b, c[..r + 1])
    ensures deg + 1 >= |b| ==> DivRem(F, old(c[..deg + 1]), b, c[|b| - 1..deg + 1], c[..r + 1])
    ensures forall n :: deg < n < c.Length ==> c[n] == old(c[n])
  {
    hide F.Ok, DivRem, Division, SerTo, Monic, Found;
    ghost var was := c[..];
    assert was[..deg + 1] == c[..deg + 1];
    var d := |b| - 1;
    r := PolyMod(F, c, deg, b, d);
    assert c[..][..r + 1] == c[..r + 1];
    if deg >= d {
      assert c[..][d..deg + 1] == c[d..deg + 1];
      ModIsDivRem(F, was, deg, b, d, c[..], r);
    }
  }

  /** A chain that has not ended yet. */
  ghost predicate IsSteps(F: Field, s: seq<seq<nat>>)
    requires F.Ok()
  {
    && |s| >= 2 && (forall i :: 0 <= i < |s| ==> Trimmed(F, s[i])) && |s[0]| >= |s[1]|
    && (forall i :: 0 < i < |s| - 1 ==> |s[i]| > 1)
    && forall i :: 0 <= i < |s| - 2 ==> IsRem(F, s, i)
  }

  lemma {:induction false} FirstSteps(F: Field, a: seq<nat>, b: seq<nat>)
    requires F.Ok() && Trimmed(F, a) && Trimmed(F, b) && |a| >= |b|
    ensures IsSteps(F, [a, b])
  {
    hide Trimmed;
  }

  lemma {:induction false} MoreSteps(F: Field, s: seq<seq<nat>>, r: seq<nat>)
    requires F.Ok() && IsSteps(F, s) && |s[|s| - 1]| > 1 && Trimmed(F, r) && HasRem(F, s[|s| - 2], s[|s| - 1], r)
    ensures IsSteps(F, s + [r])
  {
    hide Trimmed, HasRem, F.Ok;
    var t := s + [r];
    forall i | 0 <= i < |t| - 2 ensures IsRem(F, t, i) {
      if i < |s| - 2 { assert IsRem(F, s, i); }
    }
  }

  /** gf_poly_gcd: g is what the loop returns, the chain has all the polynomials it has passed. */
  method Gcd(F: Field, a0: array<nat>, adeg0: nat, b0: array<nat>, bdeg0: nat)
    returns (g: array<nat>, gdeg: nat, ghost chain: seq<seq<nat>>)
    requires F.Ok() && a0 != b0 && IsPoly(F, a0[..]) && IsPoly(F, b0[..]) && adeg0 < a0.Length && bdeg0 < b0.Length
    requires Trimmed(F, a0[..adeg0 + 1]) && Trimmed(F, b0[..bdeg0 + 1])
    modifies a0, b0
    ensures g in {a0, b0} && gdeg < g.Length && IsPoly(F, g[..])
    ensures IsChain(F, chain) && g[..gdeg + 1] == chain[|chain| - 2]
    ensures var x, y := old(a0[..adeg0 + 1]), old(b0[..bdeg0 + 1]); chain[..2] == if |x| < |y| then [y, x] else [x, y]
  {
    hide F.Ok, DivRem, Trimmed, IsRem;
    var a: array<nat>, adeg: nat, b: array<nat>, bdeg: nat := a0, adeg0, b0, bdeg0;
    if adeg < bdeg {
      a, adeg, b, bdeg := b0, bdeg0, a0, adeg0;
    }
    chain := [a[..adeg + 1], b[..bdeg + 1]];
    FirstSteps(F, chain[0], chain[1]);
    ghost var start := chain;
    while bdeg > 0
      invariant {a, b} == {a0, b0} && a != b && bdeg <= adeg < a.Length && bdeg < b.Length
      invariant IsPoly(F, a[..]) && IsPoly(F, b[..]) && Trimmed(F, a[..adeg + 1]) && Trimmed(F, b[..bdeg + 1])
      invariant IsSteps(F, chain) && chain[..2] == start
      invariant chain[|chain| - 2] == a[..adeg + 1] && chain[|chain| - 1] == b[..bdeg + 1]
      decreases bdeg
    {
      ghost var bs := b[..bdeg + 1];
      var r := ReduceBy(F, a, adeg, b[..bdeg + 1]);
      assert b[..bdeg + 1] == bs;
      MoreSteps(F, chain, a[..r + 1]);
      chain := chain + [a[..r + 1]];
      a, adeg, b, bdeg := b, bdeg, a, r;
    }
    g, gdeg := a, adeg;
  }

  /** gf_poly_div of a polynomial by a shorter one. */
  method DivideBy(F: Field, a: seq<nat>, b: seq<nat>) returns (q: seq<nat>, ghost r: seq<nat>)
    requires F.Ok() && Trimmed(F, a) && Trimmed(F, b) && 1 < |b| <= |a|
    ensures DivRem(F, a, b, q, r)
  {
    hide F.Ok, Division, Monic, SerTo;
    var deg, d := |a| - 1, |b| - 1;
    var x, y := new nat[|a|](i requires 0 <= i < |a| => a[i]), new nat[|a|](_ => 0);
    assert x[..] == a;
    var qdeg, n := PolyDiv(F, x, deg, b, d, y);
    q, r := y[..qdeg + 1], x[..n + 1];
    DivIsDivRem(F, a, b, q, x[..], n);
  }

  lemma {:induction false} DivIsDivRem(F: Field, a: seq<nat>, b: seq<nat>, q: seq<nat>, x: seq<nat>, n: nat)
    requires F.Ok() && Trimmed(F, a) && Trimmed(F, b) && 1 < |b| <= |a| && IsPoly(F, q) && |q| == |a| - |b| + 1
    requires IsPoly(F, x) && n < |x| && n + 1 < |b| && (n > 0 ==> x[n] != 0)
    requires Division(F, SerTo(a, |a| - 1), Monic(F, b, |b| - 1), SerTo(q, |q| - 1), SerTo(x, n))
    ensures DivRem(F, a, b, q, x[..n + 1])
  {
    hide F.Ok, Division, Monic, SerTo;
    var s := x[..n + 1];
    SerAtIs(F, a);
    SerAtIs(F, q);
    SerAtIs(F, s);
    forall i: nat ensures SerTo(x, n)(i) == Ser1(s)(i) { SerToPrefix(x, n, i); }
    DivisionSer(F, SerTo(a, |a| - 1), Monic(F, b, |b| - 1), SerTo(q, |q| - 1), SerTo(x, n));
    DivisionCong(F, SerTo(a, |a| - 1), Monic(F, b, |b| - 1), SerTo(q, |q| - 1), SerTo(x, n), Ser1(a), Ser1(q), Ser1(s));
  }
}
