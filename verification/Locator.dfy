/** The error locator polynomial of a set of error positions, and the proof that it is the only short
    solution of the identities its syndromes satisfy. */
module Locator {
  import opened Gf2
  import opened GaloisField
  import opened FieldLaws
  import opened FieldPoly
  import opened PowerSeries
  import opened Newton

  // ----- values of polynomials given as series

  ghost function EvalSer(F: Field, a: Ser, d: nat, x: nat): (v: nat)
    requires F.Ok() && IsSer(F, a) && F.El(x)
    ensures F.El(v)
  {
    if d == 0 then a(0)
    else
      TailIsSer(F, a);
      XorBound(a(0), GfMul(F, x, EvalSer(F, Tail(a), d - 1, x)), F.m);
      Xor(a(0), GfMul(F, x, EvalSer(F, Tail(a), d - 1, x)))
  }

  lemma {:induction false} EvalSerStep(F: Field, a: Ser, d: nat, x: nat)
    requires F.Ok() && IsSer(F, a) && F.El(x)
    ensures IsSer(F, Tail(a))
    ensures d == 0 ==> EvalSer(F, a, d, x) == a(0)
    ensures d > 0 ==> EvalSer(F, a, d, x) == Xor(a(0), GfMul(F, x, EvalSer(F, Tail(a), d - 1, x)))
  {
    TailIsSer(F, a);
  }

  lemma {:induction false} EvalSerCong(F: Field, a: Ser, b: Ser, d: nat, x: nat)
    requires F.Ok() && IsSer(F, a) && IsSer(F, b) && F.El(x)
    requires forall i: nat :: i <= d ==> a(i) == b(i)
    ensures EvalSer(F, a, d, x) == EvalSer(F, b, d, x)
  {
    hide *;
    EvalSerStep(F, a, d, x);
    EvalSerStep(F, b, d, x);
    if d > 0 {
      forall i: nat | i <= d - 1 ensures Tail(a)(i) == Tail(b)(i) { TailAt(a, i); TailAt(b, i); }
      EvalSerCong(F, Tail(a), Tail(b), d - 1, x);
    }
  }

  lemma {:induction false} EvalSerSum(F: Field, a: Ser, b: Ser, d: nat, x: nat)
    requires F.Ok() && IsSer(F, a) && IsSer(F, b) && F.El(x)
    ensures IsSer(F, Sum(a, b))
    ensures EvalSer(F, Sum(a, b), d, x) == Xor(EvalSer(F, a, d, x), EvalSer(F, b, d, x))
  {
    hide *;
    SumIsSer(F, a, b);
    SumAt(F, a, b);
    EvalSerStep(F, a, d, x);
    EvalSerStep(F, b, d, x);
    EvalSerStep(F, Sum(a, b), d, x);
    if d > 0 {
      EvalSerCong(F, Tail(Sum(a, b)), Sum(Tail(a), Tail(b)), d - 1, x);
      EvalSerSum(F, Tail(a), Tail(b), d - 1, x);
      var u, v := EvalSer(F, Tail(a), d - 1, x), EvalSer(F, Tail(b), d - 1, x);
      MulDistrib(F, x, u, v);
      XorSwap4(a(0), b(0), GfMul(F, x, u), GfMul(F, x, v));
    }
  }

  lemma {:induction false} EvalSerTimes(F: Field, k: nat, a: Ser, d: nat, x: nat)
    requires F.Ok() && IsSer(F, a) && F.El(x) && F.El(k)
    ensures EvalSer(F, Times(F, k, a), d, x) == GfMul(F, k, EvalSer(F, a, d, x))
  {
    hide *;
    TimesAt(F, k, a);
    SerAt(F, a, 0);
    EvalSerStep(F, a, d, x);
    EvalSerStep(F, Times(F, k, a), d, x);
    if d > 0 {
      EvalSerCong(F, Tail(Times(F, k, a)), Times(F, k, Tail(a)), d - 1, x);
      EvalSerTimes(F, k, Tail(a), d - 1, x);
      var v := EvalSer(F, Tail(a), d - 1, x);
      MulDistrib(F, k, a(0), GfMul(F, x, v));
      MulAssoc(F, k, x, v);
      MulComm(F, k, x);
      MulAssoc(F, x, k, v);
    }
  }

  lemma {:induction false} EvalSerZero(F: Field, a: Ser, d: nat, x: nat)
    requires F.Ok() && IsSer(F, a) && F.El(x)
    requires forall i: nat :: i <= d ==> a(i) == 0
    ensures EvalSer(F, a, d, x) == 0
  {
    hide *;
    EvalSerStep(F, a, d, x);
    if d > 0 {
      forall i: nat | i <= d - 1 ensures Tail(a)(i) == 0 { TailAt(a, i); }
      EvalSerZero(F, Tail(a), d - 1, x);
      MulZero(F, x);
      XorZero(0);
    }
  }

  /** Raising the degree bound does not change the value. */
  lemma {:induction false} EvalSerBound(F: Field, a: Ser, d: nat, e: nat, x: nat)
    requires F.Ok() && IsSer(F, a) && F.El(x) && d <= e
    requires forall i: nat :: i > d ==> a(i) == 0
    ensures EvalSer(F, a, e, x) == EvalSer(F, a, d, x)
  {
    hide *;
    EvalSerStep(F, a, d, x);
    EvalSerStep(F, a, e, x);
    if e > 0 {
      if d == 0 {
        forall i: nat | i <= e - 1 ensures Tail(a)(i) == 0 { TailAt(a, i); }
        EvalSerZero(F, Tail(a), e - 1, x);
        MulZero(F, x);
        XorZero(a(0));
      } else {
        forall i: nat | i > d - 1 ensures Tail(a)(i) == 0 { TailAt(a, i); }
        EvalSerBound(F, Tail(a), d - 1, e - 1, x);
      }
    }
  }

  /** Evaluation turns products into products. */
  lemma {:induction false} EvalSerProd(F: Field, a: Ser, d: nat, b: Ser, e: nat, x: nat)
    requires F.Ok() && IsSer(F, a) && IsSer(F, b) && F.El(x) && DegreeAtMost(a, d) && DegreeAtMost(b, e)
    ensures EvalSer(F, Prod(F, a, b), d + e, x) == GfMul(F, EvalSer(F, a, d, x), EvalSer(F, b, e, x))
  {
    hide *;
    var p := Prod(F, a, b);
    SerAt(F, a, 0);
    SerAt(F, b, 0);
    TailIsSer(F, a);
    EvalSerStep(F, a, d, x);
    DegreeDef(b, e);
    if d == 0 {
      forall i: nat | i <= e ensures p(i) == Times(F, a(0), b)(i) { ConstantProduct(F, a, b, i); }
      EvalSerCong(F, p, Times(F, a(0), b), e, x);
      EvalSerTimes(F, a(0), b, e, x);
    } else {
      TailDegree(a, d);
      EvalSerProd(F, Tail(a), d - 1, b, e, x);
      EvalSerStep(F, p, d + e, x);
      ProdTail(F, a, b);
      var q, r := Times(F, a(0), Tail(b)), Prod(F, Tail(a), b);
      EvalSerCong(F, Tail(p), Sum(q, r), d + e - 1, x);
      EvalSerSum(F, q, r, d + e - 1, x);
      EvalSerTimes(F, a(0), Tail(b), d + e - 1, x);
      EvalSerStep(F, b, d + e, x);
      EvalSerBound(F, b, e, d + e, x);
      ProductAlgebra(F, a(0), b(0), x, EvalSer(F, Tail(b), d + e - 1, x), EvalSer(F, Tail(a), d - 1, x),
        EvalSer(F, b, e, x));
    }
  }

  lemma {:induction false} DegreeDef(a: Ser, d: nat)
    requires DegreeAtMost(a, d)
    ensures forall i: nat :: i > d ==> a(i) == 0
  {
  }

  lemma {:induction false} TailDegree(a: Ser, d: nat)
    requires DegreeAtMost(a, d) && d > 0
    ensures DegreeAtMost(Tail(a), d - 1)
  {
    forall i: nat | i > d - 1 ensures Tail(a)(i) == 0 { assert a(i + 1) == 0; }
  }

  lemma {:induction false} ConstantProduct(F: Field, a: Ser, b: Ser, i: nat)
    requires F.Ok() && IsSer(F, a) && IsSer(F, b) && DegreeAtMost(a, 0)
    ensures F.El(a(0)) && Prod(F, a, b)(i) == Times(F, a(0), b)(i)
  {
    hide Xor, GfMul, F.Ok, Conv;
    ConvStep(F, a, b, i);
    if i > 0 {
      forall k: nat | k <= i - 1 ensures Tail(a)(k) == 0 { assert a(k + 1) == 0; }
      ConvZero(F, Tail(a), b, i - 1);
      XorZero(GfMul(F, a(0), b(i)));
    }
  }

  lemma {:induction false} ProductAlgebra(F: Field, a0: nat, b0: nat, x: nat, tb: nat, ta: nat, eb: nat)
    requires F.Ok() && F.El(a0) && F.El(b0) && F.El(x) && F.El(tb) && F.El(ta) && F.El(eb)
    requires eb == Xor(b0, GfMul(F, x, tb))
    ensures F.El(Xor(GfMul(F, a0, tb), GfMul(F, ta, eb))) && F.El(Xor(a0, GfMul(F, x, ta)))
    ensures Xor(GfMul(F, a0, b0), GfMul(F, x, Xor(GfMul(F, a0, tb), GfMul(F, ta, eb))))
         == GfMul(F, Xor(a0, GfMul(F, x, ta)), eb)
  {
    hide Xor, GfMul, F.Ok;
    MulDistrib(F, x, GfMul(F, a0, tb), GfMul(F, ta, eb));
    MulDistribLeft(F, a0, GfMul(F, x, ta), eb);
    MulAssoc(F, x, ta, eb);
    MulDistrib(F, a0, b0, GfMul(F, x, tb));
    MulAssoc(F, a0, x, tb);
    MulComm(F, a0, x);
    MulAssoc(F, x, a0, tb);
    XorAssoc(GfMul(F, a0, b0), GfMul(F, x, GfMul(F, a0, tb)), GfMul(F, x, GfMul(F, ta, eb)));
  }

  // ----- the locator polynomial

  /** x X a(X). */
  ghost function XTimes(F: Field, x: nat, a: Ser): (b: Ser)
    requires F.Ok() && F.El(x) && IsSer(F, a)
    ensures IsSer(F, b)
  {
    FieldShape(F);
    (i: nat) => if i == 0 then 0 else GfMul(F, x, a(i - 1))
  }

  /** (1 + x X) a(X). */
  ghost function MulLin(F: Field, x: nat, a: Ser): (b: Ser)
    requires F.Ok() && F.El(x) && IsSer(F, a)
    ensures IsSer(F, b)
  {
    SumIsSer(F, a, XTimes(F, x, a));
    Sum(a, XTimes(F, x, a))
  }

  ghost function One(F: Field): (a: Ser)
    requires F.Ok()
    ensures IsSer(F, a)
  {
    FieldShape(F);
    (i: nat) => if i == 0 then 1 else 0
  }

  /** The locator of errors at positions ps: the product of 1 + a^p X. */
  ghost function LocSer(F: Field, ps: seq<nat>): (a: Ser)
    requires F.Ok()
    ensures IsSer(F, a)
  {
    if ps == [] then One(F)
    else MulLin(F, A(F, ps[|ps| - 1]), LocSer(F, ps[..|ps| - 1]))
  }

  /** The n-th syndrome of errors at positions ps. */
  ghost function PowerSum(F: Field, ps: seq<nat>, n: nat): (s: nat)
    requires F.Ok()
    ensures F.El(s)
  {
    FieldShape(F);
    if ps == [] then 0
    else
      var k := |ps| - 1;
      XorBound(PowerSum(F, ps[..k], n), A(F, ps[k] * n), F.m);
      Xor(PowerSum(F, ps[..k], n), A(F, ps[k] * n))
  }

  ghost function PowerSer(F: Field, ps: seq<nat>): (u: Ser)
    requires F.Ok()
    ensures IsSer(F, u)
  {
    FieldShape(F);
    (n: nat) => if n == 0 then 1 else PowerSum(F, ps, n)
  }

  /** The series of the powers of a^p, without constant term. */
  ghost function Geometric(F: Field, p: nat): (u: Ser)
    requires F.Ok()
    ensures IsSer(F, u)
  {
    FieldShape(F);
    (n: nat) => if n == 0 then 0 else A(F, p * n)
  }

  lemma {:induction false} XTimesAt(F: Field, x: nat, a: Ser, n: nat)
    requires F.Ok() && F.El(x) && IsSer(F, a)
    ensures n == 0 ==> XTimes(F, x, a)(n) == 0
    ensures n > 0 ==> F.El(a(n - 1)) && XTimes(F, x, a)(n) == GfMul(F, x, a(n - 1))
  {
    hide Xor, GfMul, F.Ok, Pow2;
  }

  lemma {:induction false} MulLinDef(F: Field, x: nat, a: Ser)
    requires F.Ok() && F.El(x) && IsSer(F, a)
    ensures MulLin(F, x, a) == Sum(a, XTimes(F, x, a))
  {
  }

  lemma {:induction false} MulLinAt(F: Field, x: nat, a: Ser, n: nat)
    requires F.Ok() && F.El(x) && IsSer(F, a)
    ensures n > 0 ==> F.El(a(n - 1)) && Xor(a(n), GfMul(F, x, a(n - 1))) == MulLin(F, x, a)(n)
    ensures n == 0 ==> a(0) == MulLin(F, x, a)(n)
  {
    hide *;
    MulLinDef(F, x, a);
    SumAt(F, a, XTimes(F, x, a));
    XTimesAt(F, x, a, n);
    XorZero(a(0));
  }

  /** A linear factor may be taken out of a product. */
  lemma {:induction false} MulLinProd(F: Field, x: nat, u: Ser, a: Ser, n: nat)
    requires F.Ok() && F.El(x) && IsSer(F, a) && IsSer(F, u)
    ensures Conv(F, u, MulLin(F, x, a), n) == MulLin(F, x, Prod(F, u, a))(n)
  {
    hide Xor, GfMul, F.Ok, Conv, Prod, Sum, XTimes;
    ConvAddRight(F, u, a, XTimes(F, x, a), n);
    XTimesProd(F, x, u, a, n);
    ProdAt(F, u, a, n);
    SumAt(F, Prod(F, u, a), XTimes(F, x, Prod(F, u, a)));
  }

  lemma {:induction false} XTimesProd(F: Field, x: nat, u: Ser, a: Ser, n: nat)
    requires F.Ok() && F.El(x) && IsSer(F, a) && IsSer(F, u)
    ensures Conv(F, u, XTimes(F, x, a), n) == XTimes(F, x, Prod(F, u, a))(n)
  {
    hide Xor, GfMul, F.Ok, Conv;
    var b := XTimes(F, x, a);
    if n == 0 {
      ConvStep(F, u, b, 0);
      MulZero(F, u(0));
    } else {
      ConvRight(F, u, b, n);
      MulZero(F, u(n));
      XorZero(Conv(F, u, Tail(b), n - 1));
      forall i: nat | i <= n - 1 ensures u(i) == u(i) && Tail(b)(i) == Times(F, x, a)(i) { }
      ConvCong(F, u, u, Tail(b), Times(F, x, a), n - 1);
      ConvComm(F, u, Times(F, x, a), n - 1);
      ConvTimesLeft(F, x, a, u, n - 1);
      ConvComm(F, u, a, n - 1);
    }
  }

  lemma {:induction false} GeometricAt(F: Field, p: nat, n: nat)
    requires F.Ok()
    ensures Geometric(F, p)(n) == if n == 0 then 0 else A(F, p * n)
  {
    hide A, F.Ok, Pow2;
  }

  /** (1 + a^p X) times the powers of a^p is a^p X. */
  lemma {:induction false} GeometricClosed(F: Field, p: nat, n: nat)
    requires F.Ok()
    ensures MulLin(F, A(F, p), Geometric(F, p))(n) == if n == 1 then A(F, p) else 0
  {
    hide *;
    var x, g := A(F, p), Geometric(F, p);
    MulLinAt(F, x, g, n);
    GeometricAt(F, p, n);
    if n == 1 {
      GeometricAt(F, p, 0);
      assert p * 1 == p;
      MulZero(F, x);
      XorZero(x);
    } else if n > 1 {
      GeometricAt(F, p, n - 1);
      MulPowers(F, p, p * (n - 1));
      assert p + p * (n - 1) == p * n;
      XorSelf(A(F, p * n));
    }
  }

  lemma {:induction false} PowerSerAt(F: Field, ps: seq<nat>, n: nat)
    requires F.Ok()
    ensures PowerSer(F, ps)(n) == if n == 0 then 1 else PowerSum(F, ps, n)
  {
    hide PowerSum, F.Ok, Pow2;
  }

  lemma {:induction false} PowerSumStep(F: Field, ps: seq<nat>, n: nat)
    requires F.Ok() && ps != []
    ensures var k := |ps| - 1; PowerSum(F, ps, n) == Xor(PowerSum(F, ps[..k], n), A(F, ps[k] * n))
  {
    hide A, F.Ok, Pow2, Xor;
  }

  lemma {:induction false} PowerSerStep(F: Field, ps: seq<nat>, n: nat)
    requires F.Ok() && ps != []
    ensures PowerSer(F, ps)(n) == Xor(PowerSer(F, ps[..|ps| - 1])(n), Geometric(F, ps[|ps| - 1])(n))
  {
    hide *;
    var k := |ps| - 1;
    PowerSerAt(F, ps, n);
    PowerSerAt(F, ps[..k], n);
    GeometricAt(F, ps[k], n);
    PowerSumStep(F, ps, n);
    XorZero(1);
  }

  lemma {:induction false} LocSerStep(F: Field, ps: seq<nat>)
    requires F.Ok() && ps != []
    ensures LocSer(F, ps) == MulLin(F, A(F, ps[|ps| - 1]), LocSer(F, ps[..|ps| - 1]))
  {
  }

  /** The product of the syndrome series and the locator is the even part of the locator. */
  lemma {:induction false} LocatorIdentity(F: Field, ps: seq<nat>, n: nat)
    requires F.Ok()
    ensures Conv(F, PowerSer(F, ps), LocSer(F, ps), n) == if n % 2 == 0 then LocSer(F, ps)(n) else 0
    decreases |ps|
  {
    hide *;
    if ps == [] {
      LocatorIdentityNone(F, n);
    } else {
      var k := |ps| - 1;
      var p, q := ps[k], ps[..k];
      forall i: nat | i <= n
        ensures Conv(F, PowerSer(F, q), LocSer(F, q), i) == if i % 2 == 0 then LocSer(F, q)(i) else 0
      {
        LocatorIdentity(F, q, i);
      }
      LocSerStep(F, ps);
      LocatorStep(F, PowerSer(F, q), LocSer(F, q), p, n);
      SumAt(F, PowerSer(F, q), Geometric(F, p));
      forall i: nat | i <= n
        ensures PowerSer(F, ps)(i) == Sum(PowerSer(F, q), Geometric(F, p))(i) && LocSer(F, ps)(i) == LocSer(F, ps)(i)
      {
        PowerSerStep(F, ps, i);
      }
      ConvCong(F, PowerSer(F, ps), Sum(PowerSer(F, q), Geometric(F, p)), LocSer(F, ps), LocSer(F, ps), n);
    }
  }

  lemma {:induction false} LocatorIdentityNone(F: Field, n: nat)
    requires F.Ok()
    ensures Conv(F, PowerSer(F, []), LocSer(F, []), n) == if n % 2 == 0 then LocSer(F, [])(n) else 0
  {
    hide Xor, GfMul, F.Ok, A, Conv;
    var u, a := PowerSer(F, []), LocSer(F, []);
    FieldShape(F);
    if n == 0 {
      ConvStep(F, u, a, 0);
      MulOne(F, 1);
    } else {
      ConvRight(F, u, a, n);
      forall i: nat | i <= n - 1 ensures Tail(a)(i) == 0 { }
      TailIsSer(F, a);
      ConvZero(F, Tail(a), u, n - 1);
      MulZero(F, a(0));
      XorZero(0);
    }
  }

  lemma {:induction false} LocatorStep(F: Field, u: Ser, a: Ser, p: nat, n: nat)
    requires F.Ok() && IsSer(F, u) && IsSer(F, a)
    requires forall i: nat :: i <= n ==> Conv(F, u, a, i) == if i % 2 == 0 then a(i) else 0
    ensures var x := A(F, p); var b := MulLin(F, x, a);
            IsSer(F, Sum(u, Geometric(F, p)))
            && Conv(F, Sum(u, Geometric(F, p)), b, n) == if n % 2 == 0 then b(n) else 0
  {
    hide Xor, GfMul, F.Ok, A, Conv, MulLin, Sum, Prod;
    var x, g := A(F, p), Geometric(F, p);
    var b := MulLin(F, x, a);
    ConvAddLeft(F, u, g, b, n);
    MulLinProd(F, x, u, a, n);
    MulLinAt(F, x, Prod(F, u, a), n);
    ProdAt(F, u, a, n);
    MulLinAt(F, x, a, n);
    GeometricTimes(F, p, a, n);
    MulZero(F, x);
    if n == 0 {
      XorZero(a(0));
    } else {
      ProdAt(F, u, a, n - 1);
      SerAt(F, a, n - 1);
      var y := GfMul(F, x, a(n - 1));
      XorZero(a(n));
      XorZero(y);
      XorZero(0);
      XorSelf(y);
      XorAssoc(a(n), 0, y);
    }
  }

  /** (1 + a^p X) a(X) times the powers of a^p is a^p X a(X). */
  lemma {:induction false} GeometricTimes(F: Field, p: nat, a: Ser, n: nat)
    requires F.Ok() && IsSer(F, a)
    ensures n == 0 ==> Conv(F, Geometric(F, p), MulLin(F, A(F, p), a), n) == 0
    ensures n > 0 ==> F.El(a(n - 1))
                      && Conv(F, Geometric(F, p), MulLin(F, A(F, p), a), n) == GfMul(F, A(F, p), a(n - 1))
  {
    hide Xor, GfMul, F.Ok, A, Conv, MulLin, Prod, Geometric;
    var x, g := A(F, p), Geometric(F, p);
    MulLinProd(F, x, g, a, n);
    forall i: nat | i <= n ensures Prod(F, g, a)(i) == Prod(F, a, g)(i) {
      ProdAt(F, g, a, i);
      ProdAt(F, a, g, i);
      ConvComm(F, g, a, i);
    }
    MulLinCong(F, x, Prod(F, g, a), Prod(F, a, g), n);
    MulLinProd(F, x, a, g, n);
    var h := MulLin(F, x, g);
    forall i: nat ensures h(i) == if i == 1 then x else 0 { GeometricClosed(F, p, i); }
    ConvMonomial(F, a, h, x, n);
  }

  lemma {:induction false} MulLinCong(F: Field, x: nat, a: Ser, b: Ser, n: nat)
    requires F.Ok() && F.El(x) && IsSer(F, a) && IsSer(F, b)
    requires forall i: nat :: i <= n ==> a(i) == b(i)
    ensures MulLin(F, x, a)(n) == MulLin(F, x, b)(n)
  {
    hide Xor, GfMul, F.Ok, MulLin;
    MulLinAt(F, x, a, n);
    MulLinAt(F, x, b, n);
  }

  lemma {:induction false} ConvMonomial(F: Field, a: Ser, h: Ser, x: nat, n: nat)
    requires F.Ok() && IsSer(F, a) && IsSer(F, h) && F.El(x)
    requires forall i: nat :: h(i) == if i == 1 then x else 0
    ensures n == 0 ==> Conv(F, a, h, n) == 0
    ensures n > 0 ==> F.El(a(n - 1)) && Conv(F, a, h, n) == GfMul(F, x, a(n - 1))
  {
    hide *;
    SerAt(F, a, n);
    MulZero(F, a(n));
    if n == 0 {
      ConvStep(F, a, h, 0);
    } else {
      ConvRight(F, a, h, n);
      var th := Tail(h);
      TailIsSer(F, h);
      XorZero(Conv(F, a, th, n - 1));
      ConvComm(F, a, th, n - 1);
      forall i: nat | i > 0 ensures th(i) == 0 { TailAt(h, i); }
      TailAt(h, 0);
      DegreeIntro(th, 0);
      ConstantProduct(F, th, a, n - 1);
      ProdAt(F, th, a, n - 1);
      TimesCoef(F, x, a, n - 1);
    }
  }

  lemma {:induction false} DegreeIntro(a: Ser, d: nat)
    requires forall i: nat :: i > d ==> a(i) == 0
    ensures DegreeAtMost(a, d)
  {
  }
}
