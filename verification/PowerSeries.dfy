/** Formal power series over GF(2^m), given by their coefficients, with their product. */
module PowerSeries {
  import opened Gf2
  import opened GaloisField
  import opened FieldLaws

  type Ser = nat -> nat

  ghost predicate IsSer(F: Field, a: Ser) {
    forall i: nat :: F.El(a(i))
  }

  /** The series without its constant term, divided by X. */
  ghost function Tail(a: Ser): Ser {
    (i: nat) => a(i + 1)
  }

  ghost function Sum(a: Ser, b: Ser): Ser {
    (i: nat) => Xor(a(i), b(i))
  }

  lemma {:induction false} SumIsSer(F: Field, a: Ser, b: Ser)
    requires IsSer(F, a) && IsSer(F, b)
    ensures IsSer(F, Sum(a, b))
  {
    hide Xor, Pow2, F.Ok;
    forall i: nat ensures F.El(Sum(a, b)(i)) { SumCoefBound(F, a, b, i); }
  }

  lemma {:induction false} SumCoefBound(F: Field, a: Ser, b: Ser, i: nat)
    requires IsSer(F, a) && IsSer(F, b)
    ensures F.El(Sum(a, b)(i))
  {
    hide Xor, Pow2, F.Ok;
    XorBound(a(i), b(i), F.m);
  }

  lemma {:induction false} SumAt(F: Field, a: Ser, b: Ser)
    requires IsSer(F, a) && IsSer(F, b)
    ensures IsSer(F, Tail(a)) && IsSer(F, Tail(b)) && IsSer(F, Sum(Tail(a), Tail(b))) && IsSer(F, Tail(Sum(a, b)))
    ensures forall i: nat :: Sum(a, b)(i) == Xor(a(i), b(i))
    ensures forall i: nat :: Tail(Sum(a, b))(i) == Sum(Tail(a), Tail(b))(i)
  {
    hide Xor;
    SumIsSer(F, a, b);
    SumIsSer(F, Tail(a), Tail(b));
  }

  ghost function Times(F: Field, k: nat, a: Ser): Ser
    requires F.Ok() && F.El(k) && IsSer(F, a)
    ensures IsSer(F, Times(F, k, a))
  {
    (i: nat) => GfMul(F, k, a(i))
  }

  lemma {:induction false} SerAt(F: Field, a: Ser, i: nat)
    requires IsSer(F, a)
    ensures F.El(a(i))
  {
  }

  lemma {:induction false} TimesAt(F: Field, k: nat, a: Ser)
    requires F.Ok() && F.El(k) && IsSer(F, a)
    ensures IsSer(F, Tail(a)) && IsSer(F, Tail(Times(F, k, a)))
    ensures Times(F, k, a)(0) == GfMul(F, k, a(0))
    ensures forall i: nat :: Tail(Times(F, k, a))(i) == Times(F, k, Tail(a))(i)
  {
    hide GfMul, F.Ok;
  }

  /** Coefficient n of the product. */
  ghost function Conv(F: Field, a: Ser, b: Ser, n: nat): (c: nat)
    requires F.Ok() && IsSer(F, a) && IsSer(F, b)
    ensures F.El(c)
  {
    if n == 0 then GfMul(F, a(0), b(0))
    else
      XorBound(GfMul(F, a(0), b(n)), Conv(F, Tail(a), b, n - 1), F.m);
      Xor(GfMul(F, a(0), b(n)), Conv(F, Tail(a), b, n - 1))
  }

  ghost function Prod(F: Field, a: Ser, b: Ser): (p: Ser)
    requires F.Ok() && IsSer(F, a) && IsSer(F, b)
    ensures IsSer(F, p)
  {
    (n: nat) => Conv(F, a, b, n)
  }

  lemma {:induction false} ConvStep(F: Field, a: Ser, b: Ser, n: nat)
    requires F.Ok() && IsSer(F, a) && IsSer(F, b)
    ensures IsSer(F, Tail(a))
    ensures n == 0 ==> Conv(F, a, b, n) == GfMul(F, a(0), b(0))
    ensures n > 0 ==> Conv(F, a, b, n) == Xor(GfMul(F, a(0), b(n)), Conv(F, Tail(a), b, n - 1))
  {
  }

  /** Coefficient n depends on the coefficients up to n only. */
  lemma {:induction false} ConvCong(F: Field, a: Ser, a': Ser, b: Ser, b': Ser, n: nat)
    requires F.Ok() && IsSer(F, a) && IsSer(F, b) && IsSer(F, a') && IsSer(F, b')
    requires forall i: nat :: i <= n ==> a(i) == a'(i) && b(i) == b'(i)
    ensures Conv(F, a, b, n) == Conv(F, a', b', n)
  {
    hide Xor, GfMul, F.Ok;
    if n > 0 {
      forall i: nat | i <= n - 1 ensures Tail(a)(i) == Tail(a')(i) && b(i) == b'(i) {
        assert a(i + 1) == a'(i + 1);
      }
      ConvCong(F, Tail(a), Tail(a'), b, b', n - 1);
    }
  }

  lemma {:induction false} ConvAddLeft(F: Field, a: Ser, b: Ser, c: Ser, n: nat)
    requires F.Ok() && IsSer(F, a) && IsSer(F, b) && IsSer(F, c)
    ensures IsSer(F, Sum(a, b)) && Conv(F, Sum(a, b), c, n) == Xor(Conv(F, a, c, n), Conv(F, b, c, n))
  {
    hide *;
    SumIsSer(F, a, b);
    SumAt(F, a, b);
    SerAt(F, a, 0);
    SerAt(F, b, 0);
    SerAt(F, c, n);
    MulDistribLeft(F, a(0), b(0), c(n));
    ConvStep(F, a, c, n);
    ConvStep(F, b, c, n);
    ConvStep(F, Sum(a, b), c, n);
    if n > 0 {
      SumIsSer(F, Tail(a), Tail(b));
      ConvAddLeft(F, Tail(a), Tail(b), c, n - 1);
      ConvCong(F, Tail(Sum(a, b)), Sum(Tail(a), Tail(b)), c, c, n - 1);
      XorSwap4(GfMul(F, a(0), c(n)), GfMul(F, b(0), c(n)), Conv(F, Tail(a), c, n - 1), Conv(F, Tail(b), c, n - 1));
    }
  }

  lemma {:induction false} MulDistribLeft(F: Field, x: nat, y: nat, z: nat)
    requires F.Ok() && F.El(x) && F.El(y) && F.El(z)
    ensures F.El(Xor(x, y)) && GfMul(F, Xor(x, y), z) == Xor(GfMul(F, x, z), GfMul(F, y, z))
  {
    hide Xor, GfMul, F.Ok;
    MulDistrib(F, z, x, y);
    MulComm(F, z, x);
    MulComm(F, z, y);
    MulComm(F, z, Xor(x, y));
  }

  lemma {:induction false} ConvTimesLeft(F: Field, k: nat, a: Ser, c: Ser, n: nat)
    requires F.Ok() && F.El(k) && IsSer(F, a) && IsSer(F, c)
    ensures Conv(F, Times(F, k, a), c, n) == GfMul(F, k, Conv(F, a, c, n))
  {
    hide *;
    SerAt(F, a, 0);
    SerAt(F, c, n);
    MulAssoc(F, k, a(0), c(n));
    ConvStep(F, a, c, n);
    ConvStep(F, Times(F, k, a), c, n);
    TimesAt(F, k, a);
    if n > 0 {
      ConvTimesLeft(F, k, Tail(a), c, n - 1);
      ConvCong(F, Tail(Times(F, k, a)), Times(F, k, Tail(a)), c, c, n - 1);
      MulDistrib(F, k, GfMul(F, a(0), c(n)), Conv(F, Tail(a), c, n - 1));
    }
  }

  /** The product may also be unfolded from the other factor. */
  lemma {:induction false} ConvRight(F: Field, a: Ser, b: Ser, n: nat)
    requires F.Ok() && IsSer(F, a) && IsSer(F, b) && n > 0
    ensures Conv(F, a, b, n) == Xor(GfMul(F, a(n), b(0)), Conv(F, a, Tail(b), n - 1))
  {
    hide Xor, GfMul, F.Ok;
    if n == 1 {
      assert Conv(F, Tail(a), b, 0) == GfMul(F, a(1), b(0));
      assert Conv(F, a, Tail(b), 0) == GfMul(F, a(0), b(1));
      XorComm(GfMul(F, a(0), b(1)), GfMul(F, a(1), b(0)));
    } else {
      ConvRight(F, Tail(a), b, n - 1);
      var x, y, z := GfMul(F, a(0), b(n)), GfMul(F, a(n), b(0)), Conv(F, Tail(a), Tail(b), n - 2);
      assert Tail(a)(n - 1) == a(n);
      assert Conv(F, a, b, n) == Xor(x, Xor(y, z));
      assert Tail(b)(n - 1) == b(n);
      assert Conv(F, a, Tail(b), n - 1) == Xor(x, z);
      XorAssoc(x, y, z);
      XorComm(x, y);
      XorAssoc(y, x, z);
    }
  }

  lemma {:induction false} ConvComm(F: Field, a: Ser, b: Ser, n: nat)
    requires F.Ok() && IsSer(F, a) && IsSer(F, b)
    ensures Conv(F, a, b, n) == Conv(F, b, a, n)
  {
    hide Xor, GfMul, F.Ok;
    MulComm(F, a(0), b(n));
    if n > 0 {
      ConvComm(F, Tail(a), b, n - 1);
      ConvRight(F, b, a, n);
    }
  }

  lemma {:induction false} TailIsSer(F: Field, a: Ser)
    requires IsSer(F, a)
    ensures IsSer(F, Tail(a))
  {
  }

  lemma {:induction false} TailAt(a: Ser, i: nat)
    ensures Tail(a)(i) == a(i + 1)
  {
  }

  lemma {:induction false} ProdTailAt(F: Field, a: Ser, b: Ser, i: nat)
    requires F.Ok() && IsSer(F, a) && IsSer(F, b)
    ensures IsSer(F, Tail(a)) && IsSer(F, Tail(b)) && F.El(a(0))
    ensures Tail(Prod(F, a, b))(i) == Sum(Times(F, a(0), Tail(b)), Prod(F, Tail(a), b))(i)
  {
    hide *;
    TailIsSer(F, a);
    TailIsSer(F, b);
    SerAt(F, a, 0);
    var p, q := Times(F, a(0), Tail(b)), Prod(F, Tail(a), b);
    TailAt(Prod(F, a, b), i);
    ProdAt(F, a, b, i + 1);
    ConvStep(F, a, b, i + 1);
    SumAt(F, p, q);
    TimesCoef(F, a(0), Tail(b), i);
    TailAt(b, i);
    ProdAt(F, Tail(a), b, i);
  }

  lemma {:induction false} TimesCoef(F: Field, k: nat, a: Ser, i: nat)
    requires F.Ok() && F.El(k) && IsSer(F, a)
    ensures F.El(a(i)) && Times(F, k, a)(i) == GfMul(F, k, a(i))
  {
  }

  lemma {:induction false} ProdTail(F: Field, a: Ser, b: Ser)
    requires F.Ok() && IsSer(F, a) && IsSer(F, b)
    ensures IsSer(F, Tail(a)) && IsSer(F, Tail(b)) && IsSer(F, Tail(Prod(F, a, b))) && F.El(a(0)) && F.El(b(0))
    ensures IsSer(F, Sum(Times(F, a(0), Tail(b)), Prod(F, Tail(a), b)))
    ensures forall i: nat :: Tail(Prod(F, a, b))(i) == Sum(Times(F, a(0), Tail(b)), Prod(F, Tail(a), b))(i)
    ensures Prod(F, a, b)(0) == GfMul(F, a(0), b(0))
  {
    hide *;
    TailIsSer(F, a);
    TailIsSer(F, b);
    TailIsSer(F, Prod(F, a, b));
    SerAt(F, a, 0);
    SerAt(F, b, 0);
    SumIsSer(F, Times(F, a(0), Tail(b)), Prod(F, Tail(a), b));
    ConvStep(F, a, b, 0);
    ProdAt(F, a, b, 0);
    forall i: nat ensures Tail(Prod(F, a, b))(i) == Sum(Times(F, a(0), Tail(b)), Prod(F, Tail(a), b))(i) {
      ProdTailAt(F, a, b, i);
    }
  }

  lemma {:induction false} ProdAt(F: Field, a: Ser, b: Ser, n: nat)
    requires F.Ok() && IsSer(F, a) && IsSer(F, b)
    ensures Prod(F, a, b)(n) == Conv(F, a, b, n)
  {
  }

  /** Multiplication of power series is associative. */
  lemma {:induction false} ConvAssoc(F: Field, a: Ser, b: Ser, c: Ser, n: nat)
    requires F.Ok() && IsSer(F, a) && IsSer(F, b) && IsSer(F, c)
    ensures Conv(F, Prod(F, a, b), c, n) == Conv(F, a, Prod(F, b, c), n)
  {
    hide *;
    SerAt(F, a, 0);
    SerAt(F, b, 0);
    SerAt(F, c, n);
    MulAssoc(F, a(0), b(0), c(n));
    ConvStep(F, Prod(F, a, b), c, n);
    ConvStep(F, a, Prod(F, b, c), n);
    ConvStep(F, b, c, n);
    ProdAt(F, b, c, n);
    ProdTail(F, a, b);
    if n > 0 {
      ConvAssoc(F, Tail(a), b, c, n - 1);
      var p := Times(F, a(0), Tail(b));
      var q := Prod(F, Tail(a), b);
      ConvCong(F, Tail(Prod(F, a, b)), Sum(p, q), c, c, n - 1);
      ConvAddLeft(F, p, q, c, n - 1);
      ConvTimesLeft(F, a(0), Tail(b), c, n - 1);
      var x := GfMul(F, b(0), c(n));
      var y := Conv(F, Tail(b), c, n - 1);
      MulDistrib(F, a(0), x, y);
      XorAssoc(GfMul(F, a(0), x), GfMul(F, a(0), y), Conv(F, q, c, n - 1));
    }
  }

  // ----- even and odd parts

  ghost predicate ParityUpTo(a: Ser, p: nat, n: nat) {
    forall i: nat :: i <= n && i % 2 != p ==> a(i) == 0
  }

  /** Products of series with coefficients in one residue class modulo 2 have them in one class. */
  lemma {:induction false} ConvParity(F: Field, a: Ser, p: nat, b: Ser, q: nat, n: nat)
    requires F.Ok() && IsSer(F, a) && IsSer(F, b) && p < 2 && q < 2
    requires ParityUpTo(a, p, n) && ParityUpTo(b, q, n) && (p + q) % 2 != n % 2
    ensures Conv(F, a, b, n) == 0
    decreases n
  {
    hide Xor, GfMul, F.Ok;
    MulZero(F, a(0));
    MulZero(F, b(n));
    XorZero(0);
    if n > 0 {
      forall i: nat | i <= n - 1 && i % 2 != 1 - p ensures Tail(a)(i) == 0 { assert a(i + 1) == 0; }
      ConvParity(F, Tail(a), 1 - p, b, q, n - 1);
    }
  }

  ghost function Even(a: Ser): Ser {
    (i: nat) => if i % 2 == 0 then a(i) else 0
  }

  ghost function Odd(a: Ser): Ser {
    (i: nat) => if i % 2 == 1 then a(i) else 0
  }

  lemma {:induction false} PartsAreSer(F: Field, a: Ser)
    requires F.Ok() && IsSer(F, a)
    ensures IsSer(F, Even(a)) && IsSer(F, Odd(a))
    ensures forall i: nat :: Xor(Even(a)(i), Odd(a)(i)) == a(i)
  {
    hide Xor, F.Ok;
    FieldShape(F);
    forall i: nat ensures Xor(Even(a)(i), Odd(a)(i)) == a(i) { XorZero(a(i)); }
  }

  /** Coefficient n of a product splits over the even and the odd part of a factor. */
  lemma {:induction false} ConvSplit(F: Field, a: Ser, b: Ser, n: nat)
    requires F.Ok() && IsSer(F, a) && IsSer(F, b)
    ensures IsSer(F, Even(a)) && IsSer(F, Odd(a))
    ensures Conv(F, a, b, n) == Xor(Conv(F, Even(a), b, n), Conv(F, Odd(a), b, n))
  {
    hide Xor, GfMul, F.Ok, Conv, Even, Odd;
    PartsAreSer(F, a);
    ConvAddLeft(F, Even(a), Odd(a), b, n);
    ConvCong(F, a, Sum(Even(a), Odd(a)), b, b, n);
  }

  /** A factor that vanishes up to n makes coefficient n vanish. */
  lemma {:induction false} ConvZero(F: Field, a: Ser, b: Ser, n: nat)
    requires F.Ok() && IsSer(F, a) && IsSer(F, b)
    requires forall i: nat :: i <= n ==> a(i) == 0
    ensures Conv(F, a, b, n) == 0 && Conv(F, b, a, n) == 0
  {
    hide Xor, GfMul, F.Ok;
    ConvComm(F, a, b, n);
    MulZero(F, b(n));
    if n > 0 {
      forall i: nat | i <= n - 1 ensures Tail(a)(i) == 0 { assert a(i + 1) == 0; }
      ConvZero(F, Tail(a), b, n - 1);
      XorZero(0);
    }
  }

  /** A series that vanishes below n contributes its coefficient n times the constant term. */
  lemma {:induction false} ConvLeading(F: Field, a: Ser, b: Ser, n: nat)
    requires F.Ok() && IsSer(F, a) && IsSer(F, b)
    requires forall i: nat :: i < n ==> a(i) == 0
    ensures Conv(F, a, b, n) == GfMul(F, a(n), b(0))
  {
    hide Xor, GfMul, F.Ok;
    if n > 0 {
      forall i: nat | i < n - 1 ensures Tail(a)(i) == 0 { assert a(i + 1) == 0; }
      ConvLeading(F, Tail(a), b, n - 1);
      MulZero(F, b(n));
      XorZero(GfMul(F, a(n), b(0)));
    }
  }

  /** Division by a series with constant term 1 is unique: what the product fixes, the factor obeys. */
  lemma {:induction false} UnitCancel(F: Field, u: Ser, w: Ser, n: nat)
    requires F.Ok() && IsSer(F, u) && IsSer(F, w) && u(0) == 1
    requires forall i: nat :: i < n ==> Conv(F, u, w, i) == 0
    ensures forall i: nat :: i < n ==> w(i) == 0
    ensures w(n) == Conv(F, u, w, n)
  {
    hide Xor, GfMul, F.Ok, Conv;
    if n > 0 {
      UnitCancel(F, u, w, n - 1);
    }
    ConvComm(F, u, w, n);
    ConvLeading(F, w, u, n);
    MulOne(F, w(n));
  }

  // ----- degree

  ghost predicate DegreeAtMost(a: Ser, d: nat) {
    forall i: nat :: i > d ==> a(i) == 0
  }

  lemma {:induction false} ConvDegree(F: Field, a: Ser, d: nat, b: Ser, e: nat, n: nat)
    requires F.Ok() && IsSer(F, a) && IsSer(F, b) && DegreeAtMost(a, d) && DegreeAtMost(b, e) && n > d + e
    ensures Conv(F, a, b, n) == 0
  {
    hide Xor, GfMul, F.Ok;
    MulZero(F, a(0));
    XorZero(0);
    if d == 0 {
      forall i: nat | i <= n - 1 ensures Tail(a)(i) == 0 { assert a(i + 1) == 0; }
      ConvZero(F, Tail(a), b, n - 1);
    } else {
      forall i: nat | i > d - 1 ensures Tail(a)(i) == 0 { assert a(i + 1) == 0; }
      ConvDegree(F, Tail(a), d - 1, b, e, n - 1);
    }
  }
}
