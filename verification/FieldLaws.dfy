/** The table-driven operations of the codec, and the proof that they are the operations of a field. */
module FieldLaws {
  import opened Arithmetic
  import opened Gf2
  import opened GaloisField

  /** Reduction of an exponent below twice the group order. */
  function ModS(n: nat, v: nat): nat {
    if v < n then v else v - n
  }

  lemma {:induction false} LogEntry(F: Field, x: nat)
    requires F.Ok() && F.El(x) && x != 0
    ensures |F.pow| == |F.log| == Pow2(F.m) == F.N() + 1
    ensures F.log[x] < F.N() && F.pow[F.log[x]] == x
  {
    assert Probe(x);
  }

  lemma {:induction false} PowEntry(F: Field, i: nat)
    requires F.Ok() && i <= F.N()
    ensures |F.pow| == |F.log| == Pow2(F.m) == F.N() + 1
    ensures F.pow[i] == APow(F.poly, F.m, i) && F.El(F.pow[i])
    ensures i < F.N() ==> 0 < F.pow[i] && F.log[F.pow[i]] == i
    ensures F.pow[F.N()] == 1 && F.log[0] == 0
  {
    assert Probe(i);
  }

  function GfMul(F: Field, a: nat, b: nat): (c: nat)
    requires F.Ok() && F.El(a) && F.El(b)
    ensures F.El(c)
  {
    if a != 0 && b != 0 then
      LogEntry(F, a);
      LogEntry(F, b);
      PowEntry(F, ModS(F.N(), F.log[a] + F.log[b]));
      F.pow[ModS(F.N(), F.log[a] + F.log[b])]
    else 0
  }

  function GfSqr(F: Field, a: nat): (c: nat)
    requires F.Ok() && F.El(a)
    ensures F.El(c)
  {
    if a != 0 then
      LogEntry(F, a);
      PowEntry(F, ModS(F.N(), 2 * F.log[a]));
      F.pow[ModS(F.N(), 2 * F.log[a])]
    else 0
  }

  function GfDiv(F: Field, a: nat, b: nat): (c: nat)
    requires F.Ok() && F.El(a) && F.El(b) && b != 0
    ensures F.El(c)
  {
    if a != 0 then
      LogEntry(F, a);
      LogEntry(F, b);
      PowEntry(F, ModS(F.N(), F.log[a] + F.N() - F.log[b]));
      F.pow[ModS(F.N(), F.log[a] + F.N() - F.log[b])]
    else 0
  }

  function GfInv(F: Field, a: nat): (c: nat)
    requires F.Ok() && F.El(a) && a != 0
    ensures F.El(c)
  {
    LogEntry(F, a);
    PowEntry(F, F.N() - F.log[a]);
    F.pow[F.N() - F.log[a]]
  }

  /** The exponent reduction used for arbitrary exponents: fold the high bits onto the low ones. */
  method Modulo(m: nat, v: nat) returns (r: nat)
    requires m > 1
    ensures r < Order(m) && r == v % Order(m)
  {
    var n := Order(m);
    Pow2Mono(1, m);
    Pow2Mono(2, m);
    r := v;
    while r >= n
      invariant r % n == v % n
      decreases r
    {
      r := r - n;
      ModSub(r, n);
      FoldCongruent(r, n);
      r := r % (n + 1) + r / (n + 1);
    }
    ModBelow(r, n);
  }

  lemma {:induction false} FoldCongruent(r: nat, n: nat)
    requires n > 0
    ensures (r % (n + 1) + r / (n + 1)) % n == r % n
    ensures r % (n + 1) + r / (n + 1) <= r
  {
    var hi, lo := r / (n + 1), r % (n + 1);
    assert r == hi * (n + 1) + lo;
    assert r == (lo + hi) + hi * n;
    ModAddMultiple(lo + hi, hi, n);
  }

  // ----- the exponential form

  lemma {:induction false} APowPeriodic(F: Field, i: nat)
    requires F.Ok()
    ensures F.N() > 0 && i % F.N() < F.N()
    ensures APow(F.poly, F.m, i) == F.pow[i % F.N()]
    decreases i
  {
    hide Iter;
    var n := F.N();
    Pow2Mono(1, F.m);
    PowEntry(F, n);
    if i < n {
      ModBelow(i, n);
      PowEntry(F, i);
    } else {
      APowPeriodic(F, i - n);
      ModSub(i - n, n);
      IterAdd(F.poly, F.m, i - n, n, 1);
      assert APow(F.poly, F.m, n) == 1;
    }
  }

  /** The i-th power of a, for any exponent. */
  function A(F: Field, i: nat): (x: nat)
    requires F.Ok()
    ensures F.El(x) && x != 0
  {
    APowPeriodic(F, i);
    PowEntry(F, i % F.N());
    APow(F.poly, F.m, i)
  }

  lemma {:induction false} ALookup(F: Field, i: nat)
    requires F.Ok()
    ensures F.N() > 0 && A(F, i) == F.pow[i % F.N()]
    ensures i <= F.N() ==> A(F, i) == F.pow[i]
    ensures i < F.N() ==> F.log[A(F, i)] == i
  {
    APowPeriodic(F, i);
    if i <= F.N() { PowEntry(F, i); }
    if i < F.N() { ModBelow(i, F.N()); }
  }

  lemma {:induction false} ALog(F: Field, x: nat)
    requires F.Ok() && F.El(x) && x != 0
    ensures F.log[x] < F.N() && A(F, F.log[x]) == x
  {
    LogEntry(F, x);
    ALookup(F, F.log[x]);
  }

  lemma {:induction false} AZero(F: Field)
    requires F.Ok()
    ensures A(F, 0) == 1
  {
  }

  lemma {:induction false} AInjective(F: Field, i: nat, j: nat)
    requires F.Ok() && i < F.N() && j < F.N() && A(F, i) == A(F, j)
    ensures i == j
  {
    ALookup(F, i);
    ALookup(F, j);
  }

  lemma {:induction false} APeriod(F: Field, i: nat)
    requires F.Ok()
    ensures A(F, i + F.N()) == A(F, i)
  {
    APowPeriodic(F, i);
    APowPeriodic(F, i + F.N());
    ModSub(i, F.N());
  }

  lemma {:induction false} AModS(F: Field, v: nat)
    requires F.Ok() && v <= 2 * F.N()
    ensures ModS(F.N(), v) <= F.N() && F.pow[ModS(F.N(), v)] == A(F, v)
  {
    hide *;
    ModSDef(F.N(), v);
    ALookup(F, ModS(F.N(), v));
    if v >= F.N() {
      APeriod(F, v - F.N());
    }
  }

  lemma {:induction false} ModSDef(n: nat, v: nat)
    ensures ModS(n, v) == if v < n then v else v - n
  {
  }

  lemma {:induction false} ModAddMod(i: nat, j: nat, n: nat)
    requires n > 0
    ensures (i % n + j % n) % n == (i + j) % n
  {
    var a, b := i / n, j / n;
    assert i + j == (i % n + j % n) + (a + b) * n;
    ModAddMultiple(i % n + j % n, a + b, n);
  }

  // ----- the field laws

  /** Adding logarithms multiplies powers, for all exponents. */
  lemma {:induction false} MulPowers(F: Field, i: nat, j: nat)
    requires F.Ok()
    ensures GfMul(F, A(F, i), A(F, j)) == A(F, i + j)
  {
    hide A, ModS, Iter, Xor, Step;
    var n := F.N();
    ALookup(F, i);
    ALookup(F, j);
    ALookup(F, i + j);
    ALookup(F, i % n);
    ALookup(F, j % n);
    AModS(F, i % n + j % n);
    ALookup(F, i % n + j % n);
    ModAddMod(i, j, n);
  }

  lemma {:induction false} MulZero(F: Field, x: nat)
    requires F.Ok() && F.El(x)
    ensures F.El(0) && GfMul(F, x, 0) == 0 && GfMul(F, 0, x) == 0
  {
  }

  /** Multiplying by a power of a is shifting that many times. */
  lemma {:induction false} MulIsIter(F: Field, i: nat, y: nat)
    requires F.Ok() && F.El(y)
    ensures GfMul(F, A(F, i), y) == Iter(F.poly, F.m, i, y)
  {
    hide Iter, Xor, Step, GfMul;
    if y == 0 {
      MulZero(F, A(F, i));
      IterZero(F.poly, F.m, i);
    } else {
      var j := F.log[y];
      ALog(F, y);
      MulPowers(F, i, j);
      Pow2Mono(1, F.m);
      IterAdd(F.poly, F.m, i, j, 1);
    }
  }

  /** Table multiplication distributes over exclusive or. */
  lemma {:induction false} MulDistrib(F: Field, x: nat, y: nat, z: nat)
    requires F.Ok() && F.El(x) && F.El(y) && F.El(z)
    ensures F.El(Xor(y, z))
    ensures GfMul(F, x, Xor(y, z)) == Xor(GfMul(F, x, y), GfMul(F, x, z))
  {
    hide Xor, GfMul, A, Iter, F.Ok;
    XorBound(y, z, F.m);
    if x == 0 {
      MulZero(F, y);
      MulZero(F, z);
      MulZero(F, Xor(y, z));
      XorZero(0);
    } else {
      var i := LogOf(F, x);
      MulIsIter(F, i, y);
      MulIsIter(F, i, z);
      MulIsIter(F, i, Xor(y, z));
      FieldShape(F);
      IterLinear(F.poly, F.m, i, y, z);
    }
  }

  lemma {:induction false} FieldShape(F: Field)
    requires F.Ok()
    ensures F.m > 0 && IsDivisor(F.poly, F.m) && F.N() > 0 && Pow2(F.m) >= 2 && F.El(0) && F.El(1)
  {
    Pow2Mono(1, F.m);
  }

  /** The logarithm table, as a function on nonzero elements. */
  function LogOf(F: Field, x: nat): (i: nat)
    requires F.Ok() && F.El(x) && x != 0
    ensures i < F.N() && A(F, i) == x
  {
    ALog(F, x);
    F.log[x]
  }

  lemma {:induction false} MulComm(F: Field, x: nat, y: nat)
    requires F.Ok() && F.El(x) && F.El(y)
    ensures GfMul(F, x, y) == GfMul(F, y, x)
  {
  }

  lemma {:induction false} MulAssoc(F: Field, x: nat, y: nat, z: nat)
    requires F.Ok() && F.El(x) && F.El(y) && F.El(z)
    ensures GfMul(F, GfMul(F, x, y), z) == GfMul(F, x, GfMul(F, y, z))
  {
    hide Xor, GfMul, A, F.Ok, LogOf;
    FieldShape(F);
    if x == 0 || y == 0 || z == 0 {
      MulZero(F, x);
      MulZero(F, y);
      MulZero(F, z);
      MulZero(F, GfMul(F, x, y));
      MulZero(F, GfMul(F, y, z));
    } else {
      var i, j, k := LogOf(F, x), LogOf(F, y), LogOf(F, z);
      MulPowers(F, i, j);
      MulPowers(F, i + j, k);
      MulPowers(F, j, k);
      MulPowers(F, i, j + k);
    }
  }

  lemma {:induction false} MulOne(F: Field, x: nat)
    requires F.Ok() && F.El(x)
    ensures F.El(1) && GfMul(F, 1, x) == x && GfMul(F, x, 1) == x
  {
    hide Xor, GfMul, A, F.Ok, LogOf;
    FieldShape(F);
    AZero(F);
    if x == 0 {
      MulZero(F, 1);
    } else {
      MulPowers(F, 0, LogOf(F, x));
      MulPowers(F, LogOf(F, x), 0);
    }
  }

  lemma {:induction false} MulNonzero(F: Field, x: nat, y: nat)
    requires F.Ok() && F.El(x) && F.El(y) && x != 0 && y != 0
    ensures GfMul(F, x, y) != 0
  {
    hide Xor, GfMul, F.Ok, LogOf;
    MulPowers(F, LogOf(F, x), LogOf(F, y));
  }

  /** Every nonzero element has an inverse, and it is the one the codec looks up. */
  lemma {:induction false} MulInverse(F: Field, x: nat)
    requires F.Ok() && F.El(x) && x != 0
    ensures GfMul(F, x, GfInv(F, x)) == 1
  {
    hide Xor, GfMul, Iter;
    var i := LogOf(F, x);
    ALookup(F, F.N() - i);
    MulPowers(F, i, F.N() - i);
    AZero(F);
    APeriod(F, 0);
  }

  /** Division undoes multiplication. */
  lemma {:induction false} DivMul(F: Field, x: nat, y: nat)
    requires F.Ok() && F.El(x) && F.El(y) && y != 0
    ensures GfMul(F, GfDiv(F, x, y), y) == x
  {
    hide Xor, GfMul, A, ModS, Iter;
    if x == 0 {
      MulZero(F, y);
    } else {
      var i, j := LogOf(F, x), LogOf(F, y);
      AModS(F, i + F.N() - j);
      MulPowers(F, i + F.N() - j, j);
      APeriod(F, i);
    }
  }

  lemma {:induction false} SqrIsMul(F: Field, x: nat)
    requires F.Ok() && F.El(x)
    ensures GfSqr(F, x) == GfMul(F, x, x)
  {
  }

  /** Squaring is additive: the Frobenius map. */
  lemma {:induction false} SqrXor(F: Field, x: nat, y: nat)
    requires F.Ok() && F.El(x) && F.El(y)
    ensures F.El(Xor(x, y))
    ensures GfSqr(F, Xor(x, y)) == Xor(GfSqr(F, x), GfSqr(F, y))
  {
    hide Xor, GfMul, GfSqr, F.Ok;
    XorBound(x, y, F.m);
    var s := Xor(x, y);
    SqrIsMul(F, x);
    SqrIsMul(F, y);
    SqrIsMul(F, s);
    MulDistrib(F, s, x, y);
    MulComm(F, s, x);
    MulComm(F, s, y);
    MulDistrib(F, x, x, y);
    MulDistrib(F, y, x, y);
    MulComm(F, x, y);
    var xx, xy, yy := GfMul(F, x, x), GfMul(F, x, y), GfMul(F, y, y);
    XorAssoc(xx, xy, Xor(xy, yy));
    XorAssoc(xy, xy, yy);
    XorSelf(xy);
    XorZero(yy);
  }

  lemma {:induction false} SqrMul(F: Field, x: nat, y: nat)
    requires F.Ok() && F.El(x) && F.El(y)
    ensures GfSqr(F, GfMul(F, x, y)) == GfMul(F, GfSqr(F, x), GfSqr(F, y))
  {
    hide Xor, GfMul, GfSqr, F.Ok;
    SqrIsMul(F, x);
    SqrIsMul(F, y);
    SqrIsMul(F, GfMul(F, x, y));
    var p := GfMul(F, x, y);
    calc {
      GfMul(F, p, p);
      { MulAssoc(F, x, y, p); MulComm(F, x, y); MulAssoc(F, y, y, x); }
      GfMul(F, x, GfMul(F, y, GfMul(F, y, x)));
      { MulAssoc(F, y, y, x); MulComm(F, GfMul(F, y, y), x); }
      GfMul(F, x, GfMul(F, x, GfMul(F, y, y)));
      { MulAssoc(F, x, x, GfMul(F, y, y)); }
      GfMul(F, GfMul(F, x, x), GfMul(F, y, y));
    }
  }

  lemma {:induction false} SqrPower(F: Field, i: nat)
    requires F.Ok()
    ensures GfSqr(F, A(F, i)) == A(F, 2 * i)
  {
    hide Xor, GfMul, GfSqr, F.Ok, A;
    SqrIsMul(F, A(F, i));
    MulPowers(F, i, i);
  }

  /** Only 0 and 1 are their own squares. */
  lemma {:induction false} SqrFixed(F: Field, x: nat)
    requires F.Ok() && F.El(x) && GfSqr(F, x) == x
    ensures x == 0 || x == 1
  {
    hide Xor, GfMul, GfSqr, F.Ok, GfInv;
    if x != 0 {
      SqrIsMul(F, x);
      MulInverse(F, x);
      MulAssoc(F, x, x, GfInv(F, x));
      MulOne(F, x);
    }
  }
}
