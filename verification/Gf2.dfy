/** Polynomials over GF(2) as natural numbers: bit i of the number is the coefficient of X^i.
    Addition is exclusive or, multiplication by X is doubling, and the remainder by a polynomial g
    is computed one bit at a time, most significant bit first. */
module Gf2 {

  function Pow2(k: nat): (p: nat)
    ensures p > 0
  {
    if k == 0 then 1 else 2 * Pow2(k - 1)
  }

  lemma {:induction false} DoubleProduct(x: nat, y: nat)
    ensures x * (2 * y) == 2 * (x * y)
  {
  }

  lemma {:induction false} Pow2Add(a: nat, b: nat)
    ensures Pow2(a + b) == Pow2(a) * Pow2(b)
  {
    if b > 0 {
      Pow2Add(a, b - 1);
      Pow2Double(a + b);
      Pow2Double(b);
      hide Pow2;
      DoubleProduct(Pow2(a), Pow2(b - 1));
    }
  }

  lemma {:induction false} Pow2Double(k: nat)
    requires k > 0
    ensures Pow2(k) == 2 * Pow2(k - 1)
  {
  }

  lemma {:induction false} Pow2Mono(a: nat, b: nat)
    requires a <= b
    ensures Pow2(a) <= Pow2(b)
    ensures a < b ==> Pow2(a) < Pow2(b)
  {
    if a < b {
      Pow2Mono(a, b - 1);
    }
  }

  lemma {:induction false} Pow2Values()
    ensures Pow2(8) == 0x100 && Pow2(16) == 0x1_0000 && Pow2(24) == 0x100_0000 && Pow2(32) == 0x1_0000_0000
  {
    assert Pow2(8) == 0x100;
    Pow2Add(8, 8);
    Pow2Add(16, 8);
    Pow2Add(24, 8);
  }

  lemma {:induction false} NatMul(x: nat, y: nat)
    ensures x * y >= 0
  {
  }

  lemma {:induction false} NatDiv(x: nat, y: nat)
    requires y > 0
    ensures 0 <= x / y
  {
  }

  /** Multiplication by X^k, the part of degree below k, and the part above it. */
  function Shl(x: nat, k: nat): (y: nat)
  {
    NatMul(x, Pow2(k));
    x * Pow2(k)
  }

  function Shr(x: nat, k: nat): (y: nat)
  {
    NatDiv(x, Pow2(k));
    x / Pow2(k)
  }

  function Low(x: nat, k: nat): (y: nat)
    ensures y < Pow2(k)
  {
    x % Pow2(k)
  }

  /** Exclusive or, the sum of two polynomials over GF(2). */
  function Xor(a: nat, b: nat): nat
    decreases a + b
  {
    if a == 0 && b == 0 then 0 else 2 * Xor(a / 2, b / 2) + (if a % 2 == b % 2 then 0 else 1)
  }

  lemma {:induction false} XorComm(a: nat, b: nat)
    ensures Xor(a, b) == Xor(b, a)
    decreases a + b
  {
    if a != 0 || b != 0 {
      XorComm(a / 2, b / 2);
    }
  }

  lemma {:induction false} XorZero(a: nat)
    ensures Xor(a, 0) == a && Xor(0, a) == a
  {
    if a != 0 {
      XorZero(a / 2);
    }
  }

  lemma {:induction false} XorSelf(a: nat)
    ensures Xor(a, a) == 0
  {
    if a != 0 {
      XorSelf(a / 2);
    }
  }

  lemma {:induction false} XorHalves(a: nat, b: nat)
    ensures Xor(a, b) / 2 == Xor(a / 2, b / 2)
    ensures Xor(a, b) % 2 == if a % 2 == b % 2 then 0 else 1
  {
  }

  lemma {:induction false} XorAssoc(a: nat, b: nat, c: nat)
    ensures Xor(Xor(a, b), c) == Xor(a, Xor(b, c))
    decreases a + b + c
  {
    if a == 0 && b == 0 && c == 0 {
    } else {
      XorAssoc(a / 2, b / 2, c / 2);
      XorAssocStep(a, b, c);
    }
  }

  lemma {:induction false} XorAssocStep(a: nat, b: nat, c: nat)
    requires Xor(Xor(a / 2, b / 2), c / 2) == Xor(a / 2, Xor(b / 2, c / 2))
    ensures Xor(Xor(a, b), c) == Xor(a, Xor(b, c))
  {
    hide Xor;
    var p, q := Xor(a, b), Xor(b, c);
    XorHalves(a, b);
    XorHalves(b, c);
    XorHalves(p, c);
    XorHalves(a, q);
    assert Xor(p, c) / 2 == Xor(a, q) / 2;
    assert Xor(p, c) % 2 == Xor(a, q) % 2;
  }

  /** a + b = c is the same statement as a + c = b. */
  lemma {:induction false} XorSolve(a: nat, b: nat)
    ensures Xor(a, Xor(a, b)) == b
    ensures Xor(Xor(a, b), b) == a
  {
    XorAssoc(a, a, b);
    XorSelf(a);
    XorZero(b);
    XorAssoc(a, b, b);
    XorSelf(b);
    XorZero(a);
  }

  lemma {:induction false} XorEqualZero(a: nat, b: nat)
    requires Xor(a, b) == 0
    ensures a == b
  {
    XorSolve(a, b);
    XorZero(a);
  }

  lemma {:induction false} XorSwap4(a: nat, b: nat, c: nat, d: nat)
    ensures Xor(Xor(a, b), Xor(c, d)) == Xor(Xor(a, c), Xor(b, d))
  {
    calc {
      Xor(Xor(a, b), Xor(c, d));
      { XorAssoc(a, b, Xor(c, d)); }
      Xor(a, Xor(b, Xor(c, d)));
      { XorAssoc(b, c, d); XorComm(b, c); XorAssoc(c, b, d); }
      Xor(a, Xor(c, Xor(b, d)));
      { XorAssoc(a, c, Xor(b, d)); }
      Xor(Xor(a, c), Xor(b, d));
    }
  }

  lemma {:induction false} XorBound(a: nat, b: nat, k: nat)
    requires a < Pow2(k) && b < Pow2(k)
    ensures Xor(a, b) < Pow2(k)
  {
    if k > 0 && (a != 0 || b != 0) {
      XorBound(a / 2, b / 2, k - 1);
    }
  }

  /** The coefficient of X^k in a sum is 1 exactly when it is 1 in one of the summands only. */
  lemma {:induction false} XorTop(a: nat, b: nat, k: nat)
    requires a < Pow2(k + 1) && b < Pow2(k + 1)
    ensures Xor(a, b) < Pow2(k + 1)
    ensures Xor(a, b) >= Pow2(k) <==> ((a >= Pow2(k)) != (b >= Pow2(k)))
  {
    XorBound(a, b, k + 1);
    if k > 0 {
      XorTop(a / 2, b / 2, k - 1);
      XorHalves(a, b);
    } else {
      assert Pow2(1) == 2;
      XorHalves(a, b);
      XorZero(0);
    }
  }

  lemma {:induction false} XorDouble(a: nat, b: nat)
    ensures Xor(2 * a, 2 * b) == 2 * Xor(a, b)
  {
    XorHalves(2 * a, 2 * b);
  }

  lemma {:induction false} XorScale(a: nat, b: nat, k: nat)
    ensures Xor(a * Pow2(k), b * Pow2(k)) == Xor(a, b) * Pow2(k)
  {
    hide Xor;
    if k > 0 {
      XorScale(a, b, k - 1);
      DoubleScale(a, k);
      DoubleScale(b, k);
      DoubleScale(Xor(a, b), k);
      hide Pow2;
      XorDouble(a * Pow2(k - 1), b * Pow2(k - 1));
    }
  }

  lemma {:induction false} DoubleScale(a: nat, k: nat)
    requires k > 0
    ensures a * Pow2(k) == 2 * (a * Pow2(k - 1))
  {
    Pow2Double(k);
    hide Pow2;
    DoubleProduct(a, Pow2(k - 1));
  }

  /** Two numbers with no bit in common are added by exclusive or. */
  lemma {:induction false} XorDisjoint(a: nat, b: nat, k: nat)
    requires b < Pow2(k)
    ensures Xor(a * Pow2(k), b) == a * Pow2(k) + b
  {
    hide Xor;
    if k == 0 {
      XorZero(a);
    } else {
      XorDisjoint(a, b / 2, k - 1);
      DoubleScale(a, k);
      hide Pow2;
      var x := a * Pow2(k - 1);
      XorHalves(2 * x, b);
    }
  }

  /** Exclusive or acts on the high part and on the low part separately. */
  lemma {:induction false} XorSplit(a: nat, b: nat, c: nat, d: nat, k: nat)
    requires b < Pow2(k) && d < Pow2(k)
    ensures Xor(a * Pow2(k) + b, c * Pow2(k) + d) == Xor(a, c) * Pow2(k) + Xor(b, d)
  {
    hide Xor;
    XorDisjoint(a, b, k);
    XorDisjoint(c, d, k);
    XorSwap4(a * Pow2(k), b, c * Pow2(k), d);
    XorScale(a, c, k);
    XorBound(b, d, k);
    XorDisjoint(Xor(a, c), Xor(b, d), k);
  }

  /** The degree of a nonzero polynomial: the index of its most significant bit. */
  function Deg(a: nat): (d: nat)
    requires a > 0
    ensures Pow2(d) <= a < Pow2(d + 1)
  {
    if a == 1 then 0 else 1 + Deg(a / 2)
  }

  lemma {:induction false} DegUnique(a: nat, d: nat)
    requires Pow2(d) <= a < Pow2(d + 1)
    ensures a > 0 && Deg(a) == d
  {
    var e := Deg(a);
    if e < d {
      Pow2Mono(e + 1, d);
    } else if d < e {
      Pow2Mono(d + 1, e);
    }
  }

  // ----- the remainder by a polynomial g of degree e

  ghost predicate IsDivisor(g: nat, e: nat) {
    Pow2(e) <= g < Pow2(e + 1)
  }

  /** Subtract g if the degree reached e. */
  function Reduce(g: nat, e: nat, s: nat): (t: nat)
    requires IsDivisor(g, e) && s < Pow2(e + 1)
    ensures t < Pow2(e)
  {
    if s >= Pow2(e) then XorTop(s, g, e); Xor(s, g) else s
  }

  /** One step of long division: bring down the next bit and reduce. */
  function Step(g: nat, e: nat, r: nat, b: nat): (s: nat)
    requires IsDivisor(g, e) && r < Pow2(e) && b < 2
    ensures s < Pow2(e)
  {
    Reduce(g, e, 2 * r + b)
  }

  /** Bit-by-bit long division of a by g: the remainder. */
  function Mod(g: nat, e: nat, a: nat): (r: nat)
    requires IsDivisor(g, e)
    ensures r < Pow2(e)
    decreases a
  {
    if a == 0 then 0 else Step(g, e, Mod(g, e, a / 2), a % 2)
  }

  lemma {:induction false} StepZero(g: nat, e: nat)
    requires IsDivisor(g, e)
    ensures Step(g, e, 0, 0) == 0
  {
  }

  lemma {:induction false} ReduceLinear(g: nat, e: nat, s: nat, s': nat)
    requires IsDivisor(g, e) && s < Pow2(e + 1) && s' < Pow2(e + 1)
    ensures Xor(s, s') < Pow2(e + 1)
    ensures Reduce(g, e, Xor(s, s')) == Xor(Reduce(g, e, s), Reduce(g, e, s'))
  {
    hide Xor, Pow2;
    XorTop(s, s', e);
    if s >= Pow2(e) && s' >= Pow2(e) {
      XorSwap4(s, g, s', g);
      XorSelf(g);
      XorZero(Xor(s, s'));
    } else if s >= Pow2(e) {
      XorAssoc(s, g, s');
      XorComm(g, s');
      XorAssoc(s, s', g);
    } else if s' >= Pow2(e) {
      XorAssoc(s, s', g);
    }
  }

  lemma {:induction false} StepLinear(g: nat, e: nat, r: nat, b: nat, r': nat, b': nat)
    requires IsDivisor(g, e) && r < Pow2(e) && b < 2 && r' < Pow2(e) && b' < 2
    ensures Xor(r, r') < Pow2(e)
    ensures Step(g, e, Xor(r, r'), if b == b' then 0 else 1) == Xor(Step(g, e, r, b), Step(g, e, r', b'))
  {
    hide *;
    Pow2Double(e + 1);
    XorBound(r, r', e);
    XorAppend(r, b, r', b');
    ReduceLinear(g, e, 2 * r + b, 2 * r' + b');
    StepDef(g, e, r, b);
    StepDef(g, e, r', b');
    StepDef(g, e, Xor(r, r'), if b == b' then 0 else 1);
  }

  lemma {:induction false} StepDef(g: nat, e: nat, r: nat, b: nat)
    requires IsDivisor(g, e) && r < Pow2(e) && b < 2
    ensures 2 * r + b < Pow2(e + 1) && Step(g, e, r, b) == Reduce(g, e, 2 * r + b)
  {
    Pow2Double(e + 1);
  }

  lemma {:induction false} XorAppend(r: nat, b: nat, r': nat, b': nat)
    requires b < 2 && b' < 2
    ensures Xor(2 * r + b, 2 * r' + b') == 2 * Xor(r, r') + if b == b' then 0 else 1
  {
    hide Xor;
    XorHalves(2 * r + b, 2 * r' + b');
  }

  lemma {:induction false} ModLinear(g: nat, e: nat, a: nat, b: nat)
    requires IsDivisor(g, e)
    ensures Mod(g, e, Xor(a, b)) == Xor(Mod(g, e, a), Mod(g, e, b))
    decreases a + b
  {
    StepZero(g, e);
    if a == 0 && b == 0 {
      XorZero(0);
    } else {
      ModLinear(g, e, a / 2, b / 2);
      XorHalves(a, b);
      StepLinear(g, e, Mod(g, e, a / 2), a % 2, Mod(g, e, b / 2), b % 2);
      ModUnfold(g, e, a);
      ModUnfold(g, e, b);
      ModUnfold(g, e, Xor(a, b));
    }
  }

  lemma {:induction false} ModUnfold(g: nat, e: nat, a: nat)
    requires IsDivisor(g, e)
    ensures Mod(g, e, a) == Step(g, e, Mod(g, e, a / 2), a % 2)
  {
    StepZero(g, e);
  }

  lemma {:induction false} ModSmall(g: nat, e: nat, a: nat)
    requires IsDivisor(g, e) && a < Pow2(e)
    ensures Mod(g, e, a) == a
    decreases a
  {
    if a != 0 {
      ModSmall(g, e, a / 2);
    }
  }

  /** Reducing before a shift does not change the remainder after it. */
  lemma {:induction false} ModShift(g: nat, e: nat, a: nat, k: nat)
    requires IsDivisor(g, e)
    ensures Mod(g, e, a * Pow2(k)) == Mod(g, e, Mod(g, e, a) * Pow2(k))
  {
    hide Step, Mod, Xor;
    if k == 0 {
      ModSmall(g, e, Mod(g, e, a));
    } else {
      ModShift(g, e, a, k - 1);
      var r := Mod(g, e, a);
      DoubleScale(a, k);
      DoubleScale(r, k);
      ModDouble(g, e, a * Pow2(k - 1));
      ModDouble(g, e, r * Pow2(k - 1));
    }
  }

  lemma {:induction false} ModDouble(g: nat, e: nat, a: nat)
    requires IsDivisor(g, e)
    ensures Mod(g, e, 2 * a) == Step(g, e, Mod(g, e, a), 0)
  {
    hide Step, Mod, Xor;
    ModUnfold(g, e, 2 * a);
  }

  // ----- carry-less multiplication, and what a zero remainder means

  function Mul(a: nat, b: nat): nat
    decreases a
  {
    if a == 0 then 0 else Xor(2 * Mul(a / 2, b), if a % 2 == 1 then b else 0)
  }

  lemma {:induction false} DivisionStep(g: nat, e: nat, a: nat, b: nat, q: nat, r: nat)
    requires IsDivisor(g, e) && b < 2 && r < Pow2(e)
    requires a == Xor(Mul(q, g), r)
    ensures var bit := if 2 * r + b >= Pow2(e) then 1 else 0;
            2 * a + b == Xor(Mul(2 * q + bit, g), Step(g, e, r, b))
  {
    hide Xor, Mul;
    var s := 2 * r + b;
    var m := Mul(q, g);
    XorHalves(2 * m, s);
    assert 2 * a + b == Xor(2 * m, s);
    if s >= Pow2(e) {
      MulUnfold(2 * q + 1, g);
      XorSwap4(2 * m, g, s, g);
      XorSelf(g);
      XorZero(Xor(2 * m, s));
    } else {
      MulUnfold(2 * q, g);
      XorZero(2 * m);
    }
  }

  lemma {:induction false} MulUnfold(a: nat, b: nat)
    ensures Mul(a, b) == Xor(2 * Mul(a / 2, b), if a % 2 == 1 then b else 0)
  {
    XorZero(0);
  }

  lemma {:induction false} ModSelf(g: nat, e: nat)
    requires IsDivisor(g, e)
    ensures Mod(g, e, g) == 0
  {
    assert g / 2 < Pow2(e);
    ModSmall(g, e, g / 2);
    ModUnfold(g, e, g);
    XorSelf(g);
  }

  /** Sequences added entry by entry: the words of a register, or the coefficients of a polynomial. */
  ghost function XorSeq(a: seq<nat>, b: seq<nat>): (c: seq<nat>)
    requires |a| == |b|
    ensures |c| == |a|
  {
    seq(|a|, i requires 0 <= i < |a| => Xor(a[i], b[i]))
  }
}
