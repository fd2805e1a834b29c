/** Linear systems over GF(2): rows are numbers whose bit 0 is the constant term and whose bits m, m - 1, ..., 1 are
    the coefficients of the unknowns; a solution is the number made of the unknowns. */
module LinearSystem {
  import opened Arithmetic
  import opened Gf2

  // ----- parity of a conjunction

  function And(a: nat, b: nat): nat {
    if a == 0 || b == 0 then 0 else 2 * And(a / 2, b / 2) + (a % 2) * (b % 2)
  }

  function Parity(x: nat): (p: nat)
    ensures p < 2
  {
    if x == 0 then 0 else (x % 2 + Parity(x / 2)) % 2
  }

  /** The sum of the products of corresponding bits. */
  function Dot(a: nat, b: nat): (p: nat)
    ensures p < 2
  {
    Parity(And(a, b))
  }

  lemma {:induction false} DotStep(a: nat, b: nat)
    ensures Dot(a, b) == ((a % 2) * (b % 2) + Dot(a / 2, b / 2)) % 2
  {
    var x := And(a, b);
    assert x == 2 * And(a / 2, b / 2) + (a % 2) * (b % 2);
    assert x / 2 == And(a / 2, b / 2) && x % 2 == (a % 2) * (b % 2);
    hide And;
    assert Parity(x) == (x % 2 + Parity(x / 2)) % 2;
  }

  lemma {:induction false} DotZero(b: nat)
    ensures Dot(0, b) == 0
  {
  }

  lemma {:induction false} DotOne(b: nat)
    ensures Dot(1, b) == b % 2
  {
    hide Dot;
    DotStep(1, b);
    DotZero(b / 2);
  }

  lemma {:induction false} DotXor(a: nat, c: nat, b: nat)
    ensures Dot(Xor(a, c), b) == (Dot(a, b) + Dot(c, b)) % 2
    decreases a + c
  {
    hide Dot, Xor;
    XorHalves(a, c);
    if a == 0 && c == 0 {
      XorZero(0);
      DotZero(b);
    } else {
      DotXor(a / 2, c / 2, b / 2);
      DotStep(a, b);
      DotStep(c, b);
      DotStep(Xor(a, c), b);
      Bitwise(a % 2, c % 2, b % 2);
    }
  }

  lemma {:induction false} Bitwise(x: nat, y: nat, z: nat)
    requires x < 2 && y < 2 && z < 2
    ensures (if x == y then 0 else 1) * z % 2 == (x * z + y * z) % 2
    ensures Xor(x, y) == if x == y then 0 else 1
  {
    XorZero(0);
    XorSelf(x);
    XorZero(1);
    XorComm(0, 1);
  }

  function Bit(x: nat, i: nat): (b: nat)
    ensures b < 2
  {
    x / Pow2(i) % 2
  }

  lemma {:induction false} BitStep(x: nat, i: nat)
    requires i > 0
    ensures Bit(x, i) == Bit(x / 2, i - 1)
  {
    Pow2Double(i);
    hide Pow2;
    HalfThen(x, Pow2(i - 1));
  }

  lemma {:induction false} HalfThen(x: nat, k: nat)
    requires k > 0
    ensures x / (2 * k) == x / 2 / k
  {
    var q := x / 2 / k;
    var s := x / 2 % k;
    assert x / 2 == q * k + s;
    assert x == q * (2 * k) + (2 * s + x % 2);
    DivModUnique(x, 2 * k, q, 2 * s + x % 2);
  }

  lemma {:induction false} DotPower(i: nat, b: nat)
    ensures Dot(Pow2(i), b) == Bit(b, i)
  {
    hide Dot;
    DotStep(Pow2(i), b);
    if i == 0 {
      DotZero(b / 2);
    } else {
      DotPower(i - 1, b / 2);
      BitStep(b, i);
    }
  }

  /** Bits of the second number above the first make no difference. */
  lemma {:induction false} DotHigh(a: nat, b: nat, c: nat, k: nat)
    requires a < Pow2(k)
    ensures Dot(a, b + c * Pow2(k)) == Dot(a, b)
  {
    if k == 0 {
      DotZero(b);
      DotZero(b + c * Pow2(k));
    } else {
      hide Dot;
      Pow2Double(k);
      DoubleProduct(c, Pow2(k - 1));
      DotHigh(a / 2, b / 2, c, k - 1);
      DotStep(a, b);
      DotStep(a, b + c * Pow2(k));
      var d := c * Pow2(k - 1);
      assert b + c * Pow2(k) == b + 2 * d;
    }
  }

  /** A row with leading bit k at a number with bit k added. */
  lemma {:induction false} DotLeading(a: nat, w: nat, k: nat, b: nat)
    requires Pow2(k) <= a < Pow2(k + 1) && w < Pow2(k) && b < 2
    ensures Dot(a, w + b * Pow2(k)) == (Dot(a, w) + b) % 2
  {
    hide Dot, Bit;
    Pow2Double(k + 1);
    var l := a - Pow2(k);
    XorDisjoint(1, l, k);
    DotXor(Pow2(k), l, w + b * Pow2(k));
    DotXor(Pow2(k), l, w);
    DotHigh(l, w, b, k);
    DotPower(k, w + b * Pow2(k));
    DotPower(k, w);
    BitOfSum(w, b, k);
    BitOfSum(w, 0, k);
  }

  lemma {:induction false} BitOfSum(w: nat, b: nat, k: nat)
    requires w < Pow2(k) && b < 2
    ensures Bit(w + b * Pow2(k), k) == b
  {
    hide Pow2;
    DivModUnique(w + b * Pow2(k), Pow2(k), b, w);
  }

  // ----- triangular systems

  /** The unknowns and the constant 1, as one odd number. */
  ghost predicate IsPoint(m: nat, w: nat) { w % 2 == 1 && w < Pow2(m + 1) }

  ghost predicate Solves(rows: seq<nat>, w: nat) {
    forall r :: 0 <= r < |rows| ==> Dot(rows[r], w) == 0
  }

  /** Row r begins with the unknown r. */
  ghost predicate Triangular(m: nat, rows: seq<nat>) {
    |rows| == m && forall r :: 0 <= r < m ==> Pow2(m - r) <= rows[r] < Pow2(m - r + 1)
  }

  /** Back substitution from the last row up to row r. */
  ghost function Back(m: nat, rows: seq<nat>, r: nat): (w: nat)
    requires |rows| == m && r <= m
    decreases m - r
  {
    if r == m then 1 else Back(m, rows, r + 1) + Dot(rows[r], Back(m, rows, r + 1)) * Pow2(m - r)
  }

  lemma {:induction false} BackStep(m: nat, rows: seq<nat>, r: nat)
    requires |rows| == m && r < m
    ensures Back(m, rows, m) == 1
    ensures Back(m, rows, r) == Back(m, rows, r + 1) + Dot(rows[r], Back(m, rows, r + 1)) * Pow2(m - r)
  {
  }

  lemma {:induction false} AddTop(w: nat, b: nat, k: nat)
    requires w % 2 == 1 && w < Pow2(k) && b < 2 && k > 0
    ensures (w + b * Pow2(k)) % 2 == 1 && w + b * Pow2(k) < Pow2(k + 1)
  {
    Pow2Double(k + 1);
    Pow2Double(k);
    DoubleProduct(b, Pow2(k - 1));
  }

  /** The result satisfies the rows from r on, also when higher bits are added to it. */
  lemma {:induction false} BackSolves(m: nat, rows: seq<nat>, r: nat, q: nat, c: nat)
    requires Triangular(m, rows) && r <= m
    ensures Back(m, rows, r) % 2 == 1 && Back(m, rows, r) < Pow2(m - r + 1)
    ensures r <= q < m ==> Dot(rows[q], Back(m, rows, r) + c * Pow2(m - r + 1)) == 0
    decreases m - r
  {
    hide Dot, Back;
    if r == m {
      BackOne(m, rows);
      Pow2Double(1);
    } else {
      BackStep(m, rows, r);
      var w, k := Back(m, rows, r + 1), m - r;
      var b := Dot(rows[r], w);
      BackSolves(m, rows, r + 1, q, b + 2 * c);
      Pow2Double(k + 1);
      AddTop(w, b, k);
      HigherBits(w, b, c, Pow2(k));
      if q == r {
        DotLeading(rows[r], w, k, b);
        DotHigh(rows[r], w + b * Pow2(k), c, k + 1);
      }
    }
  }

  lemma {:induction false} HigherBits(w: nat, b: nat, c: nat, p: nat)
    ensures w + (b + 2 * c) * p == (w + b * p) + c * (2 * p)
  {
  }

  lemma {:induction false} BackOne(m: nat, rows: seq<nat>)
    requires |rows| == m
    ensures Back(m, rows, m) == 1 && Pow2(0) == 1
  {
  }

  /** A number that satisfies a row is determined one bit further. */
  lemma {:induction false} OneBitMore(a: nat, w: nat, v: nat, k: nat)
    requires Pow2(k) <= a < Pow2(k + 1) && w % Pow2(k) == v && Dot(a, w) == 0
    ensures w % Pow2(k + 1) == v + Dot(a, v) * Pow2(k)
  {
    Pow2Double(k + 1);
    var p := Pow2(k);
    hide Dot, Pow2;
    SplitTop(w, p);
    var b, c := w / p % 2, w / p / 2;
    HigherBits(v, b, c, p);
    DotHigh(a, v + b * p, c, k + 1);
    DotLeading(a, v, k, b);
    BitBelow(v, b, p);
    DivModUnique(w, 2 * p, c, v + b * p);
  }

  lemma {:induction false} BitBelow(v: nat, b: nat, p: nat)
    requires v < p && b < 2
    ensures v + b * p < 2 * p && b * p >= 0
  {
  }

  /** Every number that satisfies the rows from r on agrees with the result in its lower bits. */
  lemma {:induction false} BackUnique(m: nat, rows: seq<nat>, r: nat, w: nat)
    requires Triangular(m, rows) && r <= m && w % 2 == 1 && forall q :: r <= q < m ==> Dot(rows[q], w) == 0
    ensures w % Pow2(m - r + 1) == Back(m, rows, r)
    decreases m - r
  {
    if r == m { assert Pow2(1) == 2; }
    hide Dot, Back, Pow2;
    if r == m {
      BackOne(m, rows);
    } else {
      BackStep(m, rows, r);
      BackUnique(m, rows, r + 1, w);
      OneBitMore(rows[r], w, Back(m, rows, r + 1), m - r);
    }
  }

  lemma {:induction false} SplitTop(w: nat, p: nat)
    requires p > 0
    ensures w == w % p + (w / p % 2 + 2 * (w / p / 2)) * p && w / p >= 0
  {
    var q := w / p;
    assert q == q % 2 + 2 * (q / 2);
    assert w == q * p + w % p;
  }

  /** A triangular system has exactly one solution. */
  lemma {:induction false} TriangularSolution(m: nat, rows: seq<nat>, w: nat)
    requires Triangular(m, rows)
    ensures IsPoint(m, Back(m, rows, 0)) && Solves(rows, Back(m, rows, 0))
    ensures IsPoint(m, w) && Solves(rows, w) ==> w == Back(m, rows, 0)
  {
    hide Dot, Back, Pow2;
    BackSolves(m, rows, 0, 0, 0);
    forall q | 0 <= q < m ensures Dot(rows[q], Back(m, rows, 0)) == 0 { BackSolves(m, rows, 0, q, 0); }
    if IsPoint(m, w) && Solves(rows, w) {
      BackUnique(m, rows, 0, w);
      ModBelow(w, Pow2(m + 1));
    }
  }

  method BackSubstitute(m: nat, rows: array<nat>) returns (x: nat)
    requires rows.Length >= m && Triangular(m, rows[..m])
    ensures 2 * x + 1 == Back(m, rows[..m], 0)
  {
    hide Dot, Back, Triangular;
    ghost var q := rows[..m];
    BackOne(m, q);
    var tmp := 0;
    var r := m;
    while r > 0
      invariant 0 <= r <= m && tmp % 2 == 0 && tmp + 1 == Back(m, q, r)
    {
      r := r - 1;
      BackStep(m, q, r);
      BackSolves(m, q, r, r, 0);
      tmp := tmp + Dot(rows[r], tmp + 1) * Pow2(m - r);
    }
    x := tmp / 2;
  }
}
