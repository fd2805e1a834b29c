/** Roots of X^4 + a X^2 + b X + c: the polynomial without c is additive, so its roots are the solutions of a linear
    system over GF(2). */
module AffineRoots {
  import opened Common
  import opened Arithmetic
  import opened Gf2
  import opened GaloisField
  import opened FieldLaws
  import opened TraceMap
  import opened LinearSystem
  import opened LinearSolve
  import opened BitMatrix

  ghost function Linear(F: Field, a: nat, b: nat, x: nat): (y: nat)
    requires F.Ok() && F.El(a) && F.El(b) && F.El(x)
    ensures F.El(y)
  {
    var s, p, q := GfSqr(F, GfSqr(F, x)), GfMul(F, a, GfSqr(F, x)), GfMul(F, b, x);
    XorBound(s, p, F.m);
    XorBound(Xor(s, p), q, F.m);
    Xor(Xor(s, p), q)
  }

  ghost predicate IsAffineRoot(F: Field, a: nat, b: nat, c: nat, x: nat)
    requires F.Ok() && F.El(a) && F.El(b)
  {
    F.El(x) && Linear(F, a, b, x) == c
  }

  lemma {:induction false} LinearDef(F: Field, a: nat, b: nat, x: nat)
    requires F.Ok() && F.El(a) && F.El(b) && F.El(x)
    ensures Linear(F, a, b, x) == Xor(Xor(GfSqr(F, GfSqr(F, x)), GfMul(F, a, GfSqr(F, x))), GfMul(F, b, x))
  {
  }

  lemma {:induction false} LinearAdd(F: Field, a: nat, b: nat, x: nat, y: nat)
    requires F.Ok() && F.El(a) && F.El(b) && F.El(x) && F.El(y)
    ensures F.El(Xor(x, y)) && Linear(F, a, b, Xor(x, y)) == Xor(Linear(F, a, b, x), Linear(F, a, b, y))
  {
    hide F.Ok, GfSqr, GfMul, Xor, Pow2, Linear;
    XorBound(x, y, F.m);
    LinearDef(F, a, b, x);
    LinearDef(F, a, b, y);
    LinearDef(F, a, b, Xor(x, y));
    SqrXor(F, x, y);
    var u, v := GfSqr(F, x), GfSqr(F, y);
    SqrXor(F, u, v);
    MulDistrib(F, a, u, v);
    MulDistrib(F, b, x, y);
    var s, s' := GfSqr(F, u), GfSqr(F, v);
    var p, p' := GfMul(F, a, u), GfMul(F, a, v);
    XorSwap4(s, s', p, p');
    XorSwap4(Xor(s, p), Xor(s', p'), GfMul(F, b, x), GfMul(F, b, y));
  }

  lemma {:induction false} LinearZero(F: Field, a: nat, b: nat)
    requires F.Ok() && F.El(a) && F.El(b)
    ensures F.El(0) && Linear(F, a, b, 0) == 0
  {
    hide *;
    FieldShape(F);
    LinearAdd(F, a, b, 0, 0);
    XorSelf(0);
    XorSelf(Linear(F, a, b, 0));
  }

  // ----- combinations of the rows

  /** The sum of the values chosen by the bits of w. */
  ghost function Combine(vals: seq<nat>, w: nat, n: nat): nat
    requires n <= |vals|
  {
    if n == 0 then 0 else Xor(Combine(vals, w, n - 1), if Bit(w, n - 1) == 1 then vals[n - 1] else 0)
  }

  lemma {:induction false} CombineStep(vals: seq<nat>, w: nat, n: nat)
    requires n < |vals|
    ensures Combine(vals, w, 0) == 0
    ensures Combine(vals, w, n + 1) == Xor(Combine(vals, w, n), if Bit(w, n) == 1 then vals[n] else 0)
  {
  }

  /** A row without its leading bit. */
  lemma {:induction false} DotTop(row: nat, w: nat, n: nat)
    ensures row % Pow2(n) >= 0 && Dot(row % Pow2(n + 1), w) == (Dot(row % Pow2(n), w) + Bit(row, n) * Bit(w, n)) % 2
  {
    hide Dot, Xor;
    var p := Pow2(n);
    Pow2Double(n + 1);
    SplitTop(row, p);
    var b, v, c := Bit(row, n), row % p, row / p / 2;
    hide Pow2;
    HigherBits(v, b, c, p);
    BitBelow(v, b, p);
    DivModUnique(row, 2 * p, c, v + b * p);
    XorDisjoint(b, v, n);
    DotXor(b * p, v, w);
    if b == 1 {
      DotPower(n, w);
    } else {
      DotZero(w);
    }
  }

  lemma {:induction false} AddBits(x: nat, y: nat, v: nat, r: nat, b: nat)
    requires y == (if b == 1 then v else 0) && b < 2
    ensures Bit(Xor(x, y), r) == (Bit(x, r) + Bit(v, r) * b) % 2
  {
    hide Bit, Xor;
    BitXor(x, y, r);
    BitZero(r);
  }

  /** Bit r of a combination is the parity of row r of the transposed matrix with the choice. */
  lemma {:induction false} CombineBits(vals: seq<nat>, rows: seq<nat>, w: nat, r: nat, n: nat)
    requires Transposed(vals, rows) && r < 16 && n <= 16
    ensures rows[r] % Pow2(n) >= 0 && Dot(rows[r] % Pow2(n), w) == Bit(Combine(vals, w, n), r)
  {
    if n == 0 {
      NoRows(vals, rows[r], w, r);
    } else {
      hide Bit, Dot, Combine, Xor, Pow2, Transposed;
      TransposedAt(vals, rows, r, n - 1);
      CombineBits(vals, rows, w, r, n - 1);
      CombineStep(vals, w, n - 1);
      DotTop(rows[r], w, n - 1);
      AddBits(Combine(vals, w, n - 1), if Bit(w, n - 1) == 1 then vals[n - 1] else 0, vals[n - 1], r, Bit(w, n - 1));
    }
  }

  lemma {:induction false} TransposedAt(vals: seq<nat>, rows: seq<nat>, r: nat, i: nat)
    requires Transposed(vals, rows) && r < 16 && i < 16
    ensures |vals| == |rows| == 16 && Bit(rows[r], i) == Bit(vals[i], r)
  {
  }

  lemma {:induction false} NoRows(vals: seq<nat>, row: nat, w: nat, r: nat)
    ensures row % Pow2(0) >= 0 && Dot(row % Pow2(0), w) == Bit(Combine(vals, w, 0), r)
  {
    assert Pow2(0) == 1 && Combine(vals, w, 0) == 0;
    DotZero(w);
    BitZero(r);
  }

  /** The rows hold the constant and the values of the additive part at the powers of a. */
  ghost predicate RowsOk(F: Field, a: nat, b: nat, c: nat, vals: seq<nat>)
    requires F.Ok() && F.El(a) && F.El(b)
  {
    && F.m <= 15 && |vals| == 16 && vals[0] == c
         && (forall i: nat :: i < F.m ==> vals[i + 1] == Linear(F, a, b, A(F, i)))
    && forall i :: F.m < i < 16 ==> vals[i] == 0
  }

  lemma {:induction false} LowBits(x: nat, n: nat)
    ensures x % Pow2(n + 1) == (if Bit(x, n) == 1 then x % Pow2(n) + Pow2(n) else x % Pow2(n)) && x % Pow2(n) < Pow2(n)
  {
    var p := Pow2(n);
    Pow2Double(n + 1);
    SplitTop(x, p);
    hide Pow2;
    var b, v, c := x / p % 2, x % p, x / p / 2;
    HigherBits(v, b, c, p);
    BitBelow(v, b, p);
    DivModUnique(x, 2 * p, c, v + b * p);
  }

  lemma {:induction false} CombineFirst(F: Field, a: nat, b: nat, c: nat, vals: seq<nat>, x: nat)
    requires F.Ok() && F.El(a) && F.El(b) && F.El(x) && RowsOk(F, a, b, c, vals)
    ensures F.El(x % Pow2(0)) && Combine(vals, 2 * x + 1, 1) == Xor(c, Linear(F, a, b, x % Pow2(0)))
  {
    assert Bit(2 * x + 1, 0) == 1 && Pow2(0) == 1 && x % 1 == 0;
    hide Bit, Xor, Combine, Linear, F.Ok;
    CombineStep(vals, 2 * x + 1, 0);
    XorZero(c);
    LinearZero(F, a, b);
  }

  lemma {:induction false} BitRange(F: Field, v: nat, k: nat)
    requires v < Pow2(k) && k < F.m
    ensures F.El(v) && F.El(Pow2(k)) && F.El(v + Pow2(k)) && Xor(Pow2(k), v) == v + Pow2(k)
  {
    Pow2Double(k + 1);
    Pow2Mono(k + 1, F.m);
    hide Xor, Pow2;
    XorDisjoint(1, v, k);
  }

  lemma {:induction false} AddLast(c: nat, u: nat, p: nat, y: nat)
    requires y == Xor(p, u)
    ensures Xor(Xor(c, u), p) == Xor(c, y)
  {
    hide Xor;
    XorComm(p, u);
    XorAssoc(c, u, p);
  }

  /** One more bit of x. */
  lemma {:induction false} AddOne(F: Field, a: nat, b: nat, c: nat, v: nat, d: nat, k: nat, y: nat)
    requires F.Ok() && F.El(a) && F.El(b) && F.El(v) && F.El(Pow2(k)) && F.El(y)
    requires v < Pow2(k) && k < F.m && y == (if d == 1 then v + Pow2(k) else v)
    ensures Xor(Xor(c, Linear(F, a, b, v)), if d == 1 then Linear(F, a, b, Pow2(k)) else 0)
            == Xor(c, Linear(F, a, b, y))
  {
    hide *;
    if d == 1 {
      BitRange(F, v, k);
      LinearAdd(F, a, b, Pow2(k), v);
      AddLast(c, Linear(F, a, b, v), Linear(F, a, b, Pow2(k)), Linear(F, a, b, y));
    } else {
      XorZero(Xor(c, Linear(F, a, b, v)));
    }
  }

  lemma {:induction false} RowAt(F: Field, a: nat, b: nat, c: nat, vals: seq<nat>, k: nat)
    requires F.Ok() && F.El(a) && F.El(b) && RowsOk(F, a, b, c, vals) && k < F.m
    ensures F.m <= 15 && |vals| == 16 && F.El(Pow2(k)) && vals[k + 1] == Linear(F, a, b, Pow2(k))
  {
    hide Linear, F.Ok, A;
    ABit(F, k);
  }

  lemma {:induction false} LowIn(F: Field, x: nat, n: nat)
    requires F.El(x)
    ensures x % Pow2(n) >= 0 && F.El(x % Pow2(n))
  {
    hide Pow2;
  }

  lemma {:induction false} CombineNext(F: Field, a: nat, b: nat, c: nat, vals: seq<nat>, x: nat, k: nat)
    requires F.Ok() && F.El(a) && F.El(b) && F.El(x) && RowsOk(F, a, b, c, vals) && k < F.m
    requires F.El(x % Pow2(k)) && Combine(vals, 2 * x + 1, k + 1) == Xor(c, Linear(F, a, b, x % Pow2(k)))
    ensures F.El(x % Pow2(k + 1)) && Combine(vals, 2 * x + 1, k + 2) == Xor(c, Linear(F, a, b, x % Pow2(k + 1)))
  {
    hide *;
    LowIn(F, x, k + 1);
    RowAt(F, a, b, c, vals, k);
    CombineStep(vals, 2 * x + 1, k + 1);
    BitStep(2 * x + 1, k + 1);
    assert (2 * x + 1) / 2 == x;
    LowBits(x, k);
    AddOne(F, a, b, c, x % Pow2(k), Bit(x, k), k, x % Pow2(k + 1));
  }

  /** Choosing by the bits of x adds up to the value at x. */
  lemma {:induction false} CombineIs(F: Field, a: nat, b: nat, c: nat, vals: seq<nat>, x: nat, n: nat)
    requires F.Ok() && F.El(a) && F.El(b) && F.El(x) && RowsOk(F, a, b, c, vals) && n <= F.m
    ensures F.El(x % Pow2(n)) && Combine(vals, 2 * x + 1, n + 1) == Xor(c, Linear(F, a, b, x % Pow2(n)))
  {
    if n == 0 {
      CombineFirst(F, a, b, c, vals, x);
    } else {
      CombineIs(F, a, b, c, vals, x, n - 1);
      CombineNext(F, a, b, c, vals, x, n - 1);
    }
  }

  lemma {:induction false} CombineRest(vals: seq<nat>, w: nat, n: nat, k: nat)
    requires n <= k <= |vals| && forall i :: n <= i < |vals| ==> vals[i] == 0
    ensures Combine(vals, w, k) == Combine(vals, w, n)
  {
    hide Bit, Xor;
    if k > n {
      CombineRest(vals, w, n, k - 1);
      XorZero(Combine(vals, w, k - 1));
    }
  }

  lemma {:induction false} WholeCombination(F: Field, a: nat, b: nat, c: nat, vals: seq<nat>, x: nat)
    requires F.Ok() && F.El(a) && F.El(b) && F.El(x) && RowsOk(F, a, b, c, vals)
    ensures Combine(vals, 2 * x + 1, 16) == Xor(c, Linear(F, a, b, x))
  {
    hide Bit, Xor, Combine, Linear, F.Ok, Pow2, A;
    CombineIs(F, a, b, c, vals, x, F.m);
    ModBelow(x, Pow2(F.m));
    CombineRest(vals, 2 * x + 1, F.m + 1, 16);
  }

  /** An element is a root exactly when it solves the transposed system. */
  lemma {:induction false} SystemIs(F: Field, a: nat, b: nat, c: nat, vals: seq<nat>, rows: seq<nat>, x: nat)
    requires F.Ok() && F.El(a) && F.El(b) && F.El(c) && RowsOk(F, a, b, c, vals) && Transposed(vals, rows) && F.El(x)
    ensures Solves(rows[..F.m], 2 * x + 1) <==> Linear(F, a, b, x) == c
  {
    hide Bit, Xor, Combine, Linear, F.Ok, Pow2, A, Dot, RowsOk, Transposed;
    var v, w := Linear(F, a, b, x), 2 * x + 1;
    Sizes(F, a, b, c, vals, rows);
    WholeCombination(F, a, b, c, vals, x);
    forall r: nat | r < F.m ensures Dot(rows[r], w) == Bit(Xor(c, v), r) {
      CombineBits(vals, rows, w, r, 16);
      ModBelow(rows[r], Pow2(16));
    }
    XorBound(c, v, F.m);
    if v == c {
      XorSelf(c);
      forall r | 0 <= r < F.m ensures Dot(rows[..F.m][r], w) == 0 { BitZero(r); }
    } else if Solves(rows[..F.m], w) {
      forall r: nat | r < F.m ensures Bit(Xor(c, v), r) == Bit(0, r) {
        BitZero(r);
        assert Dot(rows[..F.m][r], w) == 0;
      }
      FieldShape(F);
      BitsDetermine(Xor(c, v), 0, F.m);
      XorEqualZero(c, v);
    }
  }

  lemma {:induction false} Sizes(F: Field, a: nat, b: nat, c: nat, vals: seq<nat>, rows: seq<nat>)
    requires F.Ok() && F.El(a) && F.El(b) && RowsOk(F, a, b, c, vals) && Transposed(vals, rows)
    ensures F.m <= 15 && |rows| == 16 && forall r :: 0 <= r < 16 ==> rows[r] < Pow2(16)
  {
  }

  // ----- the system

  lemma {:induction false} FourTimes(m: nat)
    requires m >= 5
    ensures 4 * m < Pow2(m)
  {
    if m > 5 { FourTimes(m - 1); } else { assert Pow2(5) == 32; }
  }

  lemma {:induction false} PowerTerm(F: Field, a: nat, i: nat)
    requires F.Ok() && F.El(a) && i <= F.N()
    ensures a < |F.log| && F.log[a] >= 0 && (a != 0 ==> ModS(F.N(), F.log[a] + i) < |F.pow|)
    ensures GfMul(F, a, A(F, i)) == if a != 0 then F.pow[ModS(F.N(), F.log[a] + i)] else 0
  {
    hide F.Ok, GfMul, A, ModS, Pow2;
    PowEntry(F, 0);
    if a != 0 {
      ALog(F, a);
      MulPowers(F, F.log[a], i);
      AModS(F, F.log[a] + i);
    } else {
      MulZero(F, A(F, i));
    }
  }

  lemma {:induction false} RowValue(F: Field, a: nat, b: nat, i: nat)
    requires F.Ok() && F.El(a) && F.El(b) && i < F.m && F.m >= 5
    ensures 4 * i < F.N() < |F.pow| == |F.log| && a < |F.log| && b < |F.log| && F.log[a] >= 0 && F.log[b] >= 0
    ensures a != 0 ==> ModS(F.N(), F.log[a] + 2 * i) < |F.pow|
    ensures b != 0 ==> ModS(F.N(), F.log[b] + i) < |F.pow|
    ensures Linear(F, a, b, A(F, i))
            == Xor(Xor(F.pow[4 * i], if a != 0 then F.pow[ModS(F.N(), F.log[a] + 2 * i)] else 0),
                                            if b != 0 then F.pow[ModS(F.N(), F.log[b] + i)] else 0)
  {
    hide F.Ok, GfMul, GfSqr, A, ModS, Pow2, Xor, Linear;
    FourTimes(F.m);
    PowEntry(F, 0);
    SqrPower(F, i);
    SqrPower(F, 2 * i);
    ALookup(F, 4 * i);
    PowerTerm(F, a, 2 * i);
    PowerTerm(F, b, i);
    LinearDef(F, a, b, A(F, i));
  }

  /** The loop that builds the linear system. */
  method BuildRows(F: Field, a: nat, b: nat, c: nat) returns (rows: array<nat>)
    requires F.Ok() && 5 <= F.m <= 15 && F.El(a) && F.El(b) && F.El(c)
    ensures fresh(rows) && rows.Length == 16 && RowsOk(F, a, b, c, rows[..])
  {
    hide F.Ok, A, ModS, Pow2, Xor, Linear;
    PowEntry(F, 0);
    rows := new nat[16](_ => 0);
    var j, k := F.log[b], F.log[a];
    rows[0] := c;
    for i := 0 to F.m
      invariant j == F.log[b] + i && k == F.log[a] + 2 * i && rows[0] == c
      invariant forall r: nat :: r < i ==> rows[r + 1] == Linear(F, a, b, A(F, r))
      invariant forall r :: i < r < 16 ==> rows[r] == 0
    {
      RowValue(F, a, b, i);
      rows[i + 1] := Xor(Xor(F.pow[4 * i], if a != 0 then F.pow[ModS(F.N(), k)] else 0), if b != 0
        then F.pow[ModS(F.N(), j)] else 0);
      j, k := j + 1, k + 2;
    }
  }

  lemma {:induction false} HighBit(y: nat, n: nat, i: nat)
    requires y < Pow2(n) && n <= i
    ensures Bit(y, i) == 0
  {
    Pow2Mono(n, i);
    hide Pow2;
    DivModUnique(y, Pow2(i), 0, y);
  }

  /** Zero rows become zero columns. */
  lemma {:induction false} ShortRow(vals: seq<nat>, rows: seq<nat>, n: nat, r: nat)
    requires Transposed(vals, rows) && r < 16 && n <= 16 && forall i :: n <= i < 16 ==> vals[i] == 0
    ensures rows[r] < Pow2(n)
  {
    hide Bit, Pow2;
    var x := rows[r];
    var y, q := x % Pow2(n), x / Pow2(n);
    assert x == y + q * Pow2(n);
    Pow2Mono(n, 16);
    forall i: nat | i < 16 ensures Bit(x, i) == Bit(y, i) {
      if i < n {
        BitKept(y, q, n, i);
      } else {
        HighBit(y, n, i);
        BitZero(r);
        assert Bit(rows[r], i) == Bit(vals[i], r);
      }
    }
    BitsDetermine(x, y, 16);
  }

  /** s lists all roots. */
  ghost predicate AffineRootsAre(F: Field, a: nat, b: nat, c: nat, s: seq<nat>)
    requires F.Ok() && F.El(a) && F.El(b)
  {
    Distinct(s) && forall x: nat :: x in s <==> IsAffineRoot(F, a, b, c, x)
  }

  lemma {:induction false} SameRoots(F: Field, a: nat, b: nat, c: nat, vals: seq<nat>, rows: seq<nat>, s: seq<nat>)
    requires F.Ok() && F.El(a) && F.El(b) && F.El(c) && RowsOk(F, a, b, c, vals) && Transposed(vals, rows)
    ensures F.m <= |rows| && (ListsAll(rows[..F.m], F.m, s) <==> AffineRootsAre(F, a, b, c, s))
  {
    hide F.Ok, Linear, Solves, Bit, RowsOk, Transposed;
    Sizes(F, a, b, c, vals, rows);
    forall x: nat ensures IsSolution(rows[..F.m], F.m, x) <==> IsAffineRoot(F, a, b, c, x) {
      if F.El(x) { SystemIs(F, a, b, c, vals, rows, x); }
    }
  }

  lemma {:induction false} RowsSmall(F: Field, a: nat, b: nat, c: nat, vals: seq<nat>)
    requires F.Ok() && F.El(a) && F.El(b) && F.El(c) && RowsOk(F, a, b, c, vals)
    ensures forall r :: 0 <= r < 16 ==> vals[r] < Pow2(16)
  {
    hide F.Ok, Linear, A;
    Pow2Mono(F.m, 16);
    FieldShape(F);
    forall r | 0 <= r < 16 ensures vals[r] < Pow2(16) {
      if 0 < r <= F.m { assert vals[r - 1 + 1] == Linear(F, a, b, A(F, r - 1)); }
    }
  }

  /** find_affine4_roots: the four roots, if there are four. */
  method FindAffine4Roots(F: Field, a: nat, b: nat, c: nat) returns (roots: seq<nat>)
    requires F.Ok() && 5 <= F.m <= 15 && F.El(a) && F.El(b) && F.El(c)
    ensures roots != [] ==> |roots| == 4 && AffineRootsAre(F, a, b, c, roots)
    ensures roots == [] ==> forall s: seq<nat> :: AffineRootsAre(F, a, b, c, s) ==> |s| != 4
  {
    hide F.Ok, Linear, RowsOk, Transposed, ListsAll, AffineRootsAre, Pow2;
    var rows := BuildRows(F, a, b, c);
    ghost var vals := rows[..];
    RowsSmall(F, a, b, c, vals);
    Transpose(rows);
    ghost var t := rows[..];
    var sys := new nat[F.m](i requires 0 <= i < 16 reads rows => rows[i]);
    assert sys[..] == t[..F.m];
    forall r | 0 <= r < F.m ensures sys[r] < Pow2(F.m + 1) { ShortSystem(F, a, b, c, vals, t, r); }
    roots := SolveLinearSystem(F.m, sys, 4);
    forall s: seq<nat> ensures ListsAll(t[..F.m], F.m, s) <==> AffineRootsAre(F, a, b, c, s) {
      SameRoots(F, a, b, c, vals, t, s);
    }
  }

  lemma {:induction false} ShortSystem(F: Field, a: nat, b: nat, c: nat, vals: seq<nat>, rows: seq<nat>, r: nat)
    requires F.Ok() && F.El(a) && F.El(b) && RowsOk(F, a, b, c, vals) && Transposed(vals, rows) && r < 16
    ensures |rows| == 16 && rows[r] < Pow2(F.m + 1)
  {
    hide F.Ok, Linear, A, Bit, Pow2;
    ShortRow(vals, rows, F.m + 1, r);
  }
}
