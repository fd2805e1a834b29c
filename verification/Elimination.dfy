/** Gaussian elimination over GF(2), and all the solutions of a system that has as many as expected. */
module Elimination {
  import opened Arithmetic
  import opened Gf2
  import opened LinearSystem

  ghost predicate SameSolutions(a: seq<nat>, b: seq<nat>) {
    forall w: nat :: Solves(a, w) <==> Solves(b, w)
  }

  lemma {:induction false} SameTrans(a: seq<nat>, b: seq<nat>, c: seq<nat>)
    requires SameSolutions(a, b) && SameSolutions(b, c)
    ensures SameSolutions(a, c)
  {
    hide Solves;
  }

  lemma {:induction false} SameSelf(a: seq<nat>)
    ensures SameSolutions(a, a)
  {
  }

  lemma {:induction false} SwapSame(a: seq<nat>, p: nat, r: nat)
    requires p < |a| && r < |a|
    ensures SameSolutions(a, a[p := a[r]][r := a[p]])
  {
    hide Dot;
    var b := a[p := a[r]][r := a[p]];
    forall w: nat ensures Solves(a, w) <==> Solves(b, w) {
      if Solves(a, w) {
        assert Solves(b, w);
      } else if Solves(b, w) {
        assert b[p] == a[r] && b[r] == a[p];
        forall q | 0 <= q < |a| ensures Dot(a[q], w) == 0 {
          assert q == p || q == r || b[q] == a[q];
        }
      }
    }
  }

  lemma {:induction false} AddSame(a: seq<nat>, p: nat, r: nat)
    requires p < |a| && r < |a| && p != r
    ensures SameSolutions(a, a[r := Xor(a[r], a[p])])
  {
    hide Dot, Xor;
    var b := a[r := Xor(a[r], a[p])];
    forall w: nat ensures Solves(a, w) <==> Solves(b, w) {
      DotXor(a[r], a[p], w);
      assert b[p] == a[p] && b[r] == Xor(a[r], a[p]);
      if Solves(b, w) {
        forall q | 0 <= q < |a| ensures Dot(a[q], w) == 0 {
          assert q == r || b[q] == a[q];
        }
      }
    }
  }

  lemma {:induction false} TopBit(x: nat, k: nat)
    requires x < Pow2(k + 1)
    ensures Bit(x, k) == 1 <==> x >= Pow2(k)
  {
    Pow2Double(k + 1);
    var p := Pow2(k);
    hide Pow2;
    DivModUnique(x, p, if x >= p then 1 else 0, if x >= p then x - p else x);
  }

  /** Rows from p on without the unknowns before column c. */
  ghost predicate Below(m: nat, rows: seq<nat>, p: nat, c: nat)
    requires c <= m
  {
    forall r :: p <= r < |rows| ==> rows[r] < Pow2(m - c + 1)
  }

  /** One column: a row that has the unknown moves to position p, and the unknown is removed from the rows after it. */
  method EliminateColumn(m: nat, rows: array<nat>, p: nat, c: nat) returns (found: bool)
    requires p <= c < m == rows.Length && Below(m, rows[..], p, c)
    modifies rows
    ensures SameSolutions(old(rows[..]), rows[..]) && forall r :: 0 <= r < p ==> rows[r] == old(rows[r])
    ensures found ==> Pow2(m - c) <= rows[p] < Pow2(m - c + 1) && Below(m, rows[..], p + 1, c + 1)
    ensures !found ==> Below(m, rows[..], p, c + 1)
  {
    hide Dot, Bit, Pow2, Xor, SameSolutions;
    var k := m - c;
    SameSelf(rows[..]);
    forall q | p <= q < m ensures rows[q] < Pow2(k + 1) { assert rows[..][q] == rows[q]; }
    var r := p;
    while r < m && Bit(rows[r], k) == 0
      invariant p <= r <= m && rows[..] == old(rows[..])
      invariant forall q :: p <= q < r ==> rows[q] < Pow2(k)
      invariant forall q :: r <= q < m ==> rows[q] < Pow2(k + 1)
    {
      TopBit(rows[r], k);
      r := r + 1;
    }
    found := r < m;
    if found {
      TopBit(rows[r], k);
      SwapSame(rows[..], p, r);
      ghost var was := rows[..];
      rows[p], rows[r] := rows[r], rows[p];
      assert rows[..] == was[p := was[r]][r := was[p]];
      ClearColumn(m, rows, p, r + 1, k);
      SameTrans(was, was[p := was[r]][r := was[p]], rows[..]);
    }
  }

  method ClearColumn(m: nat, rows: array<nat>, p: nat, rem: nat, k: nat)
    requires p < rem <= m == rows.Length && Pow2(k) <= rows[p] < Pow2(k + 1)
    requires forall q :: p < q < rem ==> rows[q] < Pow2(k)
    requires forall q :: rem <= q < m ==> rows[q] < Pow2(k + 1)
    modifies rows
    ensures SameSolutions(old(rows[..]), rows[..]) && forall r :: 0 <= r <= p ==> rows[r] == old(rows[r])
    ensures forall q :: p < q < m ==> rows[q] < Pow2(k)
  {
    hide Dot, Bit, Pow2, Xor, SameSolutions;
    SameSelf(rows[..]);
    var tmp := rows[p];
    for r := rem to m
      invariant SameSolutions(old(rows[..]), rows[..]) && forall r :: 0 <= r <= p ==> rows[r] == old(rows[r])
      invariant forall q :: p < q < r ==> rows[q] < Pow2(k)
      invariant forall q :: r <= q < m ==> rows[q] < Pow2(k + 1)
    {
      TopBit(rows[r], k);
      if Bit(rows[r], k) != 0 {
        XorTop(rows[r], tmp, k);
        AddSame(rows[..], p, r);
        ghost var was := rows[..];
        rows[r] := Xor(rows[r], tmp);
        assert rows[..] == was[r := Xor(was[r], was[p])];
        SameTrans(old(rows[..]), was, rows[..]);
      }
    }
  }

  // ----- columns with and without a row of their own

  /** a and b together list the numbers below n, each in order. */
  ghost predicate Split(a: seq<nat>, b: seq<nat>, n: nat) {
    if n == 0 then a == [] && b == []
    else
      || (a != [] && a[|a| - 1] == n - 1 && Split(a[..|a| - 1], b, n - 1))
      || (b != [] && b[|b| - 1] == n - 1 && Split(a, b[..|b| - 1], n - 1))
  }

  lemma {:induction false} SplitBounds(a: seq<nat>, b: seq<nat>, n: nat)
    requires Split(a, b, n)
    ensures |a| + |b| == n
    ensures forall i :: 0 <= i < |a| ==> a[i] < n
    ensures forall i :: 0 <= i < |b| ==> b[i] < n
  {
    if n > 0 {
      if a != [] && a[|a| - 1] == n - 1 && Split(a[..|a| - 1], b, n - 1) {
        var a' := a[..|a| - 1];
        SplitBounds(a', b, n - 1);
        forall i | 0 <= i < |a| ensures a[i] < n { assert i < |a'| ==> a'[i] == a[i]; }
      } else {
        var b' := b[..|b| - 1];
        SplitBounds(a, b', n - 1);
        forall i | 0 <= i < |b| ensures b[i] < n { assert i < |b'| ==> b'[i] == b[i]; }
      }
    }
  }

  /** Every column is on exactly one of the lists. */
  lemma {:induction false} SplitCover(a: seq<nat>, b: seq<nat>, n: nat, c: nat)
    requires Split(a, b, n) && c < n
    ensures c in a <==> c !in b
  {
    SplitBounds(a, b, n);
    if a != [] && a[|a| - 1] == n - 1 && Split(a[..|a| - 1], b, n - 1) {
      SplitBounds(a[..|a| - 1], b, n - 1);
      if c < n - 1 { SplitCover(a[..|a| - 1], b, n - 1, c); }
      assert a == a[..|a| - 1] + [n - 1];
    } else {
      SplitBounds(a, b[..|b| - 1], n - 1);
      if c < n - 1 { SplitCover(a, b[..|b| - 1], n - 1, c); }
      assert b == b[..|b| - 1] + [n - 1];
    }
  }

  lemma {:induction false} SplitDistinct(a: seq<nat>, b: seq<nat>, n: nat, i: nat, j: nat)
    requires Split(a, b, n)
    ensures i < j < |a| ==> a[i] < a[j]
    ensures i < j < |b| ==> b[i] < b[j]
  {
    if n > 0 {
      if a != [] && a[|a| - 1] == n - 1 && Split(a[..|a| - 1], b, n - 1) {
        SplitDistinct(a[..|a| - 1], b, n - 1, i, j);
        SplitBounds(a[..|a| - 1], b, n - 1);
        assert i < |a| - 1 ==> a[..|a| - 1][i] == a[i];
      } else {
        SplitDistinct(a, b[..|b| - 1], n - 1, i, j);
        SplitBounds(a, b[..|b| - 1], n - 1);
        assert i < |b| - 1 ==> b[..|b| - 1][i] == b[i];
      }
    }
  }

  lemma {:induction false} SplitMore(a: seq<nat>, b: seq<nat>, n: nat)
    requires Split(a, b, n)
    ensures Split(a + [n], b, n + 1) && Split(a, b + [n], n + 1)
  {
    assert (a + [n])[..|a|] == a && (b + [n])[..|b|] == b;
  }

  lemma {:induction false} SplitLast(a: seq<nat>, b: seq<nat>, n: nat)
    requires Split(a, b, n) && n > 0
    ensures a != [] && a[|a| - 1] == n - 1 ==> Split(a[..|a| - 1], b, n - 1)
    ensures !(a != [] && a[|a| - 1] == n - 1) ==> b != [] && b[|b| - 1] == n - 1 && Split(a, b[..|b| - 1], n - 1)
  {
    if a != [] && a[|a| - 1] == n - 1 && !Split(a[..|a| - 1], b, n - 1) {
      SplitBounds(a, b[..|b| - 1], n - 1);
    }
  }

  /** Row q begins with the unknown of column piv[q]. */
  ghost predicate Pivots(m: nat, rows: seq<nat>, piv: seq<nat>) {
    |piv| <= |rows| && forall q :: 0 <= q < |piv| ==> piv[q] < m && Pow2(m - piv[q]) <= rows[q] < Pow2(m - piv[q] + 1)
  }

  /** The elimination loop; the columns without a row of their own are returned. */
  method Eliminate(m: nat, rows: array<nat>) returns (param: seq<nat>, ghost piv: seq<nat>)
    requires rows.Length == m && forall r :: 0 <= r < m ==> rows[r] < Pow2(m + 1)
    modifies rows
    ensures SameSolutions(old(rows[..]), rows[..]) && Split(param, piv, m) && |param| + |piv| == m
    ensures Pivots(m, rows[..], piv) && forall r :: |piv| <= r < m ==> rows[r] < 2
  {
    hide Dot, Bit, Pow2, Xor, SameSolutions, Split;
    param, piv := [], [];
    SplitStart();
    SameSelf(rows[..]);
    for c := 0 to m
      invariant SameSolutions(old(rows[..]), rows[..]) && Split(param, piv, c) && |param| + |piv| == c
      invariant Pivots(m, rows[..], piv) && Below(m, rows[..], |piv|, c)
    {
      ghost var was := rows[..];
      var p := c - |param|;
      var found := EliminateColumn(m, rows, p, c);
      SameTrans(old(rows[..]), was, rows[..]);
      SplitMore(param, piv, c);
      if found {
        piv := piv + [c];
      } else {
        param := param + [c];
      }
    }
    OneBit();
  }

  lemma {:induction false} OneBit()
    ensures Pow2(1) == 2
  {
  }

  lemma {:induction false} SplitStart()
    ensures Split([], [], 0)
  {
  }

  // ----- one row per unknown

  /** Every column has its row: that of its pivot, or one for the unknown alone. */
  ghost predicate Placed(m: nat, rows: seq<nat>, param: seq<nat>, piv: seq<nat>, q: seq<nat>)
    requires |piv| <= |rows|
  {
    && |q| == m
    && (forall i :: 0 <= i < |param| ==> param[i] < m && q[param[i]] == Pow2(m - param[i]))
    && forall i :: 0 <= i < |piv| ==> piv[i] < m && q[piv[i]] == rows[i]
  }

  /** As Placed, for the columns from n on. */
  ghost predicate PlacedFrom(m: nat, rows: seq<nat>, param: seq<nat>, p: nat, piv: seq<nat>, s: nat, n: nat,
                             q: seq<nat>)
    requires |piv| <= |rows|
  {
    && |q| == m
    && (forall i :: p <= i < |param| ==> n <= param[i] < m && q[param[i]] == Pow2(m - param[i]))
    && forall i :: s <= i < |piv| ==> n <= piv[i] < m && q[piv[i]] == rows[i]
  }

  lemma {:induction false} PlaceParam(m: nat, rows: seq<nat>, param: seq<nat>, p: nat, piv: seq<nat>, s: nat, n: nat,
                                      q: seq<nat>)
    requires |piv| <= |rows| && 0 < p <= |param| && 0 < n <= m && param[p - 1] == n - 1
    requires PlacedFrom(m, rows, param, p, piv, s, n, q)
    ensures PlacedFrom(m, rows, param, p - 1, piv, s, n - 1, q[n - 1 := Pow2(m - (n - 1))])
  {
    hide Pow2;
  }

  lemma {:induction false} PlacePivot(m: nat, rows: seq<nat>, param: seq<nat>, p: nat, piv: seq<nat>, s: nat, n: nat,
                                      q: seq<nat>)
    requires 0 < s <= |piv| <= |rows| && p <= |param| && 0 < n <= m && piv[s - 1] == n - 1
    requires PlacedFrom(m, rows, param, p, piv, s, n, q)
    ensures PlacedFrom(m, rows, param, p, piv, s - 1, n - 1, q[n - 1 := rows[s - 1]])
  {
    hide Pow2;
  }

  /** Moves every row to the position of its column and fills the gaps; fails if a row says 0 = 1. */
  method InsertParams(m: nat, rows: array<nat>, param: seq<nat>, ghost piv: seq<nat>) returns (ok: bool)
    requires rows.Length == m && Split(param, piv, m) && |param| + |piv| == m
    modifies rows
    ensures ok <==> forall r :: |piv| <= r < m ==> old(rows[r]) == 0
    ensures ok ==> Placed(m, old(rows[..]), param, piv, rows[..])
  {
    hide Pow2, Split, PlacedFrom;
    ghost var was := rows[..];
    var k := |param|;
    var p := k;
    var n := m;
    assert param[..p] == param && piv[..n - p] == piv;
    PlacedNone(m, was, param, piv, rows[..]);
    while n > 0
      invariant 0 <= n <= m && 0 <= p <= k && 0 <= n - p <= |piv| && rows.Length == m
      invariant forall x :: 0 <= x < n ==> rows[x] == was[x]
      invariant forall x :: n <= x < m && x >= m - k ==> was[x] == 0
      invariant Split(param[..p], piv[..n - p], n) && PlacedFrom(m, was, param, p, piv, n - p, n, rows[..])
    {
      var r := n - 1;
      if r > m - 1 - k && rows[r] != 0 { return false; }
      SplitLast(param[..p], piv[..n - p], n);
      if p > 0 && r == param[p - 1] {
        PlaceParam(m, was, param, p, piv, n - p, n, rows[..]);
        assert param[..p][..p - 1] == param[..p - 1];
        rows[r] := Pow2(m - r);
        p := p - 1;
      } else {
        PlacePivot(m, was, param, p, piv, n - p, n, rows[..]);
        assert piv[..n - p][..n - p - 1] == piv[..n - p - 1];
        rows[r] := rows[r - p];
      }
      n := n - 1;
    }
    SplitBounds(param[..p], piv[..n - p], 0);
    PlacedAll(m, was, param, piv, rows[..]);
    ok := true;
  }

  lemma {:induction false} PlacedNone(m: nat, rows: seq<nat>, param: seq<nat>, piv: seq<nat>, q: seq<nat>)
    requires |piv| <= |rows| && |q| == m
    ensures PlacedFrom(m, rows, param, |param|, piv, |piv|, m, q)
  {
  }

  lemma {:induction false} PlacedAll(m: nat, rows: seq<nat>, param: seq<nat>, piv: seq<nat>, q: seq<nat>)
    requires |piv| <= |rows| && PlacedFrom(m, rows, param, 0, piv, 0, 0, q)
    ensures Placed(m, rows, param, piv, q)
  {
  }
}
