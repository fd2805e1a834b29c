/** All solutions of a linear system over GF(2), one for every choice of the free unknowns. */
module LinearSolve {
  import opened Common
  import opened Gf2
  import opened GaloisField
  import opened LinearSystem
  import opened Elimination

  ghost predicate IsSolution(rows: seq<nat>, m: nat, x: nat) {
    x < Pow2(m) && Solves(rows, 2 * x + 1)
  }

  /** s lists every solution once. */
  ghost predicate ListsAll(rows: seq<nat>, m: nat, s: seq<nat>) {
    Distinct(s) && forall x: nat :: x in s <==> IsSolution(rows, m, x)
  }

  lemma {:induction false} SameCount(rows: seq<nat>, m: nat, s: seq<nat>, t: seq<nat>)
    requires ListsAll(rows, m, s) && ListsAll(rows, m, t)
    ensures |s| == |t|
  {
    hide IsSolution;
    assert Elements(s) == Elements(t);
  }

  // ----- bits

  lemma {:induction false} BitKept(v: nat, b: nat, k: nat, i: nat)
    requires i < k
    ensures Bit(v + b * Pow2(k), i) == Bit(v, i)
  {
    hide Dot, Bit;
    Pow2Mono(i + 1, k);
    DotHigh(Pow2(i), v, b, k);
    DotPower(i, v);
    DotPower(i, v + b * Pow2(k));
  }

  lemma {:induction false} BitsDetermine(v: nat, w: nat, k: nat)
    requires v < Pow2(k) && w < Pow2(k) && forall i: nat :: i < k ==> Bit(v, i) == Bit(w, i)
    ensures v == w
  {
    if k > 0 {
      Pow2Double(k);
      forall i: nat | i < k - 1 ensures Bit(v / 2, i) == Bit(w / 2, i) {
        BitStep(v, i + 1);
        BitStep(w, i + 1);
      }
      BitsDetermine(v / 2, w / 2, k - 1);
      assert Bit(v, 0) == v % 2 && Bit(w, 0) == w % 2;
    }
  }

  /** The row of a free unknown says what its value is. */
  lemma {:induction false} ParamRow(k: nat, b: nat, w: nat)
    requires k > 0 && b < 2 && w % 2 == 1
    ensures Dot(Pow2(k) + b, w) == 0 <==> Bit(w, k) == b
    ensures Pow2(k) <= Pow2(k) + b < Pow2(k + 1)
  {
    hide Dot, Bit;
    Pow2Mono(1, k);
    Pow2Double(k + 1);
    assert Pow2(1) == 2;
    XorDisjoint(1, b, k);
    DotXor(Pow2(k), b, w);
    DotPower(k, w);
    DotOne(w);
    DotZero(w);
  }

  /** The values of the free unknowns, as one number. */
  ghost function PickBits(m: nat, param: seq<nat>, w: nat): (p: nat)
    requires forall i :: 0 <= i < |param| ==> param[i] < m
  {
    if param == [] then 0
    else
      var k := |param| - 1;
      PickBits(m, param[..k], w) + Bit(w, m - param[k]) * Pow2(k)
  }

  lemma {:induction false} PickBit(m: nat, param: seq<nat>, w: nat, i: nat)
    requires forall i :: 0 <= i < |param| ==> param[i] < m
    ensures PickBits(m, param, w) < Pow2(|param|)
    ensures i < |param| ==> Bit(PickBits(m, param, w), i) == Bit(w, m - param[i])
  {
    hide Bit;
    if param != [] {
      var k := |param| - 1;
      var v, b := PickBits(m, param[..k], w), Bit(w, m - param[k]);
      PickBit(m, param[..k], w, i);
      Pow2Double(k + 1);
      BitBelow(v, b, Pow2(k));
      if i < k {
        BitKept(v, b, k, i);
      } else if i == k {
        BitOfSum(v, b, k);
      }
    }
  }

  // ----- assignments of the free unknowns

  ghost function IndexOf(s: seq<nat>, x: nat): (i: nat)
    requires x in s
    ensures i < |s| && s[i] == x
  {
    var i :| 0 <= i < |s| && s[i] == x;
    i
  }

  /** The system with the free unknowns set to the bits of p. */
  ghost function Assign(m: nat, q: seq<nat>, param: seq<nat>, p: nat): (a: seq<nat>)
    requires |q| == m
    ensures |a| == m
    ensures forall r :: 0 <= r < m ==> a[r] == if r in param then q[r] + Bit(p, IndexOf(param, r)) else q[r]
  {
    seq(m, r requires 0 <= r < m => if r in param then q[r] + Bit(p, IndexOf(param, r)) else q[r])
  }

  /** Everything known about the system once every column has its row. */
  ghost predicate Ready(m: nat, rows: seq<nat>, param: seq<nat>, piv: seq<nat>, q: seq<nat>) {
    && |rows| == m && |param| + |piv| == m && Split(param, piv, m) && Pivots(m, rows, piv)
       && Placed(m, rows, param, piv, q)
    && forall r :: |piv| <= r < m ==> rows[r] == 0
  }

  lemma {:induction false} ParamIndex(m: nat, param: seq<nat>, piv: seq<nat>, i: nat)
    requires Split(param, piv, m) && i < |param|
    ensures param[i] < m && param[i] in param && IndexOf(param, param[i]) == i
  {
    SplitBounds(param, piv, m);
    var j := IndexOf(param, param[i]);
    if i < j { SplitDistinct(param, piv, m, i, j); }
    if j < i { SplitDistinct(param, piv, m, j, i); }
  }

  lemma {:induction false} PivotIndex(m: nat, param: seq<nat>, piv: seq<nat>, r: nat)
    requires Split(param, piv, m) && r < m && r !in param
    ensures r in piv
  {
    SplitCover(param, piv, m, r);
  }

  lemma {:induction false} PivotRange(m: nat, rows: seq<nat>, param: seq<nat>, piv: seq<nat>, q: seq<nat>, r: nat)
    requires Ready(m, rows, param, piv, q) && r < m && r !in param
    ensures Pow2(m - r) <= q[r] < Pow2(m - r + 1)
  {
    hide Pow2, Split;
    PivotIndex(m, param, piv, r);
    var i := IndexOf(piv, r);
    assert q[piv[i]] == rows[i];
  }

  lemma {:induction false} ParamRange(m: nat, rows: seq<nat>, param: seq<nat>, piv: seq<nat>, q: seq<nat>, r: nat,
                                      b: nat)
    requires Ready(m, rows, param, piv, q) && r < m && r in param && b < 2
    ensures Pow2(m - r) <= q[r] + b < Pow2(m - r + 1)
  {
    hide Pow2, Split;
    var i := IndexOf(param, r);
    assert q[param[i]] == Pow2(m - param[i]);
    ParamRow(m - r, b, 1);
  }

  lemma {:induction false} AssignTriangular(m: nat, rows: seq<nat>, param: seq<nat>, piv: seq<nat>, q: seq<nat>, p: nat)
    requires Ready(m, rows, param, piv, q)
    ensures Triangular(m, Assign(m, q, param, p))
  {
    assert |q| == m;
    hide Pow2, Bit, Ready;
    var a := Assign(m, q, param, p);
    hide Assign;
    forall r | 0 <= r < m ensures Pow2(m - r) <= a[r] < Pow2(m - r + 1) {
      if r in param {
        ParamRange(m, rows, param, piv, q, r, Bit(p, IndexOf(param, r)));
      } else {
        PivotRange(m, rows, param, piv, q, r);
      }
    }
  }

  /** The free unknowns of w have the values p. */
  ghost predicate Chosen(m: nat, param: seq<nat>, p: nat, w: nat) {
    forall i :: 0 <= i < |param| ==> param[i] < m && Bit(w, m - param[i]) == Bit(p, i)
  }

  lemma {:induction false} AssignSolves(m: nat, rows: seq<nat>, param: seq<nat>, piv: seq<nat>, q: seq<nat>, p: nat,
                                        w: nat)
    requires Ready(m, rows, param, piv, q) && w % 2 == 1
    ensures Solves(Assign(m, q, param, p), w) <==> Solves(rows, w) && Chosen(m, param, p, w)
  {
    assert |q| == m;
    hide Ready, Assign, Solves, Chosen;
    if Solves(Assign(m, q, param, p), w) {
      AssignedChosen(m, rows, param, piv, q, p, w);
    } else if Solves(rows, w) && Chosen(m, param, p, w) {
      ChosenAssigned(m, rows, param, piv, q, p, w);
    }
  }

  lemma {:induction false} AssignedChosen(m: nat, rows: seq<nat>, param: seq<nat>, piv: seq<nat>, q: seq<nat>,
                                          p: nat, w: nat)
    requires Ready(m, rows, param, piv, q) && w % 2 == 1 && Solves(Assign(m, q, param, p), w)
    ensures Solves(rows, w) && Chosen(m, param, p, w)
  {
    hide Pow2, Bit, Split, Dot;
    var a := Assign(m, q, param, p);
    forall i | 0 <= i < |param| ensures param[i] < m && Bit(w, m - param[i]) == Bit(p, i) {
      ParamIndex(m, param, piv, i);
      ParamRow(m - param[i], Bit(p, i), w);
      assert Dot(a[param[i]], w) == 0;
    }
    forall i | 0 <= i < m ensures Dot(rows[i], w) == 0 {
      if i < |piv| {
        SplitCoverOf(param, piv, m, i);
        assert Dot(a[piv[i]], w) == 0;
      } else {
        DotZero(w);
      }
    }
  }

  lemma {:induction false} ChosenAssigned(m: nat, rows: seq<nat>, param: seq<nat>, piv: seq<nat>, q: seq<nat>,
                                          p: nat, w: nat)
    requires Ready(m, rows, param, piv, q) && w % 2 == 1 && Solves(rows, w) && Chosen(m, param, p, w)
    ensures Solves(Assign(m, q, param, p), w)
  {
    hide Pow2, Bit, Split, Dot;
    var a := Assign(m, q, param, p);
    forall r | 0 <= r < m ensures Dot(a[r], w) == 0 {
      if r in param {
        var i := IndexOf(param, r);
        assert Bit(w, m - param[i]) == Bit(p, i);
        ParamRow(m - r, Bit(p, i), w);
      } else {
        PivotIndex(m, param, piv, r);
        var i := IndexOf(piv, r);
        assert q[piv[i]] == rows[i];
      }
    }
  }

  lemma {:induction false} SplitCoverOf(param: seq<nat>, piv: seq<nat>, m: nat, i: nat)
    requires Split(param, piv, m) && i < |piv|
    ensures piv[i] < m && piv[i] !in param
  {
    SplitBounds(param, piv, m);
    SplitCover(param, piv, m, piv[i]);
  }

  /** The solution that belongs to the values p of the free unknowns. */
  ghost function SolutionOf(m: nat, q: seq<nat>, param: seq<nat>, p: nat): nat
    requires |q| == m
  {
    Back(m, Assign(m, q, param, p), 0) / 2
  }

  lemma {:induction false} SolutionFits(m: nat, rows: seq<nat>, param: seq<nat>, piv: seq<nat>, q: seq<nat>, p: nat)
    requires Ready(m, rows, param, piv, q)
    ensures var x := SolutionOf(m, q, param, p);
      && 2 * x + 1 == Back(m, Assign(m, q, param, p), 0) && IsSolution(rows, m, x)
      && forall i :: 0 <= i < |param| ==> param[i] < m && Bit(2 * x + 1, m - param[i]) == Bit(p, i)
  {
    hide Bit, Split, Dot, Back, Assign, Pow2;
    var a := Assign(m, q, param, p);
    AssignTriangular(m, rows, param, piv, q, p);
    var w := Back(m, a, 0);
    TriangularSolution(m, a, w);
    AssignSolves(m, rows, param, piv, q, p, w);
    Pow2Double(m + 1);
  }

  lemma {:induction false} SolutionFound(m: nat, rows: seq<nat>, param: seq<nat>, piv: seq<nat>, q: seq<nat>, x: nat)
    returns (p: nat)
    requires Ready(m, rows, param, piv, q) && IsSolution(rows, m, x)
    ensures p < Pow2(|param|) && SolutionOf(m, q, param, p) == x
  {
    hide Bit, Split, Dot, Back, Assign, Pow2;
    SplitBounds(param, piv, m);
    var w := 2 * x + 1;
    p := PickBits(m, param, w);
    PickBit(m, param, w, 0);
    forall i | 0 <= i < |param| ensures Bit(w, m - param[i]) == Bit(p, i) { PickBit(m, param, w, i); }
    var a := Assign(m, q, param, p);
    AssignTriangular(m, rows, param, piv, q, p);
    AssignSolves(m, rows, param, piv, q, p, w);
    Pow2Double(m + 1);
    TriangularSolution(m, a, w);
  }

  ghost function AllSolutions(m: nat, q: seq<nat>, param: seq<nat>): (s: seq<nat>)
    requires |q| == m
    ensures |s| == Pow2(|param|) && forall p :: 0 <= p < |s| ==> s[p] == SolutionOf(m, q, param, p)
  {
    seq(Pow2(|param|), p requires 0 <= p < Pow2(|param|) => SolutionOf(m, q, param, p))
  }

  /** The system has as many solutions as there are choices of the free unknowns, and these are they. */
  lemma {:induction false} Listed(m: nat, rows: seq<nat>, param: seq<nat>, piv: seq<nat>, q: seq<nat>)
    requires Ready(m, rows, param, piv, q)
    ensures |q| == m && ListsAll(rows, m, AllSolutions(m, q, param))
  {
    hide Bit, Split, Dot, Back, Assign, SolutionOf, IsSolution, Pow2;
    var s := AllSolutions(m, q, param);
    forall x: nat ensures x in s <==> IsSolution(rows, m, x) {
      if x in s {
        var p := IndexOf(s, x);
        SolutionFits(m, rows, param, piv, q, p);
      }
      if IsSolution(rows, m, x) {
        var p := SolutionFound(m, rows, param, piv, q, x);
        assert s[p] == x;
      }
    }
    forall i, j | 0 <= i < j < |s| ensures s[i] != s[j] {
      SolutionFits(m, rows, param, piv, q, i);
      SolutionFits(m, rows, param, piv, q, j);
      if s[i] == s[j] {
        forall c: nat | c < |param| ensures Bit(i, c) == Bit(j, c) { assert param[c] < m; }
        BitsDetermine(i, j, |param|);
      }
    }
  }

  // ----- the solver

  /** Sets the constant of every row of a free unknown. */
  method SetParams(m: nat, rows: array<nat>, param: seq<nat>, p: nat, ghost q: seq<nat>, ghost piv: seq<nat>)
    requires rows.Length == m == |q| && Split(param, piv, m)
    requires forall r :: 0 <= r < m && r !in param ==> rows[r] == q[r]
    requires forall r :: 0 <= r < m && r in param ==> q[r] % 2 == 0 && q[r] <= rows[r] <= q[r] + 1
    modifies rows
    ensures rows[..] == Assign(m, q, param, p)
  {
    hide Split, Bit;
    for c := 0 to |param|
      invariant forall r :: 0 <= r < m && r !in param ==> rows[r] == q[r]
      invariant forall r :: 0 <= r < m && r in param ==> q[r] % 2 == 0 && q[r] <= rows[r] <= q[r] + 1
      invariant forall i :: 0 <= i < c ==> param[i] < m && rows[param[i]] == q[param[i]] + Bit(p, i)
    {
      ParamIndex(m, param, piv, c);
      forall i | 0 <= i < c ensures param[i] < param[c] { SplitDistinct(param, piv, m, i, c); }
      rows[param[c]] := rows[param[c]] - rows[param[c]] % 2 + Bit(p, c);
    }
    var a := Assign(m, q, param, p);
    forall r | 0 <= r < m ensures rows[r] == a[r] {
      if r in param {
        assert rows[param[IndexOf(param, r)]] == q[r] + Bit(p, IndexOf(param, r));
      }
    }
    assert rows[..] == a;
  }

  lemma {:induction false} ParamEven(m: nat, rows: seq<nat>, param: seq<nat>, piv: seq<nat>, q: seq<nat>, r: nat)
    requires Ready(m, rows, param, piv, q) && r < m && r in param
    ensures q[r] % 2 == 0
  {
    hide Split;
    var i := IndexOf(param, r);
    assert q[param[i]] == Pow2(m - param[i]);
    Pow2Double(m - r);
  }

  /** The solutions for all values of the free unknowns. */
  method Enumerate(m: nat, rows: array<nat>, param: seq<nat>, ghost was: seq<nat>, ghost piv: seq<nat>)
    returns (sol: seq<nat>)
    requires rows.Length == m && Ready(m, was, param, piv, rows[..])
    modifies rows
    ensures sol == AllSolutions(m, old(rows[..]), param)
  {
    hide Split, Bit, Pow2, Pivots, Placed, Back, Assign, Triangular;
    ghost var q := rows[..];
    forall r | 0 <= r < m && r in param ensures q[r] % 2 == 0 { ParamEven(m, was, param, piv, q, r); }
    sol := [];
    for p := 0 to Pow2(|param|)
      invariant |sol| == p && forall i :: 0 <= i < p ==> sol[i] == SolutionOf(m, q, param, i)
      invariant forall r :: 0 <= r < m && r !in param ==> rows[r] == q[r]
      invariant forall r :: 0 <= r < m && r in param ==> q[r] <= rows[r] <= q[r] + 1
    {
      SetParams(m, rows, param, p, q, piv);
      AssignTriangular(m, was, param, piv, q, p);
      assert rows[..m] == rows[..];
      var x := BackSubstitute(m, rows);
      sol := sol + [x];
      AssignBits(m, q, param, p);
    }
  }

  lemma {:induction false} AssignBits(m: nat, q: seq<nat>, param: seq<nat>, p: nat)
    requires |q| == m
    ensures forall r :: 0 <= r < m && r !in param ==> Assign(m, q, param, p)[r] == q[r]
    ensures forall r :: 0 <= r < m && r in param ==> q[r] <= Assign(m, q, param, p)[r] <= q[r] + 1
  {
    hide Bit;
  }

  lemma {:induction false} Inconsistent(m: nat, rows: seq<nat>, r: nat, w: nat)
    requires |rows| == m && r < m && rows[r] != 0 && rows[r] < 2 && w % 2 == 1
    ensures !Solves(rows, w)
  {
    hide Dot;
    DotOne(w);
  }

  lemma {:induction false} SameLists(a: seq<nat>, b: seq<nat>, m: nat, s: seq<nat>)
    requires SameSolutions(a, b)
    ensures ListsAll(a, m, s) <==> ListsAll(b, m, s)
  {
    hide Solves, Pow2;
    forall x: nat ensures IsSolution(a, m, x) <==> IsSolution(b, m, x) {
      assert Solves(a, 2 * x + 1) <==> Solves(b, 2 * x + 1);
    }
  }

  /** solve_linear_system: all solutions, if there are as many as expected. */
  method SolveLinearSystem(m: nat, rows: array<nat>, nsol: nat) returns (sol: seq<nat>)
    requires rows.Length == m && nsol > 0 && forall r :: 0 <= r < m ==> rows[r] < Pow2(m + 1)
    modifies rows
    ensures sol != [] ==> |sol| == nsol && ListsAll(old(rows[..]), m, sol)
    ensures sol == [] ==> forall s: seq<nat> :: ListsAll(old(rows[..]), m, s) ==> |s| != nsol
  {
    hide Split, Bit, Pow2, Pivots, Placed, Dot, AllSolutions, ListsAll, SameSolutions, Solves;
    var param;
    ghost var piv;
    param, piv := Eliminate(m, rows);
    ghost var was := rows[..];
    forall s: seq<nat> ensures ListsAll(old(rows[..]), m, s) <==> ListsAll(was, m, s) {
      SameLists(old(rows[..]), was, m, s);
    }
    var ok := InsertParams(m, rows, param, piv);
    if !ok {
      ghost var r :| |piv| <= r < m && was[r] != 0;
      forall s: seq<nat> | ListsAll(was, m, s) ensures |s| != nsol { NoSolutions(m, was, r, s); }
      return [];
    }
    Listed(m, was, param, piv, rows[..]);
    ghost var all := AllSolutions(m, rows[..], param);
    if nsol != Pow2(|param|) {
      forall s: seq<nat> | ListsAll(was, m, s) ensures |s| != nsol { SameCount(was, m, s, all); }
      return [];
    }
    sol := Enumerate(m, rows, param, was, piv);
  }

  lemma {:induction false} NoSolutions(m: nat, rows: seq<nat>, r: nat, s: seq<nat>)
    requires |rows| == m && r < m && rows[r] != 0 && rows[r] < 2 && ListsAll(rows, m, s)
    ensures s == []
  {
    hide Solves;
    if s != [] {
      assert s[0] in s;
      Inconsistent(m, rows, r, 2 * s[0] + 1);
    }
  }
}
