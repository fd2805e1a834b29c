/** The hole table of a memory zone: a sorted list of free ranges and a list of unused slots, both linked
    through one array. */
module HoleTable {
  const NR: nat := 512
  /** The null link. */
  const NIL: nat := 512

  datatype Hole = Hole(base: nat, len: nat)

  // ----- lists of holes as values

  /** Holes are not empty, in order, and never adjacent. */
  ghost predicate Sorted(v: seq<Hole>) {
    && (forall i :: 0 <= i < |v| ==> v[i].len > 0)
    && (forall i, j :: 0 <= i < j < |v| ==> v[i].base + v[i].len < v[j].base)
  }

  ghost predicate Covers(v: seq<Hole>, x: int) {
    exists i :: 0 <= i < |v| && v[i].base <= x < v[i].base + v[i].len
  }

  /** As Sorted, but holes may touch at position p: the one before it and the one after it. */
  ghost predicate AlmostSorted(v: seq<Hole>, p: nat) {
    && (forall i :: 0 <= i < |v| ==> v[i].len > 0)
    && (forall i, j :: 0 <= i < j < |v| ==>
          v[i].base + v[i].len <= v[j].base && ((j == i + 1 && (i == p || j == p)) || v[i].base + v[i].len < v[j].base))
  }

  function Merged(v: seq<Hole>, i: nat): (r: seq<Hole>)
    requires i + 1 < |v|
    ensures |r| == |v| - 1
  {
    v[..i] + [Hole(v[i].base, v[i].len + v[i + 1].len)] + v[i + 2..]
  }

  lemma {:induction false} MergedAt(v: seq<Hole>, i: nat, k: nat)
    requires i + 1 < |v| && k < |v| - 1
    ensures Merged(v, i)[k] == if k < i then v[k] else if k == i then Hole(v[i].base, v[i].len + v[i + 1].len)
            else v[k + 1]
  {
  }

  lemma {:induction false} MergeCovers(v: seq<Hole>, i: nat, x: int)
    requires i + 1 < |v| && v[i].base + v[i].len == v[i + 1].base
    ensures Covers(Merged(v, i), x) <==> Covers(v, x)
  {
    var r := Merged(v, i);
    if Covers(v, x) {
      var k :| 0 <= k < |v| && v[k].base <= x < v[k].base + v[k].len;
      var k' := if k <= i then k else k - 1;
      MergedAt(v, i, k');
      assert r[k'].base <= x < r[k'].base + r[k'].len;
    }
    if Covers(r, x) {
      var k :| 0 <= k < |r| && r[k].base <= x < r[k].base + r[k].len;
      MergedAt(v, i, k);
      if k < i { assert v[k].base <= x < v[k].base + v[k].len; }
      else if k > i { assert v[k + 1].base <= x < v[k + 1].base + v[k + 1].len; }
      else if x < v[i + 1].base { assert v[i].base <= x < v[i].base + v[i].len; }
      else { assert v[i + 1].base <= x < v[i + 1].base + v[i + 1].len; }
    }
  }

  /** Merging position p - 1 with p leaves at most one touching pair, after position p - 1. */
  lemma {:induction false} MergeLeft(v: seq<Hole>, p: nat)
    requires AlmostSorted(v, p) && 0 < p < |v| && v[p - 1].base + v[p - 1].len == v[p].base
    ensures AlmostSorted(Merged(v, p - 1), p - 1)
    ensures p > 1 ==> v[p - 2].base + v[p - 2].len < v[p - 1].base
  {
    hide Merged;
    var r := Merged(v, p - 1);
    forall i | 0 <= i < |r| ensures r[i].len > 0 { MergedAt(v, p - 1, i); }
    forall i, j | 0 <= i < j < |r|
      ensures r[i].base + r[i].len <= r[j].base
      ensures (j == i + 1 && (i == p - 1 || j == p - 1)) || r[i].base + r[i].len < r[j].base
    {
      MergedAt(v, p - 1, i);
      MergedAt(v, p - 1, j);
      var i', j' := if i < p - 1 then i else i + 1, if j <= p - 1 then j else j + 1;
      assert v[i'].base + v[i'].len <= v[j'].base;
    }
  }

  lemma {:induction false} MergeRight(v: seq<Hole>, p: nat)
    requires AlmostSorted(v, p) && p + 1 < |v| && v[p].base + v[p].len == v[p + 1].base
    requires p > 0 ==> v[p - 1].base + v[p - 1].len < v[p].base
    ensures Sorted(Merged(v, p))
  {
    hide Merged;
    var r := Merged(v, p);
    forall i | 0 <= i < |r| ensures r[i].len > 0 { MergedAt(v, p, i); }
    forall i, j | 0 <= i < j < |r| ensures r[i].base + r[i].len < r[j].base {
      MergedAt(v, p, i);
      MergedAt(v, p, j);
      var i', j' := if i < p then i else i + 1, if j <= p then j else j + 1;
      assert v[i'].base + v[i'].len <= v[j'].base;
    }
  }

  lemma {:induction false} NoTouch(v: seq<Hole>, p: nat)
    requires AlmostSorted(v, p)
    requires 0 < p < |v| ==> v[p - 1].base + v[p - 1].len < v[p].base
    requires p + 1 < |v| ==> v[p].base + v[p].len < v[p + 1].base
    ensures Sorted(v)
  {
  }

  /** What an allocation leaves of the holes: hole i loses n bytes at its start. */
  function Cut(v: seq<Hole>, i: nat, n: nat): seq<Hole>
    requires i < |v| && n <= v[i].len
  {
    if n == v[i].len then v[..i] + v[i + 1..] else v[i := Hole(v[i].base + n, v[i].len - n)]
  }

  lemma {:induction false} CutSorted(v: seq<Hole>, i: nat, n: nat)
    requires Sorted(v) && i < |v| && n <= v[i].len
    ensures Sorted(Cut(v, i, n))
  {
    if n == v[i].len {
      var r := v[..i] + v[i + 1..];
      forall k | 0 <= k < |r| ensures r[k] == v[if k < i then k else k + 1] { }
    }
  }

  lemma {:induction false} CutAt(v: seq<Hole>, i: nat, n: nat, k: nat)
    requires i < |v| && n <= v[i].len && k < |Cut(v, i, n)|
    ensures n == v[i].len ==> Cut(v, i, n)[k] == v[if k < i then k else k + 1]
    ensures n < v[i].len ==> Cut(v, i, n)[k] == if k == i then Hole(v[i].base + n, v[i].len - n) else v[k]
  {
  }

  lemma {:induction false} CutCovers(v: seq<Hole>, i: nat, n: nat, x: int)
    requires Sorted(v) && i < |v| && n <= v[i].len
    ensures Covers(Cut(v, i, n), x) <==> Covers(v, x) && !(v[i].base <= x < v[i].base + n)
  {
    if Covers(Cut(v, i, n), x) { CutCoversOnly(v, i, n, x); }
    if Covers(v, x) && !(v[i].base <= x < v[i].base + n) { CutCoversAll(v, i, n, x); }
  }

  lemma {:induction false} CutCoversOnly(v: seq<Hole>, i: nat, n: nat, x: int)
    requires Sorted(v) && i < |v| && n <= v[i].len && Covers(Cut(v, i, n), x)
    ensures Covers(v, x) && !(v[i].base <= x < v[i].base + n)
  {
    var r := Cut(v, i, n);
    var k :| 0 <= k < |r| && r[k].base <= x < r[k].base + r[k].len;
    CutAt(v, i, n, k);
    hide Cut;
    var k' := if n == v[i].len && k >= i then k + 1 else k;
    assert v[k'].base <= x < v[k'].base + v[k'].len;
    if k' < i { assert v[k'].base + v[k'].len < v[i].base; }
    if k' > i { assert v[i].base + v[i].len < v[k'].base; }
  }

  lemma {:induction false} CutCoversAll(v: seq<Hole>, i: nat, n: nat, x: int)
    requires i < |v| && n <= v[i].len && Covers(v, x) && !(v[i].base <= x < v[i].base + n)
    ensures Covers(Cut(v, i, n), x)
  {
    var r := Cut(v, i, n);
    var k :| 0 <= k < |v| && v[k].base <= x < v[k].base + v[k].len;
    var k' := if n == v[i].len && k > i then k - 1 else k;
    CutAt(v, i, n, k');
    assert r[k'].base <= x < r[k'].base + r[k'].len;
  }

  function Inserted(v: seq<Hole>, p: nat, h: Hole): (r: seq<Hole>)
    requires p <= |v|
    ensures |r| == |v| + 1
  {
    v[..p] + [h] + v[p..]
  }

  lemma {:induction false} InsertedAt(v: seq<Hole>, p: nat, h: Hole, k: nat)
    requires p <= |v| && k <= |v|
    ensures Inserted(v, p, h)[k] == if k < p then v[k] else if k == p then h else v[k - 1]
  {
  }

  /** The range does not meet any hole. */
  ghost predicate Apart(v: seq<Hole>, base: nat, len: nat) {
    forall i :: 0 <= i < |v| ==> base + len <= v[i].base || v[i].base + v[i].len <= base
  }

  lemma {:induction false} InsertAlmost(v: seq<Hole>, p: nat, h: Hole)
    requires Sorted(v) && p <= |v| && h.len > 0 && Apart(v, h.base, h.len)
    requires (forall i :: 0 <= i < p ==> v[i].base < h.base) && (forall i :: p <= i < |v| ==> h.base <= v[i].base)
    ensures AlmostSorted(Inserted(v, p, h), p)
  {
    var r := Inserted(v, p, h);
    forall k | 0 <= k < |r| ensures r[k] == if k < p then v[k] else if k == p then h else v[k - 1] {
      InsertedAt(v, p, h, k);
    }
  }

  lemma {:induction false} InsertCovers(v: seq<Hole>, p: nat, h: Hole, x: int)
    requires p <= |v|
    ensures Covers(Inserted(v, p, h), x) <==> Covers(v, x) || h.base <= x < h.base + h.len
  {
    var r := Inserted(v, p, h);
    if Covers(r, x) {
      var k :| 0 <= k < |r| && r[k].base <= x < r[k].base + r[k].len;
      InsertedAt(v, p, h, k);
      if k != p { var k' := if k < p then k else k - 1; assert v[k'].base <= x < v[k'].base + v[k'].len; }
    }
    if Covers(v, x) {
      var k :| 0 <= k < |v| && v[k].base <= x < v[k].base + v[k].len;
      var k' := if k < p then k else k + 1;
      InsertedAt(v, p, h, k');
      assert r[k'].base <= x < r[k'].base + r[k'].len;
    }
    if h.base <= x < h.base + h.len { InsertedAt(v, p, h, p); }
  }
}
