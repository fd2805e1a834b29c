/** In-order iteration over a tree with a path from the root and the branches taken. */
module AvlIter {
  import opened AvlTree

  /** The length of the path array, which does not hold the root. */
  const MAX_DEPTH: nat := 32

  function Levels(t: Tree): nat {
    if t.Nil? then 0 else 1 + if Levels(t.left) > Levels(t.right) then Levels(t.left) else Levels(t.right)
  }

  // ----- paths

  /** The subtree at the end of a path; true is right. */
  function Sub(t: Tree, d: seq<bool>): Tree {
    if d == [] || t.Nil? then t
    else Sub(if d[0] then t.right else t.left, d[1..])
  }

  /** How many entries come before the subtree. */
  ghost function Base(t: Tree, d: seq<bool>): nat {
    if d == [] || t.Nil? then 0
    else if d[0] then |InOrder(t.left)| + 1 + Base(t.right, d[1..])
    else Base(t.left, d[1..])
  }

  ghost function End(t: Tree, d: seq<bool>): nat { Base(t, d) + |InOrder(Sub(t, d))| }

  /** The position of the node at the end of the path. */
  ghost function Rank(t: Tree, d: seq<bool>): nat
    requires Sub(t, d).Node?
  {
    Base(t, d) + |InOrder(Sub(t, d).left)|
  }

  lemma {:induction false} SubAppend(t: Tree, d: seq<bool>, x: bool)
    requires Sub(t, d).Node?
    ensures Sub(t, d + [x]) == if x then Sub(t, d).right else Sub(t, d).left
    ensures Base(t, d + [x]) == if x then Rank(t, d) + 1 else Base(t, d)
    decreases |d|
  {
    if d == [] {
      assert d + [x] == [x];
      assert [x][1..] == [];
    } else {
      var u := if d[0] then t.right else t.left;
      assert (d + [x])[1..] == d[1..] + [x];
      SubAppend(u, d[1..], x);
    }
  }

  /** A node, its position, and where its subtrees begin and end. */
  lemma {:induction false} NodeAt(t: Tree, d: seq<bool>)
    requires Sub(t, d).Node?
    ensures var s := Sub(t, d);
            && Rank(t, d) < |InOrder(t)| && InOrder(t)[Rank(t, d)] == s.e
            && End(t, d) == Rank(t, d) + 1 + |InOrder(s.right)| <= |InOrder(t)|
    decreases |d|
  {
    if d == [] {
      Steps(t);
    } else {
      PathDown(t, d);
      hide InOrder, Sub, Base;
      var u := if d[0] then t.right else t.left;
      NodeAt(u, d[1..]);
      Steps(t);
      Inside(InOrder(t.left), t.e, InOrder(t.right));
    }
  }

  lemma {:induction false} PathDown(t: Tree, d: seq<bool>)
    requires d != [] && Sub(t, d).Node?
    ensures t.Node?
    ensures Sub(t, d) == Sub(if d[0] then t.right else t.left, d[1..])
    ensures Base(t, d) == if d[0] then |InOrder(t.left)| + 1 + Base(t.right, d[1..]) else Base(t.left, d[1..])
  {
  }

  lemma {:induction false} Inside(a: seq<Entry>, x: Entry, c: seq<Entry>)
    ensures forall i :: 0 <= i < |a| ==> (a + [x] + c)[i] == a[i]
    ensures forall i :: 0 <= i < |c| ==> (a + [x] + c)[|a| + 1 + i] == c[i]
  {
  }

  lemma {:induction false} EndAppend(t: Tree, d: seq<bool>, x: bool)
    requires Sub(t, d).Node?
    ensures End(t, d + [x]) == if x then End(t, d) else Rank(t, d)
  {
    hide InOrder, Sub, Base;
    SubAppend(t, d, x);
    Steps(Sub(t, d));
  }

  // ----- how many levels

  /** The fewest nodes of a balanced tree of h levels. */
  function MinNodes(h: nat): nat {
    if h < 2 then h else MinNodes(h - 1) + MinNodes(h - 2) + 1
  }

  lemma {:induction false} MinNodesGrows(g: nat, h: nat)
    requires g <= h
    ensures MinNodes(g) <= MinNodes(h)
    decreases h
  {
    if g < h { MinNodesGrows(g, h - 1); }
  }

  lemma {:induction false} LevelsIsHeight(t: Tree)
    requires HeightsOk(t)
    ensures Levels(t) == Height(t)
  {
    if t.Node? {
      LevelsIsHeight(t.left);
      LevelsIsHeight(t.right);
    }
  }

  lemma {:induction false} NodesAtLeast(t: Tree)
    requires HeightsOk(t) && Balanced(t)
    ensures |InOrder(t)| >= MinNodes(Levels(t))
  {
    if t.Node? {
      Steps(t);
      NodesAtLeast(t.left);
      NodesAtLeast(t.right);
      LevelsIsHeight(t.left);
      LevelsIsHeight(t.right);
      hide InOrder, HeightsOk, Balanced;
      var h := Levels(t);
      assert Levels(t.left) + 2 >= h && Levels(t.right) + 2 >= h
             && (Levels(t.left) + 1 == h || Levels(t.right) + 1 == h);
      if h >= 2 {
        MinNodesGrows(h - 2, Levels(t.left));
        MinNodesGrows(h - 2, Levels(t.right));
      }
    }
  }

  /** The fewest nodes of a balanced tree too deep for an iterator. */
  const DEEP: nat := 14930351

  lemma {:induction false} FourLevels(h: nat, a: nat, b: nat)
    requires MinNodes(h) == a && MinNodes(h + 1) == b
    ensures MinNodes(h + 4) == 2 * a + 3 * b + 4 && MinNodes(h + 5) == 3 * a + 5 * b + 7
  {
    assert MinNodes(h + 2) == a + b + 1;
    assert MinNodes(h + 3) == a + 2 * b + 2;
  }

  lemma {:induction false} DeepNodes()
    ensures MinNodes(MAX_DEPTH + 2) == DEEP
  {
    assert MinNodes(2) == 2 && MinNodes(3) == 4;
    hide MinNodes;
    FourLevels(2, 2, 4);
    FourLevels(6, 20, 33);
    FourLevels(10, 143, 232);
    FourLevels(14, 986, 1596);
    FourLevels(18, 6764, 10945);
    FourLevels(22, 46367, 75024);
    FourLevels(26, 317810, 514228);
    FourLevels(30, 2178308, 3524577);
  }

  /** A balanced tree with fewer nodes than that is never too deep. */
  lemma {:induction false} FewLevels(t: Tree)
    requires HeightsOk(t) && Balanced(t) && |InOrder(t)| < DEEP
    ensures Levels(t) <= MAX_DEPTH + 1
  {
    hide InOrder, HeightsOk, Balanced, Levels, MinNodes;
    NodesAtLeast(t);
    DeepNodes();
    if Levels(t) > MAX_DEPTH + 1 { MinNodesGrows(MAX_DEPTH + 2, Levels(t)); }
  }

  /** Entries inserted one after another into an empty tree. */
  ghost function InsertAll(es: seq<Entry>): (t: Tree)
    ensures HeightsOk(t)
  {
    if es == [] then Nil else Insert(InsertAll(es[..|es| - 1]), es[|es| - 1])
  }

  lemma {:induction false} InsertAllIs(es: seq<Entry>)
    ensures Balanced(InsertAll(es)) && |InOrder(InsertAll(es))| == |es|
  {
    if es != [] {
      var n := |es| - 1;
      var t, e := InsertAll(es[..n]), es[n];
      InsertAllIs(es[..n]);
      assert InsertAll(es) == Insert(t, e);
      hide InOrder, HeightsOk, Insert, InsertAll, Balanced;
      InsertBalanced(t, e);
      InsertOrder(t, e);
    }
  }

  /** Every tree built by fewer insertions than that fits an iterator. */
  lemma {:induction false} InsertAllLevels(es: seq<Entry>)
    requires |es| < DEEP
    ensures Levels(InsertAll(es)) <= MAX_DEPTH + 1
  {
    hide InOrder, HeightsOk, Balanced, Levels, InsertAll;
    InsertAllIs(es);
    FewLevels(InsertAll(es));
  }

  lemma {:induction false} LevelsBelow(t: Tree, d: seq<bool>)
    requires Sub(t, d).Node?
    ensures |d| + Levels(Sub(t, d)) <= Levels(t)
    decreases |d|
  {
    if d != [] { LevelsBelow(if d[0] then t.right else t.left, d[1..]); }
  }

  lemma {:induction false} RootPath(t: Tree)
    ensures Sub(t, []) == t && Base(t, []) == 0 && End(t, []) == |InOrder(t)|
  {
  }

  class Iter {
    const root: Tree
    var depth: int
    var branch: seq<bool>
    var path: seq<Tree>

    constructor (root: Tree)
      requires Levels(root) <= MAX_DEPTH + 1
      ensures this.root == root && depth == -1 && Valid()
    {
      this.root := root;
      depth := -1;
      branch := seq(MAX_DEPTH, i => false);
      path := seq(MAX_DEPTH, i => Nil);
    }

    /** The branches to the current node are in the first bits, the nodes on the way in the path. */
    ghost predicate Valid()
      reads this
    {
      && |branch| == MAX_DEPTH && |path| == MAX_DEPTH && -1 <= depth <= MAX_DEPTH && Levels(root) <= MAX_DEPTH + 1
      && (depth >= 0 ==> OnPath(root, branch, path, depth))
    }

    ghost predicate AtEnd()
      reads this
    {
      depth == -1
    }

    /** The position of the iterator in the in-order sequence. */
    ghost function Position(): (p: nat)
      reads this
      requires Valid() && !AtEnd()
      ensures p < |InOrder(root)|
    {
      PathNode(root, branch, path, depth);
      NodeAt(root, branch[..depth]);
      Rank(root, branch[..depth])
    }

    /** avl_get_iter. */
    method Get() returns (r: Tree)
      requires Valid()
      ensures r.Nil? <==> AtEnd()
      ensures !AtEnd() ==> r.e == InOrder(root)[Position()]
    {
      hide InOrder, Sub, Base;
      if depth == -1 { return Nil; }
      PathNode(root, branch, path, depth);
      NodeAt(root, branch[..depth]);
      r := if depth == 0 then root else path[depth - 1];
    }

    /** avl_start_iter: to the entry nearest to the key on the wanted side, or to one with the key itself. */
    method Start(key: int, less: bool, equal: bool, greater: bool)
      requires Valid() && Sorted(InOrder(root))
      modifies this
      ensures Valid()
      ensures AtEnd() ==> Missing(InOrder(root), key, less, equal, greater)
      ensures !AtEnd() ==> Nearest(InOrder(root), Position(), key, less, equal, greater)
    {
      hide InOrder, Sub, Base, OnPath, Levels, Sorted, Split, Missing, Nearest, Recorded;
      var at := 0;
      depth := -1;
      var cur := root;
      var target := if less then 1 else if greater then -1 else 0;
      RootPath(root);
      assert branch[..0] == [];
      StartSplit(InOrder(root), key, less, equal, greater);
      if cur.Nil? {
        Steps(root);
        EmptyMissing(InOrder(root), key, less, equal, greater);
        return;
      }
      StartPath(root, branch, path, target);
      while true
        invariant 0 <= at <= MAX_DEPTH && |branch| == MAX_DEPTH && |path| == MAX_DEPTH && -1 <= depth < at
        invariant OnPath(root, branch, path, at) && cur == Sub(root, branch[..at]) && cur.Node?
        invariant depth >= 0 ==> OnPath(root, branch, path, depth)
        invariant Split(InOrder(root), Base(root, branch[..at]), End(root, branch[..at]), key, equal, target)
        invariant Recorded(root, branch, depth, at, target)
        invariant Levels(root) <= MAX_DEPTH + 1
        decreases cur
      {
        ghost var d := branch[..at];
        NodeAt(root, d);
        var cmp := if key < cur.e.key then -1 else if key > cur.e.key then 1 else 0;
        if cmp == 0 {
          if equal {
            depth := at;
            FoundEqual(InOrder(root), Rank(root, d), key, less, greater);
            break;
          }
          cmp := -target;
        }
        if target != 0 && target == cmp { depth := at; }
        var right := cmp >= 0;
        SubAppend(root, d, right);
        EndAppend(root, d, right);
        Narrow(InOrder(root), Base(root, d), End(root, d), Rank(root, d), key, equal, target, right);
        var next := if cmp < 0 then cur.left else cur.right;
        if next.Nil? {
          ghost var b := d + [right];
          RecordStep(root, branch, depth, at, target, right, b);
          Steps(next);
          if depth >= 0 { assert b[..depth] == branch[..depth]; }
          assert b[..at + 1] == b;
          Landed(root, b, depth, at + 1, target, key, less, equal, greater);
          break;
        }
        PushOk(root, branch, path, at, right, next);
        RecordStep(root, branch, depth, at, target, right, branch[at := right]);
        if depth >= 0 { KeepPath(root, branch, path, depth, at, right, next); }
        branch := branch[at := right];
        path := path[at := next];
        at := at + 1;
        cur := next;
      }
    }

    /** Moves to a child of the current node. */
    method Push(right: bool, child: Tree)
      requires Valid() && !AtEnd() && child.Node?
      requires Sub(root, branch[..depth]).Node?
      requires child == (if right then Sub(root, branch[..depth]).right else Sub(root, branch[..depth]).left)
      modifies this
      ensures Valid() && depth == old(depth) + 1 && branch[..depth] == old(branch[..depth]) + [right]
    {
      PushOk(root, branch, path, depth, right, child);
      branch := branch[depth := right];
      path := path[depth := child];
      depth := depth + 1;
    }

    /** avl_inc_iter: to the next entry, or past the end. */
    method Increment()
      requires Valid()
      modifies this
      ensures Valid()
      ensures old(AtEnd()) ==> AtEnd()
      ensures !old(AtEnd()) ==> if old(Position()) + 1 < |InOrder(root)|
                then !AtEnd() && Position() == old(Position()) + 1 else AtEnd()
    {
      hide InOrder, Sub, Base, OnPath, Levels;
      if depth == -1 { return; }
      PathNode(root, branch, path, depth);
      NodeAt(root, branch[..depth]);
      ghost var p := Position();
      var cur := if depth == 0 then root else path[depth - 1];
      Steps(cur.right);
      cur := cur.right;
      if cur.Nil? {
        while true
          invariant Valid() && depth >= 0 && branch == old(branch) && path == old(path)
                    && Sub(root, branch[..depth]).Node?
          invariant End(root, branch[..depth]) == p + 1
          decreases depth
        {
          if depth == 0 {
            assert branch[..0] == [];
            RootPath(root);
            depth := -1;
            break;
          }
          PopOk(root, branch, path, depth);
          depth := depth - 1;
          if !branch[depth] {
            NodeAt(root, branch[..depth]);
            break;
          }
        }
      } else {
        ghost var d := branch[..depth];
        SubAppend(root, d, true);
        Push(true, cur);
        while true
          invariant Valid() && depth >= 0 && cur.Node? && cur == Sub(root, branch[..depth])
                    && Base(root, branch[..depth]) == p + 1
          decreases cur
        {
          ghost var d' := branch[..depth];
          SubAppend(root, d', false);
          NodeAt(root, d');
          if cur.left.Nil? {
            Steps(cur.left);
            break;
          }
          Push(false, cur.left);
          cur := cur.left;
        }
      }
    }

    /** avl_dec_iter: to the previous entry, or before the start. */
    method Decrement()
      requires Valid()
      modifies this
      ensures Valid()
      ensures old(AtEnd()) ==> AtEnd()
      ensures !old(AtEnd()) ==> if old(Position()) > 0 then !AtEnd() && Position() == old(Position()) - 1 else AtEnd()
    {
      hide InOrder, Sub, Base, OnPath, Levels;
      if depth == -1 { return; }
      PathNode(root, branch, path, depth);
      NodeAt(root, branch[..depth]);
      ghost var p := Position();
      var cur := if depth == 0 then root else path[depth - 1];
      Steps(cur.left);
      cur := cur.left;
      if cur.Nil? {
        while true
          invariant Valid() && depth >= 0 && branch == old(branch) && path == old(path)
                    && Sub(root, branch[..depth]).Node?
          invariant Base(root, branch[..depth]) == p
          decreases depth
        {
          if depth == 0 {
            assert branch[..0] == [];
            RootPath(root);
            depth := -1;
            break;
          }
          PopOk(root, branch, path, depth);
          depth := depth - 1;
          if branch[depth] {
            NodeAt(root, branch[..depth]);
            break;
          }
        }
      } else {
        ghost var d := branch[..depth];
        SubAppend(root, d, false);
        EndAppend(root, d, false);
        Push(false, cur);
        while true
          invariant Valid() && depth >= 0 && cur.Node? && cur == Sub(root, branch[..depth])
                    && End(root, branch[..depth]) == p
          decreases cur
        {
          ghost var d' := branch[..depth];
          SubAppend(root, d', true);
          EndAppend(root, d', true);
          NodeAt(root, d');
          if cur.right.Nil? {
            Steps(cur.right);
            break;
          }
          Push(true, cur.right);
          cur := cur.right;
        }
      }
    }
  }

  /** The first depth bits lead to a node, and the path holds the nodes below the root on the way. */
  ghost predicate OnPath(root: Tree, branch: seq<bool>, path: seq<Tree>, depth: nat) {
    && |branch| == MAX_DEPTH && |path| == MAX_DEPTH && depth <= MAX_DEPTH
    && Sub(root, branch[..depth]).Node?
    && forall i: nat :: i < depth ==>
         path[i] == Sub(root, branch[..i + 1]) && path[i].Node? && Sub(root, branch[..i]).Node?
  }

  lemma {:induction false} PathNode(root: Tree, branch: seq<bool>, path: seq<Tree>, depth: nat)
    requires OnPath(root, branch, path, depth)
    ensures Sub(root, branch[..depth]).Node?
    ensures Sub(root, branch[..depth]) == if depth == 0 then root else path[depth - 1]
  {
    if depth == 0 { assert branch[..0] == []; }
  }

  lemma {:induction false} PushOk(root: Tree, branch: seq<bool>, path: seq<Tree>, depth: nat, right: bool, child: Tree)
    requires OnPath(root, branch, path, depth) && Levels(root) <= MAX_DEPTH + 1 && child.Node?
    requires child == (if right then Sub(root, branch[..depth]).right else Sub(root, branch[..depth]).left)
    ensures depth < MAX_DEPTH && OnPath(root, branch[depth := right], path[depth := child], depth + 1)
    ensures branch[depth := right][..depth + 1] == branch[..depth] + [right]
  {
    hide Base, InOrder;
    LevelsBelow(root, branch[..depth]);
    assert Levels(child) >= 1 && Levels(Sub(root, branch[..depth])) >= 2;
    var b, p := branch[depth := right], path[depth := child];
    SubAppend(root, branch[..depth], right);
    assert b[..depth + 1] == branch[..depth] + [right];
    forall i: nat | i < depth + 1 ensures p[i] == Sub(root, b[..i + 1]) && p[i].Node? && Sub(root, b[..i]).Node? {
      assert b[..i] == branch[..i];
      if i < depth { assert b[..i + 1] == branch[..i + 1]; }
    }
  }

  lemma {:induction false} PopOk(root: Tree, branch: seq<bool>, path: seq<Tree>, depth: nat)
    requires OnPath(root, branch, path, depth) && depth > 0
    ensures OnPath(root, branch, path, depth - 1) && Sub(root, branch[..depth - 1]).Node?
    ensures branch[depth - 1] ==> End(root, branch[..depth - 1]) == End(root, branch[..depth])
    ensures branch[depth - 1] ==> Rank(root, branch[..depth - 1]) + 1 == Base(root, branch[..depth])
    ensures !branch[depth - 1] ==> Rank(root, branch[..depth - 1]) == End(root, branch[..depth])
    ensures !branch[depth - 1] ==> Base(root, branch[..depth - 1]) == Base(root, branch[..depth])
  {
    var d, x := branch[..depth - 1], branch[depth - 1];
    assert branch[..depth] == d + [x];
    assert path[depth - 1] == Sub(root, branch[..depth - 1 + 1]);
    SubAppend(root, d, x);
    EndAppend(root, d, x);
  }

  // ----- the start of an iteration

  /** No entry qualifies. */
  ghost predicate Missing(s: seq<Entry>, key: int, less: bool, equal: bool, greater: bool) {
    && (equal ==> forall i :: 0 <= i < |s| ==> s[i].key != key)
    && (less ==> forall i :: 0 <= i < |s| ==> s[i].key >= key)
    && (greater && !less ==> forall i :: 0 <= i < |s| ==> s[i].key <= key)
  }

  /** Position p has the key, or else no entry has it and p is the nearest on the wanted side. */
  ghost predicate Nearest(s: seq<Entry>, p: nat, key: int, less: bool, equal: bool, greater: bool) {
    && p < |s|
    && (if s[p].key == key then equal
        else
          && (equal ==> forall i :: 0 <= i < |s| ==> s[i].key != key)
          && (less || greater)
          && (less ==> s[p].key < key && forall i :: 0 <= i < |s| && s[i].key < key ==> s[i].key <= s[p].key)
          && (!less ==> s[p].key > key && forall i :: 0 <= i < |s| && s[i].key > key ==> s[i].key >= s[p].key))
  }

  /** Entries before lo are on the left of the key, entries from hi on are on its right; equal keys, if
      not wanted, count as left of it in a search for greater ones. */
  ghost predicate Split(s: seq<Entry>, lo: nat, hi: nat, key: int, equal: bool, target: int) {
    && (forall i :: 0 <= i < lo && i < |s| ==> s[i].key < key || (!equal && s[i].key == key && target <= 0))
    && (forall i :: hi <= i < |s| ==> s[i].key > key || (!equal && s[i].key == key && target > 0))
  }

  /** The recorded depth is that of the nearest node so far on the wanted side. */
  ghost predicate Recorded(root: Tree, branch: seq<bool>, depth: int, at: nat, target: int)
    requires at <= |branch| && -1 <= depth <= at
  {
    && (target == 0 ==> depth == -1)
    && (depth >= 0 ==> Sub(root, branch[..depth]).Node?)
    && (target < 0 ==> End(root, branch[..at]) == if depth < 0 then |InOrder(root)| else Rank(root, branch[..depth]))
    && (target > 0 ==> Base(root, branch[..at]) == if depth < 0 then 0 else Rank(root, branch[..depth]) + 1)
  }

  lemma {:induction false} StartSplit(s: seq<Entry>, key: int, less: bool, equal: bool, greater: bool)
    ensures forall target: int :: Split(s, 0, |s|, key, equal, target)
  {
  }

  lemma {:induction false} EmptyMissing(s: seq<Entry>, key: int, less: bool, equal: bool, greater: bool)
    requires s == []
    ensures Missing(s, key, less, equal, greater)
  {
  }

  lemma {:induction false} StartPath(root: Tree, branch: seq<bool>, path: seq<Tree>, target: int)
    requires root.Node? && |branch| == MAX_DEPTH && |path| == MAX_DEPTH
    ensures OnPath(root, branch, path, 0) && Recorded(root, branch, -1, 0, target) && Sub(root, branch[..0]) == root
  {
    assert branch[..0] == [];
    RootPath(root);
  }

  lemma {:induction false} FoundEqual(s: seq<Entry>, p: nat, key: int, less: bool, greater: bool)
    requires p < |s| && s[p].key == key
    ensures Nearest(s, p, key, less, true, greater)
  {
  }

  /** Going left or right at a node narrows the range in which the key can be. */
  lemma {:induction false} Narrow(s: seq<Entry>, lo: nat, hi: nat, p: nat, key: int, equal: bool, target: int,
                                  right: bool)
    requires Sorted(s) && p < |s| && Split(s, lo, hi, key, equal, target)
    requires right ==> s[p].key < key || (!equal && s[p].key == key && target <= 0)
    requires !right ==> s[p].key > key || (!equal && s[p].key == key && target > 0)
    ensures right ==> Split(s, p + 1, hi, key, equal, target)
    ensures !right ==> Split(s, lo, p, key, equal, target)
  {
    if right {
      forall i | 0 <= i < p + 1 && i < |s| ensures s[i].key < key || (!equal && s[i].key == key && target <= 0) {
        assert i < p ==> s[i].key <= s[p].key;
      }
    } else {
      forall i | p <= i < |s| ensures s[i].key > key || (!equal && s[i].key == key && target > 0) {
        assert i > p ==> s[p].key <= s[i].key;
      }
    }
  }

  lemma {:induction false} KeepPath(root: Tree, branch: seq<bool>, path: seq<Tree>, r: nat, at: nat, right: bool,
                                    child: Tree)
    requires OnPath(root, branch, path, r) && r <= at < MAX_DEPTH
    ensures OnPath(root, branch[at := right], path[at := child], r)
  {
    var b, p := branch[at := right], path[at := child];
    assert b[..r] == branch[..r];
    forall i: nat | i < r ensures p[i] == Sub(root, b[..i + 1]) && p[i].Node? && Sub(root, b[..i]).Node? {
      assert b[..i] == branch[..i] && b[..i + 1] == branch[..i + 1];
    }
  }

  /** When the search has narrowed down to nothing, the recorded node is the nearest. */
  lemma {:induction false} Landed(root: Tree, branch: seq<bool>, depth: int, at: nat, target: int, key: int,
                                  less: bool, equal: bool, greater: bool)
    requires at <= |branch| && -1 <= depth < at && Recorded(root, branch, depth, at, target)
    requires Base(root, branch[..at]) == End(root, branch[..at])
             && target == (if less then 1 else if greater then -1 else 0)
    requires Split(InOrder(root), Base(root, branch[..at]), End(root, branch[..at]), key, equal, target)
             && Sorted(InOrder(root))
    ensures depth < 0 ==> Missing(InOrder(root), key, less, equal, greater)
    ensures depth >= 0 ==> Sub(root, branch[..depth]).Node?
                           && Nearest(InOrder(root), Rank(root, branch[..depth]), key, less, equal, greater)
  {
    hide InOrder, Sub, Base;
    var s, m := InOrder(root), Base(root, branch[..at]);
    if depth >= 0 {
      NodeAt(root, branch[..depth]);
      Side(s, m, Rank(root, branch[..depth]), key, less, equal, greater, target);
    } else {
      NoSide(s, m, key, less, equal, greater, target);
    }
  }

  lemma {:induction false} Side(s: seq<Entry>, m: nat, p: nat, key: int, less: bool, equal: bool, greater: bool,
                                target: int)
    requires Sorted(s) && p < |s| && Split(s, m, m, key, equal, target) && target == (if less then 1 else -1)
             && (less || greater)
    requires p == if less then m - 1 else m
    ensures Nearest(s, p, key, less, equal, greater)
  {
    forall i | 0 <= i < |s| ensures less && s[i].key < key ==> s[i].key <= s[p].key {
      assert i < m ==> i <= p;
      assert i < p ==> s[i].key <= s[p].key;
    }
    forall i | 0 <= i < |s| ensures !less && s[i].key > key ==> s[i].key >= s[p].key {
      assert p < i ==> s[p].key <= s[i].key;
    }
  }

  lemma {:induction false} NoSide(s: seq<Entry>, m: nat, key: int, less: bool, equal: bool, greater: bool, target: int)
    requires Split(s, m, m, key, equal, target) && target == (if less then 1 else if greater then -1 else 0)
    requires (less ==> m == 0) && (!less && greater ==> m == |s|)
    ensures Missing(s, key, less, equal, greater)
  {
  }

  /** A step to one side moves one of the bounds to the node just passed, which is recorded if it is on the
      wanted side. */
  lemma {:induction false} RecordStep(root: Tree, branch: seq<bool>, depth: int, at: nat, target: int, right: bool,
                                      b: seq<bool>)
    requires at <= |branch| && at < |b| && b[..at] == branch[..at] && b[at] == right
    requires -1 <= depth <= at && Sub(root, branch[..at]).Node?
    requires depth == at ==> target != 0 && (right <==> target > 0)
    requires depth < at ==> Recorded(root, branch, depth, at, target) && (target != 0 ==> (right <==> target < 0))
    ensures Recorded(root, b, depth, at + 1, target)
  {
    hide InOrder, Sub, Base;
    var d := branch[..at];
    assert b[..at + 1] == d + [right];
    SubAppend(root, d, right);
    EndAppend(root, d, right);
    if depth >= 0 { assert b[..depth] == d[..depth] == branch[..depth]; }
  }
}
