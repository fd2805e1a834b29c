/** AVL trees with stored heights, as values: what the operations on linked nodes compute. */
module AvlTree {
  datatype Entry = Entry(key: int, ptr: int)

  datatype Tree = Nil | Node(left: Tree, e: Entry, height: int, right: Tree)

  function Height(t: Tree): int { if t.Nil? then 0 else t.height }

  function Max(a: int, b: int): int { if a > b then a else b }

  /** A node over two subtrees, with its height set from theirs. */
  function Make(l: Tree, e: Entry, r: Tree): Tree { Node(l, e, Max(Height(l), Height(r)) + 1, r) }

  function Balance(t: Tree): int
    requires t.Node?
  {
    Height(t.right) - Height(t.left)
  }

  function InOrder(t: Tree): seq<Entry> {
    if t.Nil? then [] else InOrder(t.left) + [t.e] + InOrder(t.right)
  }

  /** Every stored height is the height of the subtree. */
  ghost predicate HeightsOk(t: Tree) {
    t.Node? ==> HeightsOk(t.left) && HeightsOk(t.right) && t.height == Max(Height(t.left), Height(t.right)) + 1
  }

  ghost predicate Balanced(t: Tree) {
    t.Node? ==> Balanced(t.left) && Balanced(t.right) && -1 <= Height(t.right) - Height(t.left) <= 1
  }

  lemma {:induction false} HeightPositive(t: Tree)
    requires HeightsOk(t)
    ensures Height(t) >= 0 && (t.Node? <==> Height(t) > 0)
  {
    if t.Node? {
      HeightPositive(t.left);
      HeightPositive(t.right);
    }
  }

  // ----- rotations

  function RotateLeft(t: Tree): Tree
    requires t.Node? && t.right.Node?
  {
    Make(Make(t.left, t.e, t.right.left), t.right.e, t.right.right)
  }

  function RotateRight(t: Tree): Tree
    requires t.Node? && t.left.Node?
  {
    Make(t.left.left, t.left.e, Make(t.left.right, t.e, t.right))
  }

  /** The node with its heights as they are but one subtree replaced. */
  function WithLeft(t: Tree, l: Tree): Tree
    requires t.Node?
  {
    Node(l, t.e, t.height, t.right)
  }

  function WithRight(t: Tree, r: Tree): Tree
    requires t.Node?
  {
    Node(t.left, t.e, t.height, r)
  }

  predicate CanFix(t: Tree)
  {
    && t.Node?
    && (Balance(t) == 2 ==> t.right.Node? && (Height(t.right.left) > Height(t.right.right) ==> t.right.left.Node?))
    && (Balance(t) == -2 ==> t.left.Node? && (Height(t.left.left) < Height(t.left.right) ==> t.left.right.Node?))
  }

  function Fixup(t: Tree): Tree
    requires CanFix(t)
  {
    if Balance(t) == 2 then
      if Height(t.right.left) <= Height(t.right.right) then RotateLeft(t)
      else RotateLeft(WithRight(t, RotateRight(t.right)))
    else if Balance(t) == -2 then
      if Height(t.left.left) >= Height(t.left.right) then RotateRight(t)
      else RotateRight(WithLeft(t, RotateLeft(t.left)))
    else t
  }

  lemma {:induction false} CanAlwaysFix(t: Tree)
    requires t.Node? && HeightsOk(t.left) && HeightsOk(t.right)
    ensures CanFix(t)
  {
    HeightPositive(t.left);
    HeightPositive(t.right);
    if t.left.Node? { HeightPositive(t.left.left); HeightPositive(t.left.right); }
    if t.right.Node? { HeightPositive(t.right.left); HeightPositive(t.right.right); }
  }

  /** Rotations keep the in-order sequence and set exact heights. */
  lemma {:induction false} FixupKeeps(t: Tree)
    requires CanFix(t) && HeightsOk(t)
    ensures HeightsOk(Fixup(t)) && InOrder(Fixup(t)) == InOrder(t)
  {
    hide InOrder, HeightsOk, RotateLeft, RotateRight;
    Steps(t);
    Steps(t.left);
    Steps(t.right);
    if t.right.Node? && t.right.left.Node? { RotateRightIs(t.right); Steps(WithRight(t, RotateRight(t.right))); }
    if t.left.Node? && t.left.right.Node? { RotateLeftIs(t.left); Steps(WithLeft(t, RotateLeft(t.left))); }
    if Balance(t) == 2 {
      if Height(t.right.left) <= Height(t.right.right) { RotateLeftKeeps(t); }
      else { RotateRightKeeps(t.right); RotateLeftKeeps(WithRight(t, RotateRight(t.right))); }
    } else if Balance(t) == -2 {
      if Height(t.left.left) >= Height(t.left.right) { RotateRightKeeps(t); }
      else { RotateLeftKeeps(t.left); RotateRightKeeps(WithLeft(t, RotateLeft(t.left))); }
    }
  }

  lemma {:induction false} RotateRightIs(t: Tree)
    requires t.Node? && t.left.Node?
    ensures RotateRight(t).Node?
  {
  }

  lemma {:induction false} RotateLeftIs(t: Tree)
    requires t.Node? && t.right.Node?
    ensures RotateLeft(t).Node?
  {
  }

  lemma {:induction false} Steps(t: Tree)
    ensures t.Nil? ==> InOrder(t) == [] && HeightsOk(t) && Balanced(t)
    ensures t.Node? ==> InOrder(t) == InOrder(t.left) + [t.e] + InOrder(t.right)
    ensures t.Node? ==> (HeightsOk(t) <==> HeightsOk(t.left) && HeightsOk(t.right)
                                           && t.height == Max(Height(t.left), Height(t.right)) + 1)
    ensures t.Node? ==> (Balanced(t) <==> Balanced(t.left) && Balanced(t.right) && -1 <= Balance(t) <= 1)
  {
  }

  lemma {:induction false} Regroup(a: seq<Entry>, x: Entry, b: seq<Entry>, y: Entry, c: seq<Entry>)
    ensures a + [x] + (b + [y] + c) == (a + [x] + b) + [y] + c
  {
  }

  lemma {:induction false} RotateLeftKeeps(t: Tree)
    requires t.Node? && t.right.Node?
    ensures InOrder(RotateLeft(t)) == InOrder(t)
    ensures HeightsOk(t.left) && HeightsOk(t.right) ==> HeightsOk(RotateLeft(t))
  {
    hide InOrder, HeightsOk;
    var l := Make(t.left, t.e, t.right.left);
    Steps(t);
    Steps(t.right);
    Steps(l);
    Steps(RotateLeft(t));
    Regroup(InOrder(t.left), t.e, InOrder(t.right.left), t.right.e, InOrder(t.right.right));
  }

  lemma {:induction false} RotateRightKeeps(t: Tree)
    requires t.Node? && t.left.Node?
    ensures InOrder(RotateRight(t)) == InOrder(t)
    ensures HeightsOk(t.left) && HeightsOk(t.right) ==> HeightsOk(RotateRight(t))
  {
    hide InOrder, HeightsOk;
    var r := Make(t.left.right, t.e, t.right);
    Steps(t);
    Steps(t.left);
    Steps(r);
    Steps(RotateRight(t));
    Regroup(InOrder(t.left.left), t.left.e, InOrder(t.left.right), t.e, InOrder(t.right));
  }

  // ----- insertion

  function Insert(t: Tree, e: Entry): (r: Tree)
    requires HeightsOk(t)
    ensures HeightsOk(r) && r.Node?
  {
    if t.Nil? then Node(Nil, e, 1, Nil)
    else
      var s := if e.key < t.e.key then Make(Insert(t.left, e), t.e, t.right) else Make(t.left, t.e, Insert(t.right, e));
      CanAlwaysFix(s);
      FixupKeeps(s);
      Fixup(s)
  }

  /** Insertion keeps balance, and the tree grows by at most one level. */
  lemma {:induction false} InsertBalanced(t: Tree, e: Entry)
    requires HeightsOk(t) && Balanced(t)
    ensures Grown(t, Insert(t, e))
  {
    if t.Node? {
      hide InOrder;
      if e.key < t.e.key { InsertBalanced(t.left, e); } else { InsertBalanced(t.right, e); }
      hide HeightsOk, Balanced, Insert, Grown;
      InsertStep(t, e);
    }
  }

  /** What insertion makes of a subtree: balanced, at most one level higher, and leaning if higher. */
  ghost predicate Grown(t: Tree, r: Tree) {
    && Balanced(r) && Height(t) <= Height(r) <= Height(t) + 1
    && (t.Node? && r.Node? && Height(r) == Height(t) + 1 ==> Balance(r) != 0)
  }

  lemma {:induction false} InsertStep(t: Tree, e: Entry)
    requires t.Node? && HeightsOk(t) && Balanced(t)
    requires e.key < t.e.key ==> Grown(t.left, Insert(t.left, e))
    requires e.key >= t.e.key ==> Grown(t.right, Insert(t.right, e))
    ensures Grown(t, Insert(t, e))
  {
    hide HeightsOk, Balanced, InOrder, Insert;
    Steps(t);
    InsertIs(t, e);
    HeightPositive(t.left);
    HeightPositive(t.right);
    var s := if e.key < t.e.key then Make(Insert(t.left, e), t.e, t.right) else Make(t.left, t.e, Insert(t.right, e));
    Steps(s);
    HeightPositive(s.left);
    HeightPositive(s.right);
    FixBalanced(s);
  }

  lemma {:induction false} InsertIs(t: Tree, e: Entry)
    requires t.Node? && HeightsOk(t)
    ensures var s := if e.key < t.e.key then Make(Insert(t.left, e), t.e, t.right)
            else Make(t.left, t.e, Insert(t.right, e));
            CanFix(s) && Insert(t, e) == Fixup(s) && HeightsOk(s)
  {
    hide InOrder, Fixup;
    var s := if e.key < t.e.key then Make(Insert(t.left, e), t.e, t.right) else Make(t.left, t.e, Insert(t.right, e));
    CanAlwaysFix(s);
  }

  lemma {:induction false} BalancedMake(l: Tree, e: Entry, r: Tree)
    requires Balanced(l) && Balanced(r) && -1 <= Height(r) - Height(l) <= 1
    ensures Balanced(Make(l, e, r)) && Height(Make(l, e, r)) == Max(Height(l), Height(r)) + 1
  {
  }

  /** A node out of balance by two is repaired, and is lower than before exactly when its heavy side leans. */
  lemma {:induction false} FixBalanced(t: Tree)
    requires HeightsOk(t) && t.Node? && Balanced(t.left) && Balanced(t.right) && -2 <= Balance(t) <= 2
    ensures CanFix(t) && Balanced(Fixup(t)) && Fixup(t).Node?
    ensures -1 <= Balance(t) <= 1 ==> Fixup(t) == t
    ensures Balance(t) == 2 ==> Height(Fixup(t)) == Height(t) - if Balance(t.right) == 0 then 0 else 1
    ensures Balance(t) == -2 ==> Height(Fixup(t)) == Height(t) - if Balance(t.left) == 0 then 0 else 1
  {
    hide HeightsOk, Balanced, InOrder;
    CanAlwaysFixHere(t);
    Steps(t);
    if Balance(t) == 2 { FixRight(t); } else if Balance(t) == -2 { FixLeft(t); }
  }

  lemma {:induction false} CanAlwaysFixHere(t: Tree)
    requires t.Node? && HeightsOk(t)
    ensures CanFix(t)
  {
    CanAlwaysFix(t);
  }

  lemma {:induction false} FixRight(t: Tree)
    requires HeightsOk(t) && t.Node? && CanFix(t) && Balanced(t.left) && Balanced(t.right) && Balance(t) == 2
    ensures Balanced(Fixup(t)) && Fixup(t).Node?
    ensures Height(Fixup(t)) == Height(t) - if Balance(t.right) == 0 then 0 else 1
  {
    hide HeightsOk, Balanced, InOrder;
    var r := t.right;
    Steps(t);
    Steps(r);
    if Height(r.left) <= Height(r.right) {
      BalancedMake(t.left, t.e, r.left);
      BalancedMake(Make(t.left, t.e, r.left), r.e, r.right);
    } else {
      var m := r.left;
      Steps(m);
      BalancedMake(t.left, t.e, m.left);
      BalancedMake(m.right, r.e, r.right);
      BalancedMake(Make(t.left, t.e, m.left), m.e, Make(m.right, r.e, r.right));
    }
  }

  lemma {:induction false} FixLeft(t: Tree)
    requires HeightsOk(t) && t.Node? && CanFix(t) && Balanced(t.left) && Balanced(t.right) && Balance(t) == -2
    ensures Balanced(Fixup(t)) && Fixup(t).Node?
    ensures Height(Fixup(t)) == Height(t) - if Balance(t.left) == 0 then 0 else 1
  {
    hide HeightsOk, Balanced, InOrder;
    var l := t.left;
    Steps(t);
    Steps(l);
    if Height(l.left) >= Height(l.right) {
      BalancedMake(l.right, t.e, t.right);
      BalancedMake(l.left, l.e, Make(l.right, t.e, t.right));
    } else {
      var m := l.right;
      Steps(m);
      BalancedMake(l.left, l.e, m.left);
      BalancedMake(m.right, t.e, t.right);
      BalancedMake(Make(l.left, l.e, m.left), m.e, Make(m.right, t.e, t.right));
    }
  }

  // ----- order

  ghost predicate Sorted(s: seq<Entry>) {
    forall i, j :: 0 <= i < j < |s| ==> s[i].key <= s[j].key
  }

  /** The position where insertion puts an entry: after all smaller and equal keys, as far as the path
      decides. */
  ghost function Place(t: Tree, k: int): (p: nat)
    ensures p <= |InOrder(t)|
  {
    if t.Nil? then 0
    else if k < t.e.key then Place(t.left, k)
    else |InOrder(t.left)| + 1 + Place(t.right, k)
  }

  /** The in-order sequence gains exactly the new entry. */
  lemma {:induction false} InsertOrder(t: Tree, e: Entry)
    requires HeightsOk(t)
    ensures var p := Place(t, e.key); InOrder(Insert(t, e)) == InOrder(t)[..p] + [e] + InOrder(t)[p..]
  {
    if t.Node? {
      hide HeightsOk, InOrder, Insert, Fixup;
      Steps(t);
      InsertIs(t, e);
      var p := Place(t, e.key);
      var a, c := InOrder(t.left), InOrder(t.right);
      var s := if e.key < t.e.key then Make(Insert(t.left, e), t.e, t.right) else Make(t.left, t.e, Insert(t.right, e));
      Steps(s);
      FixupKeeps(s);
      if e.key < t.e.key {
        InsertOrder(t.left, e);
        SplitLeft(a, t.e, c, p, e);
      } else {
        InsertOrder(t.right, e);
        SplitRight(a, t.e, c, p - |a| - 1, e);
      }
    }
  }

  lemma {:induction false} SplitLeft(a: seq<Entry>, x: Entry, c: seq<Entry>, p: nat, e: Entry)
    requires p <= |a|
    ensures var s := a + [x] + c; (a[..p] + [e] + a[p..]) + [x] + c == s[..p] + [e] + s[p..]
  {
  }

  lemma {:induction false} SplitRight(a: seq<Entry>, x: Entry, c: seq<Entry>, q: nat, e: Entry)
    requires q <= |c|
    ensures var s, p := a + [x] + c, |a| + 1 + q; a + [x] + (c[..q] + [e] + c[q..]) == s[..p] + [e] + s[p..]
  {
  }

  lemma {:induction false} PlaceSorted(t: Tree, k: int)
    requires Sorted(InOrder(t))
    ensures forall i :: 0 <= i < Place(t, k) ==> InOrder(t)[i].key <= k
    ensures forall i :: Place(t, k) <= i < |InOrder(t)| ==> k < InOrder(t)[i].key
  {
    if t.Node? {
      hide InOrder;
      Steps(t);
      var a, c, s := InOrder(t.left), InOrder(t.right), InOrder(t);
      SortedParts(t);
      var n := |a|;
      assert forall i :: 0 <= i < n ==> s[i] == a[i];
      assert s[n] == t.e;
      assert forall i :: n < i < |s| ==> s[i] == c[i - n - 1];
      if k < t.e.key { PlaceSorted(t.left, k); } else { PlaceSorted(t.right, k); }
    }
  }

  lemma {:induction false} SortedParts(t: Tree)
    requires t.Node? && Sorted(InOrder(t))
    ensures Sorted(InOrder(t.left)) && Sorted(InOrder(t.right))
    ensures forall i :: 0 <= i < |InOrder(t.left)| ==> InOrder(t.left)[i].key <= t.e.key
    ensures forall i :: 0 <= i < |InOrder(t.right)| ==> t.e.key <= InOrder(t.right)[i].key
  {
    hide InOrder;
    Steps(t);
    var a, c, s := InOrder(t.left), InOrder(t.right), InOrder(t);
    var n := |a|;
    forall i, j | 0 <= i < j < n ensures a[i].key <= a[j].key { assert s[i] == a[i] && s[j] == a[j]; }
    forall i, j | 0 <= i < j < |c| ensures c[i].key <= c[j].key { assert s[n + 1 + i] == c[i] && s[n + 1 + j] == c[j]; }
    forall i | 0 <= i < n ensures a[i].key <= t.e.key { assert s[i] == a[i] && s[n] == t.e; }
    forall i | 0 <= i < |c| ensures t.e.key <= c[i].key { assert s[n + 1 + i] == c[i] && s[n] == t.e; }
  }

  /** Insertion keeps the order. */
  lemma {:induction false} InsertSorted(t: Tree, e: Entry)
    requires HeightsOk(t) && Sorted(InOrder(t))
    ensures Sorted(InOrder(Insert(t, e)))
  {
    hide InOrder, Insert, HeightsOk, Place;
    var p, s := Place(t, e.key), InOrder(t);
    InsertOrder(t, e);
    PlaceSorted(t, e.key);
    var r := s[..p] + [e] + s[p..];
    assert forall i :: 0 <= i < |r| ==> r[i] == if i < p then s[i] else if i == p then e else s[i - 1];
  }

  // ----- removal

  /** The leftmost entry, and the tree without it. */
  function Least(t: Tree): Entry
    requires t.Node?
  {
    if t.left.Node? then Least(t.left) else t.e
  }

  function EraseMin(t: Tree): (r: Tree)
    requires t.Node? && HeightsOk(t)
    ensures HeightsOk(r)
  {
    if t.left.Node? then Make(EraseMin(t.left), t.e, t.right) else t.right
  }

  lemma {:induction false} EraseMinOrder(t: Tree)
    requires t.Node? && HeightsOk(t)
    ensures InOrder(t) == [Least(t)] + InOrder(EraseMin(t))
  {
    Steps(t);
    if t.left.Node? {
      EraseMinOrder(t.left);
      var s := Make(EraseMin(t.left), t.e, t.right);
      Steps(s);
      hide InOrder, HeightsOk;
      assert InOrder(t) == ([Least(t.left)] + InOrder(EraseMin(t.left))) + [t.e] + InOrder(t.right);
      assert InOrder(s) == InOrder(EraseMin(t.left)) + [t.e] + InOrder(t.right);
    } else {
      Steps(t.left);
    }
  }

  /** Setting the height of a subtree root and repairing it. */
  function Settle(t: Tree): (r: Tree)
    requires HeightsOk(t)
    ensures HeightsOk(r)
  {
    if t.Nil? then Nil
    else
      CanAlwaysFix(Make(t.left, t.e, t.right));
      FixupKeeps(Make(t.left, t.e, t.right));
      Fixup(Make(t.left, t.e, t.right))
  }

  lemma {:induction false} SettleKeeps(t: Tree)
    requires HeightsOk(t)
    ensures InOrder(Settle(t)) == InOrder(t)
  {
    if t.Node? {
      hide InOrder;
      var s := Make(t.left, t.e, t.right);
      CanAlwaysFix(s);
      FixupKeeps(s);
      Steps(t);
      Steps(s);
    }
  }

  function Erase(t: Tree, k: int): (r: Tree)
    requires HeightsOk(t)
    ensures HeightsOk(r)
  {
    if t.Nil? then Nil
    else if k < t.e.key then Settle(Make(Erase(t.left, k), t.e, t.right))
    else if k > t.e.key then Settle(Make(t.left, t.e, Erase(t.right, k)))
    else if t.left.Nil? then Settle(t.right)
    else if t.right.Nil? then Settle(t.left)
    else Settle(Make(t.left, Least(t.right), EraseMin(t.right)))
  }

  /** The position of the entry that a search for k finds, or -1. */
  ghost function Find(t: Tree, k: int): (p: int)
    ensures -1 <= p < |InOrder(t)| && (p >= 0 ==> InOrder(t)[p].key == k)
  {
    if t.Nil? then -1
    else if k < t.e.key then Find(t.left, k)
    else if k > t.e.key then (var q := Find(t.right, k); if q < 0 then -1 else |InOrder(t.left)| + 1 + q)
    else |InOrder(t.left)|
  }

  /** r is s without the entry at p, or s itself if p is -1. */
  ghost predicate Without(s: seq<Entry>, p: int, r: seq<Entry>)
    requires -1 <= p < |s|
  {
    r == if p < 0 then s else s[..p] + s[p + 1..]
  }

  /** Removal takes out the entry that a search finds, and nothing else. */
  lemma {:induction false} EraseOrder(t: Tree, k: int)
    requires HeightsOk(t)
    ensures Without(InOrder(t), Find(t, k), InOrder(Erase(t, k)))
  {
    if t.Node? {
      hide InOrder, HeightsOk, Settle, Erase, Find, Without;
      EraseIs(t, k);
      if k < t.e.key {
        EraseOrder(t.left, k);
        EraseOrderLeft(t, k);
      } else if k > t.e.key {
        EraseOrder(t.right, k);
        EraseOrderRight(t, k);
      } else {
        FindIs(t, k);
        EraseHere(t);
        WithoutIntro(InOrder(t), |InOrder(t.left)|, InOrder(Erase(t, k)));
      }
    }
  }

  lemma {:induction false} WithoutIntro(s: seq<Entry>, p: nat, r: seq<Entry>)
    requires p < |s| && r == s[..p] + s[p + 1..]
    ensures Without(s, p, r)
  {
  }

  lemma {:induction false} WithoutLeft(a: seq<Entry>, x: Entry, c: seq<Entry>, p: int, r: seq<Entry>)
    requires -1 <= p < |a| && Without(a, p, r)
    ensures Without(a + [x] + c, p, r + [x] + c)
  {
    if p >= 0 { CutLeft(a, x, c, p); }
  }

  lemma {:induction false} WithoutRight(a: seq<Entry>, x: Entry, c: seq<Entry>, q: int, r: seq<Entry>)
    requires -1 <= q < |c| && Without(c, q, r)
    ensures Without(a + [x] + c, if q < 0 then -1 else |a| + 1 + q, a + [x] + r)
  {
    if q >= 0 { CutRight(a, x, c, q); }
  }

  lemma {:induction false} EraseOrderLeft(t: Tree, k: int)
    requires HeightsOk(t) && t.Node? && k < t.e.key && HeightsOk(t.left)
             && Without(InOrder(t.left), Find(t.left, k), InOrder(Erase(t.left, k)))
    ensures Without(InOrder(t), Find(t, k), InOrder(Erase(t, k)))
  {
    hide InOrder, HeightsOk, Settle, Erase, Find, Without;
    Steps(t);
    EraseIs(t, k);
    FindIs(t, k);
    var s := Make(Erase(t.left, k), t.e, t.right);
    Steps(s);
    SettleKeeps(s);
    WithoutLeft(InOrder(t.left), t.e, InOrder(t.right), Find(t.left, k), InOrder(Erase(t.left, k)));
  }

  lemma {:induction false} EraseOrderRight(t: Tree, k: int)
    requires HeightsOk(t) && t.Node? && k > t.e.key && HeightsOk(t.right)
             && Without(InOrder(t.right), Find(t.right, k), InOrder(Erase(t.right, k)))
    ensures Without(InOrder(t), Find(t, k), InOrder(Erase(t, k)))
  {
    hide InOrder, HeightsOk, Settle, Erase, Find, Without;
    Steps(t);
    EraseIs(t, k);
    FindIs(t, k);
    var s := Make(t.left, t.e, Erase(t.right, k));
    Steps(s);
    SettleKeeps(s);
    WithoutRight(InOrder(t.left), t.e, InOrder(t.right), Find(t.right, k), InOrder(Erase(t.right, k)));
  }

  lemma {:induction false} EraseIs(t: Tree, k: int)
    requires HeightsOk(t) && t.Node?
    ensures HeightsOk(t.left) && HeightsOk(t.right)
    ensures k < t.e.key ==> HeightsOk(Make(Erase(t.left, k), t.e, t.right))
                            && Erase(t, k) == Settle(Make(Erase(t.left, k), t.e, t.right))
    ensures k > t.e.key ==> HeightsOk(Make(t.left, t.e, Erase(t.right, k)))
                            && Erase(t, k) == Settle(Make(t.left, t.e, Erase(t.right, k)))
  {
  }

  lemma {:induction false} FindIs(t: Tree, k: int)
    requires t.Node?
    ensures k < t.e.key ==> Find(t, k) == Find(t.left, k)
    ensures k > t.e.key ==> Find(t, k) == if Find(t.right, k) < 0 then -1 else |InOrder(t.left)| + 1 + Find(t.right, k)
    ensures k == t.e.key ==> Find(t, k) == |InOrder(t.left)|
  {
  }

  lemma {:induction false} CutLeft(a: seq<Entry>, x: Entry, c: seq<Entry>, p: nat)
    requires p < |a|
    ensures var s := a + [x] + c; (a[..p] + a[p + 1..]) + [x] + c == s[..p] + s[p + 1..]
  {
  }

  lemma {:induction false} CutRight(a: seq<Entry>, x: Entry, c: seq<Entry>, q: nat)
    requires q < |c|
    ensures var s, p := a + [x] + c, |a| + 1 + q; a + [x] + (c[..q] + c[q + 1..]) == s[..p] + s[p + 1..]
  {
  }

  lemma {:induction false} EraseHere(t: Tree)
    requires HeightsOk(t) && t.Node?
    ensures var n := |InOrder(t.left)|;
            n < |InOrder(t)|
            && InOrder(Erase(t, t.e.key)) == InOrder(t)[..n] + InOrder(t)[n + 1..]
  {
    hide InOrder, HeightsOk, Settle, Erase;
    Steps(t);
    Steps(t.left);
    Steps(t.right);
    var a, c := InOrder(t.left), InOrder(t.right);
    EraseRoot(t);
    CutMiddle(a, t.e, c);
  }

  lemma {:induction false} CutMiddle(a: seq<Entry>, x: Entry, c: seq<Entry>)
    ensures var s := a + [x] + c; s[..|a|] + s[|a| + 1..] == a + c
  {
  }

  lemma {:induction false} EraseRoot(t: Tree)
    requires HeightsOk(t) && t.Node?
    ensures InOrder(Erase(t, t.e.key)) == InOrder(t.left) + InOrder(t.right)
  {
    hide InOrder, HeightsOk, Settle, Erase, Least, EraseMin;
    Steps(t);
    Steps(t.left);
    Steps(t.right);
    EraseRootIs(t);
    if t.left.Nil? {
      SettleKeeps(t.right);
    } else if t.right.Nil? {
      SettleKeeps(t.left);
    } else {
      EraseMinOrder(t.right);
      var s := Make(t.left, Least(t.right), EraseMin(t.right));
      Steps(s);
      SettleKeeps(s);
      Shift(InOrder(t.left), Least(t.right), InOrder(EraseMin(t.right)));
    }
  }

  lemma {:induction false} Shift(a: seq<Entry>, x: Entry, c: seq<Entry>)
    ensures a + [x] + c == a + ([x] + c)
  {
  }

  lemma {:induction false} EraseRootIs(t: Tree)
    requires HeightsOk(t) && t.Node?
    ensures HeightsOk(t.left) && HeightsOk(t.right)
    ensures t.left.Nil? ==> Erase(t, t.e.key) == Settle(t.right)
    ensures t.left.Node? && t.right.Nil? ==> Erase(t, t.e.key) == Settle(t.left)
    ensures t.left.Node? && t.right.Node? ==>
              HeightsOk(Make(t.left, Least(t.right), EraseMin(t.right)))
              && Erase(t, t.e.key) == Settle(Make(t.left, Least(t.right), EraseMin(t.right)))
  {
  }

  /** In a sorted tree the search finds every key that is there. */
  lemma {:induction false} FindSorted(t: Tree, k: int)
    requires Sorted(InOrder(t))
    ensures Find(t, k) < 0 <==> forall i :: 0 <= i < |InOrder(t)| ==> InOrder(t)[i].key != k
  {
    if t.Node? {
      hide InOrder;
      Steps(t);
      SortedParts(t);
      var a, c, s := InOrder(t.left), InOrder(t.right), InOrder(t);
      var n := |a|;
      assert forall i :: 0 <= i < n ==> s[i] == a[i];
      assert s[n] == t.e;
      assert forall i :: n < i < |s| ==> s[i] == c[i - n - 1];
      if k < t.e.key { FindSorted(t.left, k); } else if k > t.e.key {
        FindSorted(t.right, k);
        assert forall i :: 0 <= i < |c| ==> c[i] == s[n + 1 + i];
      }
    }
  }

  lemma {:induction false} EraseSorted(t: Tree, k: int)
    requires HeightsOk(t) && Sorted(InOrder(t))
    ensures Sorted(InOrder(Erase(t, k)))
  {
    hide InOrder, Erase, HeightsOk, Find;
    EraseOrder(t, k);
    var p, s := Find(t, k), InOrder(t);
    if p >= 0 {
      var r := s[..p] + s[p + 1..];
      assert forall i :: 0 <= i < |r| ==> r[i] == if i < p then s[i] else s[i + 1];
    }
  }

  // ----- when removal keeps balance

  /** Going up the left spine from the parent of the least node: the balance of the first node that does not
      lean left, or -1 if every node leans left. */
  function FirstLean(t: Tree): int
    requires t.Node?
  {
    if t.left.Nil? then -1
    else if FirstLean(t.left) != -1 then FirstLean(t.left)
    else Balance(t)
  }

  /** The least node can be taken out without repair. */
  predicate SpineSafe(t: Tree)
    requires t.Node?
  {
    FirstLean(t) <= 0
  }

  /** Taking out the least node keeps balance exactly when the spine is safe, and lowers the tree by one
      exactly when every node of the spine leans left. */
  lemma {:induction false} EraseMinBalance(t: Tree)
    requires t.Node? && HeightsOk(t) && Balanced(t)
    ensures Balanced(EraseMin(t)) <==> SpineSafe(t)
    ensures Height(EraseMin(t)) == Height(t) - if FirstLean(t) == -1 then 1 else 0
  {
    HeightPositive(t.left);
    HeightPositive(t.right);
    if t.left.Node? {
      EraseMinBalance(t.left);
    }
  }

  /** The node that a search for k reaches, Nil if there is none. */
  function Found(t: Tree, k: int): Tree {
    if t.Nil? then Nil
    else if k < t.e.key then Found(t.left, k)
    else if k > t.e.key then Found(t.right, k)
    else t
  }

  lemma {:induction false} FoundIffFind(t: Tree, k: int)
    ensures Found(t, k).Nil? <==> Find(t, k) < 0
  {
    if t.Node? {
      FindIs(t, k);
      if k < t.e.key { FoundIffFind(t.left, k); } else if k > t.e.key { FoundIffFind(t.right, k); }
    }
  }

  /** The successor of the node with key k, if it takes that node's place, can be taken out without repair. */
  predicate EraseSafe(t: Tree, k: int) {
    var n := Found(t, k);
    n.Nil? || n.left.Nil? || n.right.Nil? || SpineSafe(n.right)
  }

  /** What removal makes of a subtree: as high or one level lower, and as high as before if it is out of balance. */
  ghost predicate Shrunk(t: Tree, r: Tree, safe: bool) {
    && Height(t) - 1 <= Height(r) <= Height(t)
    && (Balanced(r) <==> safe)
    && (!safe ==> Height(r) == Height(t))
  }

  lemma {:induction false} SettleLevel(t: Tree)
    requires t.Node? && HeightsOk(t) && -1 <= Balance(t) <= 1
    ensures Settle(t) == t
  {
  }

  /** Settling a node keeps its subtrees out of balance as they are, and repairs it otherwise. */
  lemma {:induction false} SettleShrunk(t: Tree, s: Tree, safe: bool)
    requires t.Node? && s.Node? && HeightsOk(t) && HeightsOk(s) && Balanced(t)
    requires (s.right == t.right && Shrunk(t.left, s.left, safe))
             || (s.left == t.left && Shrunk(t.right, s.right, safe))
    ensures Shrunk(t, Settle(s), safe)
  {
    hide HeightsOk, Balanced, Settle, Fixup;
    Steps(t);
    Steps(s);
    HeightPositive(t.left);
    HeightPositive(t.right);
    if -1 <= Balance(s) <= 1 {
      SettleLevel(s);
    } else {
      FixBalanced(s);
      SettleFixes(s);
    }
  }

  lemma {:induction false} SettleFixes(t: Tree)
    requires t.Node? && HeightsOk(t) && CanFix(t)
    ensures Settle(t) == Fixup(t)
  {
  }

  /** Removal keeps balance exactly when the node found has at most one child, or its successor is taken out of
      a safe spine. */
  lemma {:induction false} EraseBalance(t: Tree, k: int)
    requires HeightsOk(t) && Balanced(t)
    ensures Balanced(Erase(t, k)) <==> EraseSafe(t, k)
    ensures Shrunk(t, Erase(t, k), EraseSafe(t, k))
  {
    if t.Node? {
      hide InOrder, HeightsOk, Balanced, Settle, Erase, Shrunk, SpineSafe;
      Steps(t);
      EraseIs(t, k);
      if k < t.e.key {
        EraseBalance(t.left, k);
        SettleShrunk(t, Make(Erase(t.left, k), t.e, t.right), EraseSafe(t, k));
      } else if k > t.e.key {
        EraseBalance(t.right, k);
        SettleShrunk(t, Make(t.left, t.e, Erase(t.right, k)), EraseSafe(t, k));
      } else {
        EraseRootBalance(t);
      }
      ShrunkIs(t, Erase(t, k), EraseSafe(t, k));
    }
  }

  lemma {:induction false} ShrunkIs(t: Tree, r: Tree, safe: bool)
    requires Shrunk(t, r, safe)
    ensures Balanced(r) <==> safe
  {
  }

  lemma {:induction false} EraseRootBalance(t: Tree)
    requires t.Node? && HeightsOk(t) && Balanced(t)
    ensures Shrunk(t, Erase(t, t.e.key), t.left.Nil? || t.right.Nil? || SpineSafe(t.right))
  {
    hide InOrder, HeightsOk, Balanced, Settle, Erase, EraseMin, Least;
    Steps(t);
    EraseRootIs(t);
    HeightPositive(t.left);
    HeightPositive(t.right);
    Steps(t.left);
    Steps(t.right);
    if t.left.Nil? {
      if t.right.Node? { SettleLevel(t.right); } else { SettleNil(); }
    } else if t.right.Nil? {
      SettleLevel(t.left);
    } else {
      EraseMinBalance(t.right);
      SettleShrunk(t, Make(t.left, Least(t.right), EraseMin(t.right)), SpineSafe(t.right));
    }
  }

  lemma {:induction false} SettleNil()
    ensures Settle(Nil) == Nil
  {
  }

  function Leaf(k: int): Tree { Make(Nil, Entry(k, 0), Nil) }

  lemma {:induction false} LeafOk(k: int)
    ensures Leaf(k).Node? && HeightsOk(Leaf(k)) && Balanced(Leaf(k)) && InOrder(Leaf(k)) == [Entry(k, 0)]
            && Height(Leaf(k)) == 1
  {
  }

  /** A tree of three levels that loses its balance with its least entry. */
  lemma {:induction false} Lopsided(t: Tree, n: Tree)
    requires n == Make(Nil, Entry(40, 0), Leaf(50)) && t == Make(Leaf(20), Entry(30, 0), n)
    ensures HeightsOk(t) && Balanced(t) && Height(t) == 3 && t.left.Node? && t.right.Node?
    ensures InOrder(t) == [Entry(20, 0), Entry(30, 0), Entry(40, 0), Entry(50, 0)]
    ensures Least(t) == Entry(20, 0) && Height(EraseMin(t)) == 3 && !Balanced(EraseMin(t))
  {
    hide Leaf, InOrder, HeightsOk, Balanced, Least, EraseMin;
    LeafOk(20);
    LeafOk(50);
    Steps(Nil);
    Steps(n);
    Steps(t);
    EraseMinIs(t);
    Steps(Make(Nil, Entry(30, 0), n));
  }

  lemma {:induction false} EraseMinIs(t: Tree)
    requires t.Node? && HeightsOk(t) && t.left == Leaf(20)
    ensures Least(t) == Entry(20, 0) && EraseMin(t) == Make(Nil, t.e, t.right)
  {
    assert Least(t.left) == Entry(20, 0) && EraseMin(t.left) == Nil;
  }

  /** Removal does not keep balance: taking the successor out of the right subtree lowers that subtree's left
      side without repairing it. */
  lemma {:induction false} EraseUnbalances()
    ensures exists t: Tree, k: int :: HeightsOk(t) && Balanced(t) && Sorted(InOrder(t)) && !Balanced(Erase(t, k))
  {
    hide InOrder, HeightsOk, Balanced, Least, EraseMin, Leaf, Erase, Settle;
    LeafOk(1);
    var n := Make(Nil, Entry(40, 0), Leaf(50));
    var r := Make(Leaf(20), Entry(30, 0), n);
    Lopsided(r, n);
    var l := Make(Leaf(1), Entry(2, 0), Nil);
    var t := Make(l, Entry(10, 0), r);
    Steps(Nil);
    Steps(l);
    Steps(t);
    assert InOrder(l) == [Entry(1, 0), Entry(2, 0)];
    SortedExample(InOrder(t));
    EraseExample(t, l, r);
  }

  lemma {:induction false} SortedExample(s: seq<Entry>)
    requires s == [Entry(1, 0), Entry(2, 0)] + [Entry(10, 0)] + [Entry(20, 0), Entry(30, 0), Entry(40, 0), Entry(50, 0)]
    ensures Sorted(s)
  {
  }

  lemma {:induction false} EraseExample(t: Tree, l: Tree, r: Tree)
    requires HeightsOk(t) && t == Make(l, Entry(10, 0), r) && l.Node? && r.Node? && Height(l) == 2
    requires HeightsOk(r) && Height(EraseMin(r)) == 3 && !Balanced(EraseMin(r))
    ensures !Balanced(Erase(t, 10))
  {
    hide InOrder, HeightsOk, Balanced, Least, EraseMin, Erase;
    EraseRootIs(t);
    var s := Make(l, Least(r), EraseMin(r));
    Steps(s);
    assert Settle(s) == s;
  }
}
