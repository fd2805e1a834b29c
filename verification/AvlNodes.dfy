/** The tree operations on linked nodes, in place; each computes what the operation on values says. Nodes
    are records in a memory, at addresses; 0 is the null pointer. */
module AvlNodes {
  import opened AvlTree

  datatype Rec = Rec(left: nat, right: nat, height: int, e: Entry)

  type Mem = map<nat, Rec>

  /** Where the nodes of a tree are. */
  datatype Shape = Leaf | At(addr: nat, left: Shape, right: Shape)

  function Addr(s: Shape): nat { if s.Leaf? then 0 else s.addr }

  ghost function Addrs(s: Shape): set<nat> {
    if s.Leaf? then {} else {s.addr} + Addrs(s.left) + Addrs(s.right)
  }

  /** The memory holds a tree of this shape; no node is reached twice. */
  ghost predicate Fits(mem: Mem, s: Shape) {
    s.At? ==>
      && s.addr != 0 && s.addr in mem && mem[s.addr].left == Addr(s.left) && mem[s.addr].right == Addr(s.right)
      && s.addr !in Addrs(s.left) && s.addr !in Addrs(s.right) && Addrs(s.left) !! Addrs(s.right)
      && Fits(mem, s.left) && Fits(mem, s.right)
  }

  ghost function View(mem: Mem, s: Shape): Tree
    requires Fits(mem, s)
  {
    if s.Leaf? then Nil else Node(View(mem, s.left), mem[s.addr].e, mem[s.addr].height, View(mem, s.right))
  }

  /** A tree is not affected by writes to other nodes. */
  lemma {:induction false} Frame(mem: Mem, mem': Mem, s: Shape)
    requires Fits(mem, s) && forall a :: a in Addrs(s) ==> a in mem' && a in mem && mem'[a] == mem[a]
    ensures Fits(mem', s) && View(mem', s) == View(mem, s)
  {
    if s.At? {
      Frame(mem, mem', s.left);
      Frame(mem, mem', s.right);
    }
  }

  lemma {:induction false} AddrsInMem(mem: Mem, s: Shape)
    requires Fits(mem, s)
    ensures 0 !in Addrs(s) && forall a :: a in Addrs(s) ==> a in mem
  {
    if s.At? {
      AddrsInMem(mem, s.left);
      AddrsInMem(mem, s.right);
    }
  }

  lemma {:induction false} Root(mem: Mem, s: Shape)
    requires Fits(mem, s)
    ensures s.Leaf? <==> Addr(s) == 0
    ensures View(mem, s).Nil? <==> s.Leaf?
    ensures s.At? ==> && s.addr in mem && Fits(mem, s.left) && Fits(mem, s.right)
                      && mem[s.addr].left == Addr(s.left) && mem[s.addr].right == Addr(s.right)
                      && View(mem, s) == Node(View(mem, s.left), mem[s.addr].e, mem[s.addr].height, View(mem, s.right))
  {
  }

  /** A root over two separate trees. */
  lemma {:induction false} Join(mem: Mem, a: nat, l: Shape, r: Shape)
    requires Fits(mem, l) && Fits(mem, r) && a != 0 && a in mem && mem[a].left == Addr(l) && mem[a].right == Addr(r)
    requires a !in Addrs(l) && a !in Addrs(r) && Addrs(l) !! Addrs(r)
    ensures Fits(mem, At(a, l, r))
            && View(mem, At(a, l, r)) == Node(View(mem, l), mem[a].e, mem[a].height, View(mem, r))
  {
  }

  function HeightAt(mem: Mem, n: nat): int { if n == 0 || n !in mem then 0 else mem[n].height }

  lemma {:induction false} HeightView(mem: Mem, s: Shape)
    requires Fits(mem, s)
    ensures HeightAt(mem, Addr(s)) == Height(View(mem, s))
  {
  }

  /** The write of one node under two separate trees: they stay, and the node joins them. */
  lemma {:induction false} Relink(mem: Mem, mem': Mem, a: nat, l: Shape, r: Shape)
    requires Fits(mem, l) && Fits(mem, r) && a != 0 && a !in Addrs(l) && a !in Addrs(r) && Addrs(l) !! Addrs(r)
    requires a in mem' && mem'[a].left == Addr(l) && mem'[a].right == Addr(r)
    requires forall x :: x in Addrs(l) + Addrs(r) ==> x in mem' && x in mem && mem'[x] == mem[x]
    ensures Fits(mem', l) && Fits(mem', r) && View(mem', l) == View(mem, l) && View(mem', r) == View(mem, r)
    ensures Fits(mem', At(a, l, r))
            && View(mem', At(a, l, r)) == Node(View(mem, l), mem'[a].e, mem'[a].height, View(mem, r))
  {
    hide Fits, View;
    Frame(mem, mem', l);
    Frame(mem, mem', r);
    Join(mem', a, l, r);
  }

  /** No node outside the set has been written, and none added or removed. */
  ghost predicate Only(mem: Mem, mem': Mem, s: set<nat>) {
    mem'.Keys == mem.Keys && forall a :: a in mem && a !in s ==> mem'[a] == mem[a]
  }

  lemma {:induction false} Elsewhere(mem: Mem, mem': Mem, s: set<nat>, t: Shape)
    requires Fits(mem, t) && Only(mem, mem', s) && s !! Addrs(t)
    ensures Fits(mem', t) && View(mem', t) == View(mem, t)
  {
    hide Fits, View;
    AddrsInMem(mem, t);
    Frame(mem, mem', t);
  }

  /** The parts of a tree whose root has a right child: two nodes and three subtrees, all separate. */
  lemma {:induction false} RightParts(mem: Mem, sh: Shape)
    requires Fits(mem, sh) && sh.At? && sh.right.At?
    ensures var s, k, a, b, c := sh.addr, sh.right.addr, sh.left, sh.right.left, sh.right.right;
            && s in mem && k in mem && s != k && s != 0 && k != 0 && mem[s].right == k && mem[k].left == Addr(b)
            && mem[s].left == Addr(a) && mem[k].right == Addr(c)
            && Fits(mem, a) && Fits(mem, b) && Fits(mem, c)
            && {s, k} !! Addrs(a) && {s, k} !! Addrs(b) && {s, k} !! Addrs(c)
            && Addrs(a) !! Addrs(b) && Addrs(a) !! Addrs(c) && Addrs(b) !! Addrs(c)
            && View(mem, sh) == Node(View(mem, a), mem[s].e, mem[s].height,
               Node(View(mem, b), mem[k].e, mem[k].height, View(mem, c)))
            && Addrs(sh) == {s, k} + Addrs(a) + Addrs(b) + Addrs(c)
  {
  }

  lemma {:induction false} LeftParts(mem: Mem, sh: Shape)
    requires Fits(mem, sh) && sh.At? && sh.left.At?
    ensures var s, k, a, b, c := sh.addr, sh.left.addr, sh.left.left, sh.left.right, sh.right;
            && s in mem && k in mem && s != k && s != 0 && k != 0 && mem[s].left == k && mem[k].right == Addr(b)
            && mem[s].right == Addr(c) && mem[k].left == Addr(a)
            && Fits(mem, a) && Fits(mem, b) && Fits(mem, c)
            && {s, k} !! Addrs(a) && {s, k} !! Addrs(b) && {s, k} !! Addrs(c)
            && Addrs(a) !! Addrs(b) && Addrs(a) !! Addrs(c) && Addrs(b) !! Addrs(c)
            && View(mem, sh) == Node(Node(View(mem, a), mem[k].e, mem[k].height, View(mem, b)), mem[s].e,
               mem[s].height, View(mem, c))
            && Addrs(sh) == {s, k} + Addrs(a) + Addrs(b) + Addrs(c)
  {
  }

  ghost function LeftRotated(sh: Shape): Shape
    requires sh.At? && sh.right.At?
  {
    At(sh.right.addr, At(sh.addr, sh.left, sh.right.left), sh.right.right)
  }

  ghost function RightRotated(sh: Shape): Shape
    requires sh.At? && sh.left.At?
  {
    At(sh.left.addr, sh.left.left, At(sh.addr, sh.left.right, sh.right))
  }

  /** The two pointer writes of a left rotation. */
  lemma {:induction false} LeftLinks(mem: Mem, sh: Shape, mem': Mem)
    requires Fits(mem, sh) && sh.At? && sh.right.At? && sh.addr in mem && sh.right.addr in mem
    requires var s, k := sh.addr, sh.right.addr;
             mem' == mem[s := mem[s].(right := mem[k].left)][k := mem[k].(left := s)]
    ensures Fits(mem', LeftRotated(sh)) && Only(mem, mem', {sh.addr, sh.right.addr})
            && Addrs(LeftRotated(sh)) == Addrs(sh)
    ensures Fits(mem', sh.left) && Fits(mem', sh.right.left) && Fits(mem', sh.right.right)
    ensures Fits(mem, sh.left) && Fits(mem, sh.right.left) && Fits(mem, sh.right.right)
    ensures View(mem', sh.left) == View(mem, sh.left) && View(mem', sh.right.left) == View(mem, sh.right.left)
            && View(mem', sh.right.right) == View(mem, sh.right.right)
  {
    RightParts(mem, sh);
    hide Fits, View, Addrs;
    var s, k, a, b, c := sh.addr, sh.right.addr, sh.left, sh.right.left, sh.right.right;
    Elsewhere(mem, mem', {s, k}, a);
    Elsewhere(mem, mem', {s, k}, b);
    Elsewhere(mem, mem', {s, k}, c);
    Join(mem', s, a, b);
    AddrsAt(s, a, b);
    Join(mem', k, At(s, a, b), c);
    AddrsAt(k, At(s, a, b), c);
  }

  lemma {:induction false} AddrsAt(a: nat, l: Shape, r: Shape)
    ensures Addrs(At(a, l, r)) == {a} + Addrs(l) + Addrs(r)
  {
  }

  lemma {:induction false} RightLinks(mem: Mem, sh: Shape, mem': Mem)
    requires Fits(mem, sh) && sh.At? && sh.left.At? && sh.addr in mem && sh.left.addr in mem
    requires var s, k := sh.addr, sh.left.addr;
             mem' == mem[s := mem[s].(left := mem[k].right)][k := mem[k].(right := s)]
    ensures Fits(mem', RightRotated(sh)) && Only(mem, mem', {sh.addr, sh.left.addr})
            && Addrs(RightRotated(sh)) == Addrs(sh)
    ensures Fits(mem', sh.left.left) && Fits(mem', sh.left.right) && Fits(mem', sh.right)
    ensures Fits(mem, sh.left.left) && Fits(mem, sh.left.right) && Fits(mem, sh.right)
    ensures View(mem', sh.left.left) == View(mem, sh.left.left) && View(mem', sh.left.right) == View(mem, sh.left.right)
            && View(mem', sh.right) == View(mem, sh.right)
  {
    LeftParts(mem, sh);
    hide Fits, View, Addrs;
    var s, k, a, b, c := sh.addr, sh.left.addr, sh.left.left, sh.left.right, sh.right;
    Elsewhere(mem, mem', {s, k}, a);
    Elsewhere(mem, mem', {s, k}, b);
    Elsewhere(mem, mem', {s, k}, c);
    Join(mem', s, b, c);
    AddrsAt(s, b, c);
    Join(mem', k, a, At(s, b, c));
    AddrsAt(k, a, At(s, b, c));
  }

  /** The nodes of all trees. */
  class Pool {
    var mem: Mem

    constructor ()
      ensures mem == map[]
    {
      mem := map[];
    }

    /** avl_set_height. */
    method SetHeight(n: nat, ghost l: Shape, ghost r: Shape)
      requires n in mem && Fits(mem, At(n, l, r))
      modifies this
      ensures mem.Keys == old(mem).Keys && forall a :: a in old(mem) && a != n ==> mem[a] == old(mem)[a]
      ensures Fits(mem, At(n, l, r)) && mem[n] == old(mem)[n].(height := mem[n].height)
      ensures Fits(old(mem), l) && Fits(old(mem), r)
      ensures View(mem, At(n, l, r)) == Make(View(old(mem), l), old(mem)[n].e, View(old(mem), r))
    {
      hide View;
      HeightView(mem, l);
      HeightView(mem, r);
      AddrsInMem(mem, l);
      AddrsInMem(mem, r);
      ghost var m := mem;
      var a, b := HeightAt(mem, mem[n].left), HeightAt(mem, mem[n].right);
      mem := mem[n := mem[n].(height := (if a > b then a else b) + 1)];
      hide Fits;
      RelinkHere(m, mem, n, l, r);
    }

    /** avl_left_rotate. */
    method LeftRotate(s: nat, ghost sh: Shape) returns (k: nat)
      requires Fits(mem, sh) && sh.At? && sh.right.At? && s == sh.addr
      modifies this
      ensures Fits(mem, LeftRotated(sh)) && k == Addr(LeftRotated(sh)) && Addrs(LeftRotated(sh)) == Addrs(sh)
      ensures Only(old(mem), mem, Addrs(sh))
      ensures View(old(mem), sh).Node? && View(old(mem), sh).right.Node?
              && View(mem, LeftRotated(sh)) == RotateLeft(View(old(mem), sh))
    {
      ghost var m := mem;
      RightParts(mem, sh);
      hide Fits, View, Addrs, Make;
      k := mem[s].right;
      var k2 := mem[k].left;
      mem := mem[s := mem[s].(right := k2)];
      mem := mem[k := mem[k].(left := s)];
      LeftLinks(m, sh, mem);
      ghost var m1 := mem;
      ghost var a, b, c := sh.left, sh.right.left, sh.right.right;
      Below(m1, k, At(s, a, b), c);
      SetHeight(s, a, b);
      AfterHeight(m1, mem, k, At(s, a, b), s, c);
      ghost var m2 := mem;
      SetHeight(k, At(s, a, b), c);
    }

    /** avl_right_rotate. */
    method RightRotate(s: nat, ghost sh: Shape) returns (k: nat)
      requires Fits(mem, sh) && sh.At? && sh.left.At? && s == sh.addr
      modifies this
      ensures Fits(mem, RightRotated(sh)) && k == Addr(RightRotated(sh)) && Addrs(RightRotated(sh)) == Addrs(sh)
      ensures Only(old(mem), mem, Addrs(sh))
      ensures View(old(mem), sh).Node? && View(old(mem), sh).left.Node?
              && View(mem, RightRotated(sh)) == RotateRight(View(old(mem), sh))
    {
      ghost var m := mem;
      LeftParts(mem, sh);
      hide Fits, View, Addrs, Make;
      k := mem[s].left;
      var k2 := mem[k].right;
      mem := mem[s := mem[s].(left := k2)];
      mem := mem[k := mem[k].(right := s)];
      RightLinks(m, sh, mem);
      ghost var m1 := mem;
      ghost var a, b, c := sh.left.left, sh.left.right, sh.right;
      Below(m1, k, a, At(s, b, c));
      SetHeight(s, b, c);
      AfterHeightRight(m1, mem, k, a, At(s, b, c), s);
      ghost var m2 := mem;
      SetHeight(k, a, At(s, b, c));
    }

    /** Stores a changed left subtree in its parent. */
    method SetLeft(s: nat, l: nat, ghost m: Mem, ghost sh: Shape, ghost l': Shape)
      requires Fits(m, sh) && sh.At? && s == sh.addr && Fits(mem, l') && l == Addr(l') && s in mem
      requires Only(m, mem, Addrs(sh.left) + (Addrs(l') - Addrs(sh))) && s !in Addrs(l') && Addrs(l') !! Addrs(sh.right)
      modifies this
      ensures Only(m, mem, Addrs(sh) + Addrs(l')) && s in mem && Fits(mem, At(s, l', sh.right))
              && mem[s] == m[s].(left := l)
      ensures Only(old(mem), mem, {s})
      ensures Fits(m, sh.right) && View(mem, At(s, l', sh.right))
              == Node(View(old(mem), l'), m[s].e, m[s].height, View(m, sh.right))
    {
      ghost var m1 := mem;
      mem := mem[s := mem[s].(left := l)];
      LeftStored(m, m1, mem, sh, l');
    }

    method SetRight(s: nat, r: nat, ghost m: Mem, ghost sh: Shape, ghost r': Shape)
      requires Fits(m, sh) && sh.At? && s == sh.addr && Fits(mem, r') && r == Addr(r') && s in mem
      requires Only(m, mem, Addrs(sh.right) + (Addrs(r') - Addrs(sh))) && s !in Addrs(r') && Addrs(r') !! Addrs(sh.left)
      modifies this
      ensures Only(m, mem, Addrs(sh) + Addrs(r')) && s in mem && Fits(mem, At(s, sh.left, r'))
              && mem[s] == m[s].(right := r)
      ensures Only(old(mem), mem, {s})
      ensures Fits(m, sh.left) && View(mem, At(s, sh.left, r'))
              == Node(View(m, sh.left), m[s].e, m[s].height, View(old(mem), r'))
    {
      ghost var m1 := mem;
      mem := mem[s := mem[s].(right := r)];
      RightStored(m, m1, mem, sh, r');
    }

    /** avl_fixup, with the double rotations. */
    method FixupAt(s: nat, ghost sh: Shape) returns (k: nat, ghost r: Shape)
      requires Fits(mem, sh) && sh.At? && s == sh.addr && CanFix(View(mem, sh))
      modifies this
      ensures Fits(mem, r) && k == Addr(r) && Addrs(r) == Addrs(sh) && Only(old(mem), mem, Addrs(sh))
      ensures View(mem, r) == Fixup(View(old(mem), sh))
    {
      hide Fits, View, Addrs, RotateLeft, RotateRight;
      ghost var m := mem;
      Root(mem, sh);
      FixShapes(mem, sh);
      var lh, rh := HeightAt(mem, mem[s].left), HeightAt(mem, mem[s].right);
      var bf := rh - lh;
      k, r := s, sh;
      if bf == 2 {
        var c := mem[s].right;
        if HeightAt(mem, mem[c].left) <= HeightAt(mem, mem[c].right) {
          r := LeftRotated(sh);
          k := LeftRotate(s, sh);
        } else {
          k, r := RightLeftRotate(s, sh);
        }
      } else if bf == -2 {
        var c := mem[s].left;
        if HeightAt(mem, mem[c].left) >= HeightAt(mem, mem[c].right) {
          r := RightRotated(sh);
          k := RightRotate(s, sh);
        } else {
          k, r := LeftRightRotate(s, sh);
        }
      }
    }

    method RightLeftRotate(s: nat, ghost sh: Shape) returns (k: nat, ghost r: Shape)
      requires Fits(mem, sh) && sh.At? && s == sh.addr && sh.right.At? && sh.right.left.At?
      modifies this
      ensures Fits(mem, r) && k == Addr(r) && Addrs(r) == Addrs(sh) && Only(old(mem), mem, Addrs(sh))
      ensures var t := View(old(mem), sh);
              && t.Node? && t.right.Node? && t.right.left.Node? && RotateRight(t.right).Node?
              && View(mem, r) == RotateLeft(WithRight(t, RotateRight(t.right)))
    {
      ghost var m := mem;
      Root(mem, sh);
      Root(mem, sh.right);
      Root(mem, sh.right.left);
      Separate(mem, sh);
      RotateRightIs(View(mem, sh.right));
      hide Fits, View, Addrs, RotateLeft, RotateRight;
      ghost var r' := RightRotated(sh.right);
      var c := RightRotate(mem[s].right, sh.right);
      SetRight(s, c, m, sh, r');
      AddrsAt(s, sh.left, r');
      AddrsOf(sh);
      r := LeftRotated(At(s, sh.left, r'));
      k := LeftRotate(s, At(s, sh.left, r'));
    }

    method LeftRightRotate(s: nat, ghost sh: Shape) returns (k: nat, ghost r: Shape)
      requires Fits(mem, sh) && sh.At? && s == sh.addr && sh.left.At? && sh.left.right.At?
      modifies this
      ensures Fits(mem, r) && k == Addr(r) && Addrs(r) == Addrs(sh) && Only(old(mem), mem, Addrs(sh))
      ensures var t := View(old(mem), sh);
              && t.Node? && t.left.Node? && t.left.right.Node? && RotateLeft(t.left).Node?
              && View(mem, r) == RotateRight(WithLeft(t, RotateLeft(t.left)))
    {
      ghost var m := mem;
      Root(mem, sh);
      Root(mem, sh.left);
      Root(mem, sh.left.right);
      Separate(mem, sh);
      RotateLeftIs(View(mem, sh.left));
      hide Fits, View, Addrs, RotateLeft, RotateRight;
      ghost var l' := LeftRotated(sh.left);
      var c := LeftRotate(mem[s].left, sh.left);
      SetLeft(s, c, m, sh, l');
      AddrsAt(s, l', sh.right);
      AddrsOf(sh);
      r := RightRotated(At(s, l', sh.right));
      k := RightRotate(s, At(s, l', sh.right));
    }

    /** avl_insert_recur: links the node into the tree. */
    method InsertRecur(node: nat, s: nat, ghost sh: Shape) returns (k: nat, ghost r: Shape)
      requires Fits(mem, sh) && s == Addr(sh) && HeightsOk(View(mem, sh)) && node != 0 && node in mem
               && node !in Addrs(sh)
      modifies this
      ensures Fits(mem, r) && k == Addr(r) && Addrs(r) == Addrs(sh) + {node} && Only(old(mem), mem, Addrs(sh) + {node})
      ensures View(mem, r) == Insert(View(old(mem), sh), old(mem)[node].e)
      decreases sh, 1
    {
      ghost var m := mem;
      Root(mem, sh);
      if s == 0 {
        mem := mem[node := Rec(0, 0, 1, mem[node].e)];
        k, r := node, At(node, Leaf, Leaf);
        return;
      }
      HeightsBelow(View(mem, sh));
      InsertIs(View(mem, sh), mem[node].e);
      hide Fits, View, Addrs, HeightsOk, Insert, Fixup;
      ghost var sh1;
      if mem[node].e.key < mem[s].e.key {
        sh1 := InsertLeft(node, s, sh);
      } else {
        sh1 := InsertRight(node, s, sh);
      }
      k, r := FixupAt(s, sh1);
    }

    method InsertLeft(node: nat, s: nat, ghost sh: Shape) returns (ghost r: Shape)
      requires Fits(mem, sh) && sh.At? && s == sh.addr && node != 0 && node in mem && node !in Addrs(sh)
      requires Fits(mem, sh.left) && Fits(mem, sh.right) && HeightsOk(View(mem, sh.left))
      modifies this
      ensures Fits(mem, r) && r.At? && r.addr == s && Addrs(r) == Addrs(sh) + {node}
              && Only(old(mem), mem, Addrs(sh) + {node})
      ensures s in old(mem) && View(mem, r)
              == Make(Insert(View(old(mem), sh.left), old(mem)[node].e), old(mem)[s].e, View(old(mem), sh.right))
      decreases sh, 0
    {
      ghost var m := mem;
      Root(mem, sh);
      Separate(mem, sh);
      hide Fits, View, Addrs, HeightsOk, Insert, Make;
      var l, l' := InsertRecur(node, mem[s].left, sh.left);
      ghost var m1 := mem;
      SetLeft(s, l, m, sh, l');
      r := At(s, l', sh.right);
      Below(mem, s, l', sh.right);
      Children(m, m1, mem, s, l', sh.right);
      SetHeight(s, l', sh.right);
      AddrsAt(s, l', sh.right);
    }

    method InsertRight(node: nat, s: nat, ghost sh: Shape) returns (ghost r: Shape)
      requires Fits(mem, sh) && sh.At? && s == sh.addr && node != 0 && node in mem && node !in Addrs(sh)
      requires Fits(mem, sh.left) && Fits(mem, sh.right) && HeightsOk(View(mem, sh.right))
      modifies this
      ensures Fits(mem, r) && r.At? && r.addr == s && Addrs(r) == Addrs(sh) + {node}
              && Only(old(mem), mem, Addrs(sh) + {node})
      ensures s in old(mem) && View(mem, r)
              == Make(View(old(mem), sh.left), old(mem)[s].e, Insert(View(old(mem), sh.right), old(mem)[node].e))
      decreases sh, 0
    {
      ghost var m := mem;
      Root(mem, sh);
      Separate(mem, sh);
      hide Fits, View, Addrs, HeightsOk, Insert, Make;
      var c, r' := InsertRecur(node, mem[s].right, sh.right);
      ghost var m1 := mem;
      SetRight(s, c, m, sh, r');
      r := At(s, sh.left, r');
      Below(mem, s, sh.left, r');
      ChildrenRight(m, m1, mem, s, sh.left, r');
      SetHeight(s, sh.left, r');
      AddrsAt(s, sh.left, r');
    }

    /** avl_erase_min: unlinks the leftmost node. */
    method EraseLeast(s: nat, ghost sh: Shape) returns (k: nat, it: nat, ghost r: Shape)
      requires Fits(mem, sh) && sh.At? && s == sh.addr && HeightsOk(View(mem, sh))
      modifies this
      ensures Fits(mem, r) && k == Addr(r) && it in Addrs(sh) && Addrs(r) == Addrs(sh) - {it}
              && Only(old(mem), mem, Addrs(sh))
      ensures View(old(mem), sh).Node? && View(mem, r) == EraseMin(View(old(mem), sh))
      ensures it in mem && mem[it].e == Least(View(old(mem), sh))
      decreases sh, 1
    {
      Root(mem, sh);
      Separate(mem, sh);
      LeastIs(View(mem, sh));
      Root(mem, sh.left);
      AddrsOfLeaf(sh.left);
      hide Fits, View, Addrs, HeightsOk, Make, EraseMin, Least;
      if mem[s].left != 0 {
        it, r := EraseLeastLeft(s, sh);
        k := s;
      } else {
        it := s;
        k, r := mem[s].right, sh.right;
        Root(mem, r);
        if k != 0 {
          RootIn(r);
          ResetHeight(k, r);
        }
      }
    }

    method EraseLeastLeft(s: nat, ghost sh: Shape) returns (it: nat, ghost r: Shape)
      requires Fits(mem, sh) && sh.At? && s == sh.addr && sh.left.At?
      requires Fits(mem, sh.left) && Fits(mem, sh.right) && HeightsOk(View(mem, sh.left))
      modifies this
      ensures Fits(mem, r) && Addr(r) == s && it in Addrs(sh) && Addrs(r) == Addrs(sh) - {it}
              && Only(old(mem), mem, Addrs(sh))
      ensures View(old(mem), sh.left).Node? && s in old(mem)
      ensures View(mem, r) == Make(EraseMin(View(old(mem), sh.left)), old(mem)[s].e, View(old(mem), sh.right))
      ensures it in mem && mem[it].e == Least(View(old(mem), sh.left))
      decreases sh, 0
    {
      ghost var m := mem;
      Root(mem, sh);
      Root(mem, sh.left);
      Separate(mem, sh);
      hide Fits, View, Addrs, HeightsOk, Make, EraseMin, Least;
      var l;
      ghost var l';
      l, it, l' := EraseLeast(mem[s].left, sh.left);
      ghost var m1 := mem;
      SetLeft(s, l, m, sh, l');
      r := At(s, l', sh.right);
      Below(mem, s, l', sh.right);
      Children(m, m1, mem, s, l', sh.right);
      SetHeight(s, l', sh.right);
      AddrsAt(s, l', sh.right);
    }

    /** avl_set_height of a node whose height is right already. */
    method ResetHeight(s: nat, ghost sh: Shape)
      requires Fits(mem, sh) && sh.At? && s == sh.addr && HeightsOk(View(mem, sh))
      modifies this
      ensures Fits(mem, sh) && View(mem, sh) == View(old(mem), sh) && Only(old(mem), mem, Addrs(sh))
      ensures forall a :: a in old(mem) && a != s ==> mem[a] == old(mem)[a]
      ensures s in mem && s in old(mem) && mem[s].e == old(mem)[s].e
    {
      Root(mem, sh);
      AddrsOf(sh);
      SetHeight(s, sh.left, sh.right);
    }

    /** Setting the height of a root and repairing it. */
    method SettleAt(s: nat, ghost sh: Shape) returns (k: nat, ghost r: Shape)
      requires Fits(mem, sh) && s == Addr(sh) && HeightsOk(View(mem, sh))
      modifies this
      ensures Fits(mem, r) && k == Addr(r) && Addrs(r) == Addrs(sh) && Only(old(mem), mem, Addrs(sh))
      ensures View(mem, r) == Settle(View(old(mem), sh))
    {
      ghost var m := mem;
      Root(mem, sh);
      k, r := s, sh;
      if s != 0 {
        AddrsOf(sh);
        SettleIs(View(mem, sh));
        hide Fits, View, Addrs, HeightsOk, Fixup, Settle, Make;
        SetHeight(s, sh.left, sh.right);
        k, r := FixupAt(s, sh);
      }
    }

    /** avl_erase_recur: unlinks the node that a search for the key finds. */
    method EraseRecur(key: int, s: nat, ghost sh: Shape) returns (k: nat, ghost r: Shape)
      requires Fits(mem, sh) && s == Addr(sh) && HeightsOk(View(mem, sh))
      modifies this
      ensures Fits(mem, r) && k == Addr(r) && Addrs(r) <= Addrs(sh) && Only(old(mem), mem, Addrs(sh))
      ensures View(mem, r) == Erase(View(old(mem), sh), key)
      decreases sh, 1
    {
      ghost var m := mem;
      Root(mem, sh);
      k, r := s, sh;
      if s == 0 { return; }
      HeightsBelow(View(mem, sh));
      EraseIs(View(mem, sh), key);
      AddrsOf(sh);
      Separate(mem, sh);
      hide Fits, View, Addrs, HeightsOk, Erase, Settle, Make;
      if key < mem[s].e.key {
        ghost var sh1 := EraseLeft(key, s, sh);
        k, r := SettleAt(s, sh1);
      } else if key > mem[s].e.key {
        ghost var sh1 := EraseRight(key, s, sh);
        k, r := SettleAt(s, sh1);
      } else {
        k, r := EraseNode(s, sh);
      }
    }

    method EraseLeft(key: int, s: nat, ghost sh: Shape) returns (ghost r: Shape)
      requires Fits(mem, sh) && sh.At? && s == sh.addr
      requires Fits(mem, sh.left) && Fits(mem, sh.right) && HeightsOk(View(mem, sh.left))
      modifies this
      ensures Fits(mem, r) && r.At? && r.addr == s && Addrs(r) <= Addrs(sh) && Only(old(mem), mem, Addrs(sh))
      ensures s in old(mem) && View(mem, r)
              == Make(Erase(View(old(mem), sh.left), key), old(mem)[s].e, View(old(mem), sh.right))
      decreases sh, 0
    {
      ghost var m := mem;
      Root(mem, sh);
      Separate(mem, sh);
      hide Fits, View, Addrs, HeightsOk, Erase, Make;
      var l, l' := EraseRecur(key, mem[s].left, sh.left);
      ghost var m1 := mem;
      SetLeft(s, l, m, sh, l');
      r := At(s, l', sh.right);
      Below(mem, s, l', sh.right);
      Children(m, m1, mem, s, l', sh.right);
      SetHeight(s, l', sh.right);
      AddrsAt(s, l', sh.right);
    }

    method EraseRight(key: int, s: nat, ghost sh: Shape) returns (ghost r: Shape)
      requires Fits(mem, sh) && sh.At? && s == sh.addr
      requires Fits(mem, sh.left) && Fits(mem, sh.right) && HeightsOk(View(mem, sh.right))
      modifies this
      ensures Fits(mem, r) && r.At? && r.addr == s && Addrs(r) <= Addrs(sh) && Only(old(mem), mem, Addrs(sh))
      ensures s in old(mem) && View(mem, r)
              == Make(View(old(mem), sh.left), old(mem)[s].e, Erase(View(old(mem), sh.right), key))
      decreases sh, 0
    {
      ghost var m := mem;
      Root(mem, sh);
      Separate(mem, sh);
      hide Fits, View, Addrs, HeightsOk, Erase, Make;
      var c, r' := EraseRecur(key, mem[s].right, sh.right);
      ghost var m1 := mem;
      SetRight(s, c, m, sh, r');
      r := At(s, sh.left, r');
      Below(mem, s, sh.left, r');
      ChildrenRight(m, m1, mem, s, sh.left, r');
      SetHeight(s, sh.left, r');
      AddrsAt(s, sh.left, r');
    }

    /** The node itself: replaced by its only subtree, or by the least node of its right subtree. */
    method EraseNode(s: nat, ghost sh: Shape) returns (k: nat, ghost r: Shape)
      requires Fits(mem, sh) && sh.At? && s == sh.addr && HeightsOk(View(mem, sh))
      modifies this
      ensures Fits(mem, r) && k == Addr(r) && Addrs(r) <= Addrs(sh) && Only(old(mem), mem, Addrs(sh))
      ensures View(old(mem), sh).Node? && View(mem, r) == Erase(View(old(mem), sh), View(old(mem), sh).e.key)
    {
      ghost var m := mem;
      Root(mem, sh);
      Root(mem, sh.left);
      Root(mem, sh.right);
      Separate(mem, sh);
      EraseRootIs(View(mem, sh));
      hide Fits, View, Addrs, HeightsOk, Erase, Settle, Make, Least, EraseMin;
      if mem[s].left == 0 {
        k, r := SettleAt(mem[s].right, sh.right);
      } else if mem[s].right == 0 {
        k, r := SettleAt(mem[s].left, sh.left);
      } else {
        var tmp, sh1 := Replace(s, sh);
        k, r := SettleAt(tmp, sh1);
      }
    }

    method Replace(s: nat, ghost sh: Shape) returns (tmp: nat, ghost r: Shape)
      requires Fits(mem, sh) && sh.At? && s == sh.addr && sh.left.At? && sh.right.At?
      requires Fits(mem, sh.left) && Fits(mem, sh.right) && HeightsOk(View(mem, sh.right)) && View(mem, sh.right).Node?
      modifies this
      ensures Fits(mem, r) && tmp == Addr(r) && Addrs(r) <= Addrs(sh) && Only(old(mem), mem, Addrs(sh))
      ensures View(mem, r) == Make(View(old(mem), sh.left), Least(View(old(mem), sh.right)),
              EraseMin(View(old(mem), sh.right)))
    {
      ghost var m := mem;
      Root(mem, sh);
      Separate(mem, sh);
      AddrsInMem(mem, sh.left);
      hide Fits, View, Addrs, HeightsOk, Make, Least, EraseMin;
      var right;
      ghost var rs;
      right, tmp, rs := EraseLeast(mem[s].right, sh.right);
      ghost var m1 := mem;
      mem := mem[s := mem[s].(right := right)];
      mem := mem[tmp := mem[tmp].(right := mem[s].right)];
      mem := mem[tmp := mem[tmp].(left := mem[s].left)];
      r := At(tmp, sh.left, rs);
      Replaced(m, m1, mem, sh, tmp, rs);
      SetHeight(tmp, sh.left, rs);
      AddrsAt(tmp, sh.left, rs);
    }
  }

  /** The subtrees of a tree are determined by its view. */
  lemma {:induction false} Children(m: Mem, m1: Mem, mem: Mem, s: nat, l: Shape, r: Shape)
    requires Fits(mem, At(s, l, r)) && Fits(mem, l) && Fits(mem, r) && Fits(m1, l) && Fits(m, r) && s in m
    requires View(mem, At(s, l, r)) == Node(View(m1, l), m[s].e, m[s].height, View(m, r))
    ensures View(mem, l) == View(m1, l) && View(mem, r) == View(m, r) && mem[s].e == m[s].e
  {
    hide Fits, Addrs;
    Root(mem, At(s, l, r));
  }

  lemma {:induction false} ChildrenRight(m: Mem, m1: Mem, mem: Mem, s: nat, l: Shape, r: Shape)
    requires Fits(mem, At(s, l, r)) && Fits(mem, l) && Fits(mem, r) && Fits(m, l) && Fits(m1, r) && s in m
    requires View(mem, At(s, l, r)) == Node(View(m, l), m[s].e, m[s].height, View(m1, r))
    ensures View(mem, l) == View(m, l) && View(mem, r) == View(m1, r) && mem[s].e == m[s].e
  {
    hide Fits, Addrs;
    Root(mem, At(s, l, r));
  }

  lemma {:induction false} RelinkHere(mem: Mem, mem': Mem, a: nat, l: Shape, r: Shape)
    requires Fits(mem, At(a, l, r)) && a in mem' && mem'[a].left == mem[a].left && mem'[a].right == mem[a].right
    requires forall x :: x in mem && x != a ==> x in mem' && mem'[x] == mem[x]
    ensures Fits(mem, l) && Fits(mem, r) && Fits(mem', At(a, l, r))
    ensures View(mem', At(a, l, r)) == Node(View(mem, l), mem'[a].e, mem'[a].height, View(mem, r))
  {
    AddrsInMem(mem, l);
    AddrsInMem(mem, r);
    Relink(mem, mem', a, l, r);
  }

  lemma {:induction false} Below(mem: Mem, a: nat, l: Shape, r: Shape)
    requires Fits(mem, At(a, l, r))
    ensures a in mem && Fits(mem, l) && Fits(mem, r)
    ensures l.At? ==> l.addr in mem
    ensures r.At? ==> r.addr in mem
  {
    hide Addrs, Fits, View;
    Root(mem, At(a, l, r));
    Root(mem, l);
    Root(mem, r);
  }

  /** After a write to the root of the left subtree the whole tree is still in place. */
  lemma {:induction false} AfterHeight(mem: Mem, mem': Mem, a: nat, l: Shape, x: nat, r: Shape)
    requires Fits(mem, At(a, l, r)) && Fits(mem', l) && l.At? && x == l.addr && mem'.Keys == mem.Keys
    requires forall y :: y in mem && y != x ==> mem'[y] == mem[y]
    ensures Fits(mem', At(a, l, r)) && Fits(mem', r) && Fits(mem, r) && View(mem', r) == View(mem, r) && a in mem'
            && mem'[a] == mem[a]
  {
    AddrsInMem(mem, r);
    Frame(mem, mem', r);
    Join(mem', a, l, r);
  }

  lemma {:induction false} AfterHeightRight(mem: Mem, mem': Mem, a: nat, l: Shape, r: Shape, x: nat)
    requires Fits(mem, At(a, l, r)) && Fits(mem', r) && r.At? && x == r.addr && mem'.Keys == mem.Keys
    requires forall y :: y in mem && y != x ==> mem'[y] == mem[y]
    ensures Fits(mem', At(a, l, r)) && Fits(mem', l) && Fits(mem, l) && View(mem', l) == View(mem, l) && a in mem'
            && mem'[a] == mem[a]
  {
    AddrsInMem(mem, l);
    Frame(mem, mem', l);
    Join(mem', a, l, r);
  }

  lemma {:induction false} AddrsOf(sh: Shape)
    requires sh.At?
    ensures Addrs(sh) == {sh.addr} + Addrs(sh.left) + Addrs(sh.right)
  {
  }

  lemma {:induction false} Separate(mem: Mem, sh: Shape)
    requires Fits(mem, sh) && sh.At?
    ensures sh.addr in mem && sh.addr != 0 && sh.addr !in Addrs(sh.left) && sh.addr !in Addrs(sh.right)
            && Addrs(sh.left) !! Addrs(sh.right)
    ensures Addrs(sh) == {sh.addr} + Addrs(sh.left) + Addrs(sh.right)
  {
  }

  ghost predicate RightHeavy(mem: Mem, sh: Shape, t: Tree) {
    && sh.At? && t.Node? && t.right.Node? && sh.right.At? && sh.addr in mem && sh.right.addr in mem
    && mem[sh.addr].right == sh.right.addr
    && HeightAt(mem, mem[sh.right.addr].left) == Height(t.right.left)
    && HeightAt(mem, mem[sh.right.addr].right) == Height(t.right.right)
    && (Height(t.right.left) > Height(t.right.right) ==> sh.right.left.At?)
  }

  ghost predicate LeftHeavy(mem: Mem, sh: Shape, t: Tree) {
    && sh.At? && t.Node? && t.left.Node? && sh.left.At? && sh.addr in mem && sh.left.addr in mem
    && mem[sh.addr].left == sh.left.addr
    && HeightAt(mem, mem[sh.left.addr].left) == Height(t.left.left)
    && HeightAt(mem, mem[sh.left.addr].right) == Height(t.left.right)
    && (Height(t.left.left) < Height(t.left.right) ==> sh.left.right.At?)
  }

  /** Where heights call for a rotation, the nodes it needs are there. */
  lemma {:induction false} FixShapes(mem: Mem, sh: Shape)
    requires Fits(mem, sh) && sh.At? && CanFix(View(mem, sh))
    ensures sh.addr in mem && View(mem, sh).Node?
    ensures HeightAt(mem, mem[sh.addr].left) == Height(View(mem, sh).left)
    ensures HeightAt(mem, mem[sh.addr].right) == Height(View(mem, sh).right)
    ensures Balance(View(mem, sh)) == 2 ==> RightHeavy(mem, sh, View(mem, sh))
    ensures Balance(View(mem, sh)) == -2 ==> LeftHeavy(mem, sh, View(mem, sh))
  {
    hide Fits, View, Addrs;
    Root(mem, sh);
    Root(mem, sh.left);
    Root(mem, sh.right);
    HeightView(mem, sh.left);
    HeightView(mem, sh.right);
    if sh.left.At? {
      HeightView(mem, sh.left.left);
      HeightView(mem, sh.left.right);
      Root(mem, sh.left.right);
    }
    if sh.right.At? {
      HeightView(mem, sh.right.left);
      HeightView(mem, sh.right.right);
      Root(mem, sh.right.left);
    }
  }

  lemma {:induction false} LeftStored(m: Mem, m1: Mem, m2: Mem, sh: Shape, l': Shape)
    requires Fits(m, sh) && sh.At? && Fits(m1, l') && sh.addr in m1 && sh.addr in m
    requires Only(m, m1, Addrs(sh.left) + (Addrs(l') - Addrs(sh))) && sh.addr !in Addrs(l')
             && Addrs(l') !! Addrs(sh.right)
    requires m2 == m1[sh.addr := m1[sh.addr].(left := Addr(l'))]
    ensures Only(m, m2, Addrs(sh) + Addrs(l')) && m2[sh.addr] == m[sh.addr].(left := Addr(l'))
    ensures Fits(m, sh.right) && Fits(m2, At(sh.addr, l', sh.right))
    ensures View(m2, At(sh.addr, l', sh.right))
            == Node(View(m1, l'), m[sh.addr].e, m[sh.addr].height, View(m, sh.right))
  {
    Separate(m, sh);
    Root(m, sh);
    hide Fits, View, Addrs;
    Elsewhere(m, m1, Addrs(sh.left) + (Addrs(l') - Addrs(sh)), sh.right);
    AddrsInMem(m1, l');
    AddrsInMem(m1, sh.right);
    Relink(m1, m2, sh.addr, l', sh.right);
  }

  lemma {:induction false} RightStored(m: Mem, m1: Mem, m2: Mem, sh: Shape, r': Shape)
    requires Fits(m, sh) && sh.At? && Fits(m1, r') && sh.addr in m1 && sh.addr in m
    requires Only(m, m1, Addrs(sh.right) + (Addrs(r') - Addrs(sh))) && sh.addr !in Addrs(r')
             && Addrs(r') !! Addrs(sh.left)
    requires m2 == m1[sh.addr := m1[sh.addr].(right := Addr(r'))]
    ensures Only(m, m2, Addrs(sh) + Addrs(r')) && m2[sh.addr] == m[sh.addr].(right := Addr(r'))
    ensures Fits(m, sh.left) && Fits(m2, At(sh.addr, sh.left, r'))
    ensures View(m2, At(sh.addr, sh.left, r')) == Node(View(m, sh.left), m[sh.addr].e, m[sh.addr].height, View(m1, r'))
  {
    Separate(m, sh);
    Root(m, sh);
    hide Fits, View, Addrs;
    Elsewhere(m, m1, Addrs(sh.right) + (Addrs(r') - Addrs(sh)), sh.left);
    AddrsInMem(m1, r');
    AddrsInMem(m1, sh.left);
    Relink(m1, m2, sh.addr, sh.left, r');
  }

  lemma {:induction false} HeightsBelow(t: Tree)
    requires HeightsOk(t) && t.Node?
    ensures HeightsOk(t.left) && HeightsOk(t.right)
  {
  }

  lemma {:induction false} AddrsOfLeaf(s: Shape)
    ensures s.Leaf? ==> Addrs(s) == {}
  {
  }

  lemma {:induction false} LeastIs(t: Tree)
    requires t.Node? && HeightsOk(t)
    ensures HeightsOk(t.left) && HeightsOk(t.right)
    ensures t.left.Node? ==> Least(t) == Least(t.left) && EraseMin(t) == Make(EraseMin(t.left), t.e, t.right)
    ensures t.left.Nil? ==> Least(t) == t.e && EraseMin(t) == t.right
  {
  }

  lemma {:induction false} SettleIs(t: Tree)
    requires t.Node? && HeightsOk(t)
    ensures CanFix(Make(t.left, t.e, t.right)) && Settle(t) == Fixup(Make(t.left, t.e, t.right))
  {
    CanAlwaysFix(Make(t.left, t.e, t.right));
  }

  lemma {:induction false} NotNull(mem: Mem, s: Shape, a: nat)
    requires Fits(mem, s) && a in Addrs(s)
    ensures a != 0 && a in mem
  {
    AddrsInMem(mem, s);
  }

  lemma {:induction false} RootIn(s: Shape)
    ensures s.At? ==> s.addr in Addrs(s)
  {
  }

  /** The links that put the node tmp in the place of the root. */
  lemma {:induction false} Replaced(m: Mem, m1: Mem, m2: Mem, sh: Shape, tmp: nat, rs: Shape)
    requires Fits(m, sh) && sh.At? && Fits(m1, rs) && Only(m, m1, Addrs(sh.right)) && sh.addr in m1
    requires tmp in Addrs(sh.right) && tmp in m1 && Addrs(rs) == Addrs(sh.right) - {tmp}
    requires m2 == m1[sh.addr := m1[sh.addr].(right := Addr(rs))][tmp := m1[tmp].(right := Addr(rs),
             left := m1[sh.addr].left)]
    ensures Fits(m, sh.left) && Fits(m2, sh.left) && Fits(m2, rs) && Fits(m2, At(tmp, sh.left, rs)) && tmp in m2
            && m2[tmp].e == m1[tmp].e
    ensures View(m2, sh.left) == View(m, sh.left) && View(m2, rs) == View(m1, rs)
    ensures Only(m, m2, Addrs(sh)) && Addrs(At(tmp, sh.left, rs)) <= Addrs(sh)
  {
    Root(m, sh);
    Separate(m, sh);
    hide Fits, View, Addrs;
    Elsewhere(m, m1, Addrs(sh.right), sh.left);
    AddrsInMem(m1, rs);
    AddrsInMem(m1, sh.left);
    NotNull(m, sh.right, tmp);
    Relink(m1, m2, tmp, sh.left, rs);
    AddrsAt(tmp, sh.left, rs);
  }
}
