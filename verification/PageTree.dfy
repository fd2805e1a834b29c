/** Three levels of translation tables in memory, and the flat map of pages they stand for. */
module PageTree {
  /** A table entry: empty, a pointer to a lower table, or a page with its protection. */
  datatype Entry = Empty | Table(frame: nat) | Page(pfn: nat, valid: bool, prot: nat)

  type Mem = map<nat, seq<Entry>>

  /** Where each table hangs: its level and the slot that points to it. */
  datatype Link = Link(level: nat, parent: nat, slot: nat)

  ghost predicate Child(mem: Mem, links: map<nat, Link>, f: nat, level: nat, i: nat)
    requires f in mem && i < |mem[f]|
  {
    match mem[f][i]
    case Empty => true
    case Table(g) => level < 2 && g in mem && g in links && links[g] == Link(level + 1, f, i)
    case Page(_, _, _) => level == 2
  }

  ghost predicate TableOk(mem: Mem, links: map<nat, Link>, f: nat)
    requires f in mem
  {
    && f in links && |mem[f]| == 512
    && forall i: nat :: i < 512 ==> Child(mem, links, f, links[f].level, i)
  }

  /** The tables form a tree: every table has 512 entries, every pointer leads one level down, to a table
      that no other slot points to. */
  ghost predicate Tree(mem: Mem, links: map<nat, Link>, root: nat) {
    && root in mem && root in links && links[root].level == 0
    && forall f :: f in mem ==> TableOk(mem, links, f)
  }

  /** The page entry reached by three indices; empty where a table is missing. */
  ghost function EntryAt(mem: Mem, root: nat, a: nat, b: nat, c: nat): Entry
    requires a < 512 && b < 512 && c < 512
  {
    if root !in mem || |mem[root]| != 512 || !mem[root][a].Table? then Empty
    else
      var f := mem[root][a].frame;
      if f !in mem || |mem[f]| != 512 || !mem[f][b].Table? then Empty
      else
        var g := mem[f][b].frame;
        if g !in mem || |mem[g]| != 512 then Empty else mem[g][c]
  }

  function Zeroed(): (s: seq<Entry>)
    ensures |s| == 512 && forall i :: 0 <= i < 512 ==> s[i] == Empty
  {
    seq(512, i => Empty)
  }

  lemma {:induction false} TreeAt(mem: Mem, links: map<nat, Link>, root: nat, f: nat, i: nat)
    requires Tree(mem, links, root) && f in mem && i < 512
    ensures f in links && |mem[f]| == 512 && Child(mem, links, f, links[f].level, i)
  {
    assert TableOk(mem, links, f);
  }

  lemma {:induction false} TreeRoot(mem: Mem, links: map<nat, Link>, root: nat)
    requires Tree(mem, links, root)
    ensures root in mem && root in links && links[root].level == 0 && |mem[root]| == 512
  {
    assert TableOk(mem, links, root);
  }

  /** Writing a page entry. */
  lemma {:induction false} WriteLeaf(mem: Mem, links: map<nat, Link>, root: nat, a: nat, b: nat, c: nat, e: Entry)
    requires Tree(mem, links, root) && a < 512 && b < 512 && c < 512 && !e.Table?
    requires |mem[root]| == 512 && mem[root][a].Table? && mem[root][a].frame in mem
    requires |mem[mem[root][a].frame]| == 512 && mem[mem[root][a].frame][b].Table?
    requires mem[mem[root][a].frame][b].frame in mem && |mem[mem[mem[root][a].frame][b].frame]| == 512
    ensures var g := mem[mem[root][a].frame][b].frame;
            var mem' := mem[g := mem[g][c := e]];
            && Tree(mem', links, root)
            && EntryAt(mem', root, a, b, c) == e
            && forall x, y, z :: 0 <= x < 512 && 0 <= y < 512 && 0 <= z < 512 && (x, y, z) != (a, b, c) ==>
                 EntryAt(mem', root, x, y, z) == EntryAt(mem, root, x, y, z)
  {
    var f := mem[root][a].frame;
    var g := mem[f][b].frame;
    var mem' := mem[g := mem[g][c := e]];
    TreeAt(mem, links, root, root, a);
    TreeAt(mem, links, root, f, b);
    LeafKeepsTree(mem, links, root, g, c, e);
    forall x, y, z | 0 <= x < 512 && 0 <= y < 512 && 0 <= z < 512 && (x, y, z) != (a, b, c)
      ensures EntryAt(mem', root, x, y, z) == EntryAt(mem, root, x, y, z)
    {
      hide Tree;
      TreeAt(mem, links, root, root, x);
      if mem[root][x].Table? {
        TreeAt(mem, links, root, mem[root][x].frame, y);
      }
    }
  }

  lemma {:induction false} LeafKeepsTree(mem: Mem, links: map<nat, Link>, root: nat, g: nat, c: nat, e: Entry)
    requires Tree(mem, links, root) && g in mem && g in links && links[g].level == 2 && |mem[g]| == 512 && c < 512
             && !e.Table?
    ensures Tree(mem[g := mem[g][c := e]], links, root)
  {
    var mem' := mem[g := mem[g][c := e]];
    forall f | f in mem' ensures TableOk(mem', links, f) {
      assert TableOk(mem, links, f);
      forall i: nat | i < 512 ensures Child(mem', links, f, links[f].level, i) {
        assert Child(mem, links, f, links[f].level, i);
      }
    }
  }

  /** Hanging a fresh zeroed table into an empty slot. */
  lemma {:induction false} AddTable(mem: Mem, links: map<nat, Link>, root: nat, f: nat, i: nat, g: nat)
    requires Tree(mem, links, root) && f in mem && f in links && links[f].level < 2 && |mem[f]| == 512 && i < 512
    requires mem[f][i] == Empty && g !in mem
    ensures var mem', links' := mem[f := mem[f][i := Table(g)]][g := Zeroed()],
            links[g := Link(links[f].level + 1, f, i)];
            Tree(mem', links', root)
  {
    var mem', links' := mem[f := mem[f][i := Table(g)]][g := Zeroed()], links[g := Link(links[f].level + 1, f, i)];
    forall h | h in mem' ensures TableOk(mem', links', h) {
      if h != g {
        assert TableOk(mem, links, h);
        forall j: nat | j < 512 ensures Child(mem', links', h, links'[h].level, j) {
          assert Child(mem, links, h, links[h].level, j);
        }
      }
    }
    TreeRoot(mem, links, root);
  }

  lemma {:induction false} AddTableSame(mem: Mem, links: map<nat, Link>, root: nat, f: nat, i: nat, g: nat, x: nat,
                                        y: nat, z: nat)
    requires Tree(mem, links, root) && f in mem && f in links && links[f].level < 2 && |mem[f]| == 512
    requires i < 512 && mem[f][i] == Empty && g !in mem
    requires x < 512 && y < 512 && z < 512
    ensures var mem' := mem[f := mem[f][i := Table(g)]][g := Zeroed()];
            EntryAt(mem', root, x, y, z) == EntryAt(mem, root, x, y, z)
  {
    hide Tree;
    TreeRoot(mem, links, root);
    TreeAt(mem, links, root, root, x);
    if mem[root][x].Table? {
      TreeAt(mem, links, root, mem[root][x].frame, y);
      var h := mem[root][x].frame;
      if mem[h][y].Table? { TreeAt(mem, links, root, mem[h][y].frame, z); }
    }
  }
}
