/** Mapping, unmapping and translating ranges of 39-bit virtual addresses with 4 KiB pages. */
module PageTable {
  import opened Common
  import opened PageTree

  const W: nat := 0x1_0000_0000_0000_0000
  const PG: nat := 0x1000
  const PMD: nat := 0x20_0000
  const PGD: nat := 0x4000_0000
  const PAGES: nat := 0x800_0000

  // ----- addresses

  function PdeOf(addr: nat): (i: nat) ensures i < 512 { addr / PGD % 512 }

  function PmdeOf(addr: nat): (i: nat) ensures i < 512 { addr / PMD % 512 }

  function PteOf(addr: nat): (i: nat) ensures i < 512 { addr / PG % 512 }

  /** The number of the virtual page, of 2^27. */
  function PageOf(addr: nat): (v: nat) ensures v < PAGES { addr / PG % PAGES }

  lemma {:induction false} Indices(addr: nat)
    ensures PteOf(addr) == PageOf(addr) % 512
    ensures PmdeOf(addr) == PageOf(addr) / 512 % 512
    ensures PdeOf(addr) == PageOf(addr) / 0x4_0000
  {
    var p := addr / PG;
    BlockNumbers(addr, p);
    PageParts(p, p / PAGES, p % PAGES);
  }

  lemma {:induction false} BlockNumbers(addr: nat, p: nat)
    requires p == addr / PG
    ensures addr / PMD == p / 512 && addr / PGD == p / 0x4_0000
  {
    var r := addr % PG;
    assert addr == p * PG + r;
    var q, s := p / 512, p % 512;
    assert p == q * 512 + s;
    assert addr == q * PMD + (s * PG + r) && s * PG + r < PMD;
    var x, y := p / 0x4_0000, p % 0x4_0000;
    assert p == x * 0x4_0000 + y;
    assert addr == x * PGD + (y * PG + r) && y * PG + r < PGD;
  }

  lemma {:induction false} PageParts(p: nat, h: nat, v: nat)
    requires p == h * PAGES + v && v < PAGES
    ensures p % 512 == v % 512 && p / 512 % 512 == v / 512 % 512 && p / 0x4_0000 % 512 == v / 0x4_0000
  {
    assert p / 512 == h * 0x4_0000 + v / 512;
    assert p / 0x4_0000 == h * 512 + v / 0x4_0000;
  }

  /** The end of the part of [addr, end) inside the block of the given size, in 64-bit arithmetic: an end
      of 0 is the top of the address space. */
  function AddrEnd(addr: nat, end: nat, size: nat): nat
    requires size > 0
  {
    var boundary := ((addr + size) % W) / size * size;
    if (boundary + W - 1) % W < (end + W - 1) % W then boundary % W else end
  }

  function Min(a: nat, b: nat): nat { if a < b then a else b }

  lemma {:induction false} AddrEndIs(x: nat, e: nat, size: nat)
    requires x < e <= W && (size == PMD || size == PGD)
    ensures x < x / size * size + size <= W
    ensures AddrEnd(x, e % W, size) == Min(x / size * size + size, e) % W
  {
    if size == PMD { AddrEndPmd(x, e); } else { AddrEndPgd(x, e); }
  }

  lemma {:induction false} Boundary(b: nat, e: nat)
    requires 0 < b <= W && 0 < e <= W
    ensures (b % W + W - 1) % W == b - 1 && (e % W + W - 1) % W == e - 1
  {
  }

  lemma {:induction false} AddrEndPmd(x: nat, e: nat)
    requires x < e <= W
    ensures x < x / PMD * PMD + PMD <= W
    ensures AddrEnd(x, e % W, PMD) == Min(x / PMD * PMD + PMD, e) % W
  {
    var q := x / PMD;
    assert q * PMD <= x < q * PMD + PMD;
    assert W == 0x800_0000_0000 * PMD;
    var b := q * PMD + PMD;
    assert b <= W;
    assert ((x + PMD) % W) / PMD * PMD == b % W by {
      if x + PMD >= W { assert b == W && (x + PMD) % W < PMD; } else { assert (x + PMD) / PMD == q + 1; }
    }
    Boundary(b, e);
  }

  lemma {:induction false} AddrEndPgd(x: nat, e: nat)
    requires x < e <= W
    ensures x < x / PGD * PGD + PGD <= W
    ensures AddrEnd(x, e % W, PGD) == Min(x / PGD * PGD + PGD, e) % W
  {
    var q := x / PGD;
    assert q * PGD <= x < q * PGD + PGD;
    assert W == 0x4_0000_0000 * PGD;
    var b := q * PGD + PGD;
    assert b <= W;
    assert ((x + PGD) % W) / PGD * PGD == b % W by {
      if x + PGD >= W { assert b == W && (x + PGD) % W < PGD; } else { assert (x + PGD) / PGD == q + 1; }
    }
    Boundary(b, e);
  }

  // ----- the flat map

  /** The entry of virtual page v. */
  ghost function EntryOf(mem: Mem, root: nat, v: nat): Entry
    requires v < PAGES
  {
    EntryAt(mem, root, v / 0x4_0000, v / 512 % 512, v % 512)
  }

  /** n pages from v on now have consecutive frames; all other pages are as before. */
  ghost predicate Maps(mem: Mem, mem': Mem, root: nat, v: nat, n: nat, pfn: nat, valid: bool, prot: nat) {
    forall u: nat :: u < PAGES ==>
      EntryOf(mem', root, u) == if v <= u < v + n then Page(pfn + (u - v), valid, prot) else EntryOf(mem, root, u)
  }

  lemma {:induction false} MapsNone(mem: Mem, mem': Mem, root: nat, v: nat, pfn: nat, valid: bool, prot: nat)
    requires forall u: nat :: u < PAGES ==> EntryOf(mem', root, u) == EntryOf(mem, root, u)
    ensures Maps(mem, mem', root, v, 0, pfn, valid, prot)
  {
    hide EntryOf;
  }

  lemma {:induction false} MapsJoin(m0: Mem, m1: Mem, m2: Mem, root: nat, v: nat, n: nat, k: nat, pfn: nat,
                                    valid: bool, prot: nat)
    requires Maps(m0, m1, root, v, n, pfn, valid, prot) && Maps(m1, m2, root, v + n, k, pfn + n, valid, prot)
    ensures Maps(m0, m2, root, v, n + k, pfn, valid, prot)
  {
    hide EntryOf;
  }

  lemma {:induction false} SameIndices(u: nat, v: nat)
    requires u < PAGES && v < PAGES && u / 0x4_0000 == v / 0x4_0000 && u / 512 % 512 == v / 512 % 512
             && u % 512 == v % 512
    ensures u == v
  {
  }

  lemma {:induction false} IndexRange(v: nat)
    requires v < PAGES
    ensures v / 0x4_0000 < 512 && v / 512 % 512 < 512 && v % 512 < 512
  {
  }

  /** n pages starting at a page-aligned address, within one 2^39-byte region. */
  ghost predicate Span(addr: nat, end: nat, v: nat, n: nat) {
    && addr < W && addr % PG == 0 && addr + n * PG <= W && end == (addr + n * PG) % W
    && v == PageOf(addr) && v + n <= PAGES && n > 0
  }

  lemma {:induction false} SpanStep(addr: nat, end: nat, v: nat, n: nat, k: nat)
    requires Span(addr, end, v, n) && 0 < k <= n
    ensures Span(addr, (addr + k * PG) % W, v, k)
    ensures ((addr + k * PG) % W == end) <==> k == n
    ensures k < n ==> Span((addr + k * PG) % W, end, v + k, n - k)
  {
    var x, e := addr + k * PG, addr + n * PG;
    assert e - x == (n - k) * PG;
    assert 0 < x <= e <= W;
    if k < n {
      assert x < W;
      assert x / PG == addr / PG + k;
      PageAdd(addr / PG, k);
    }
  }

  lemma {:induction false} PageAdd(p: nat, k: nat)
    requires p % PAGES + k < PAGES
    ensures (p + k) % PAGES == p % PAGES + k
  {
  }

  /** The two upper tables on the way to page (a, b, _) exist. */
  ghost predicate Path(mem: Mem, root: nat, a: nat, b: nat, f: nat, g: nat) {
    && root in mem && |mem[root]| == 512 && a < 512 && mem[root][a] == Table(f)
    && f in mem && |mem[f]| == 512 && b < 512 && mem[f][b] == Table(g)
    && g in mem && |mem[g]| == 512
  }

  /** Writing the entry of page v changes that page only, and none of the upper tables. */
  lemma {:induction false} WriteOne(mem: Mem, links: map<nat, Link>, root: nat, v: nat, f: nat, g: nat, e: Entry)
    requires Tree(mem, links, root) && v < PAGES && Path(mem, root, v / 0x4_0000, v / 512 % 512, f, g) && !e.Table?
    ensures var mem' := mem[g := mem[g][v % 512 := e]];
            && Tree(mem', links, root) && Path(mem', root, v / 0x4_0000, v / 512 % 512, f, g) && mem'[root] == mem[root]
            && forall u: nat :: u < PAGES ==> EntryOf(mem', root, u) == if u == v then e else EntryOf(mem, root, u)
  {
    hide Tree, EntryAt;
    var a, b, c := v / 0x4_0000, v / 512 % 512, v % 512;
    WriteLeaf(mem, links, root, a, b, c, e);
    LeafApart(mem, links, root, a, b, f, g);
    var mem' := mem[g := mem[g][c := e]];
    forall u: nat | u < PAGES ensures EntryOf(mem', root, u) == if u == v then e else EntryOf(mem, root, u) {
      if u != v {
        if u / 0x4_0000 == a && u / 512 % 512 == b && u % 512 == c { SameIndices(u, v); }
        IndexRange(u);
        assert (u / 0x4_0000, u / 512 % 512, u % 512) != (a, b, c);
      }
    }
  }

  lemma {:induction false} LeafApart(mem: Mem, links: map<nat, Link>, root: nat, a: nat, b: nat, f: nat, g: nat)
    requires Tree(mem, links, root) && Path(mem, root, a, b, f, g)
    ensures g != f && g != root && f != root && f in links && links[f].level == 1
  {
    hide Tree;
    TreeRoot(mem, links, root);
    TreeAt(mem, links, root, root, a);
    TreeAt(mem, links, root, f, b);
  }

  /** roundup to whole pages. */
  function RoundUp(x: nat): nat { if x % PG == 0 then x else x + PG - x % PG }

  /** The number of pages that [vir, vir + length) touches. */
  function PageCount(vir: nat, length: nat): nat
    requires length > 0
  {
    (vir + length - 1) / PG - vir / PG + 1
  }

  predicate Present(e: Entry) { e.Page? && e.valid }

  /** The physical address of a virtual one. */
  ghost function Translation(mem: Mem, root: nat, offset: int, vir: nat): Option<int> {
    if vir < PG * PAGES then Some(vir - offset)
    else
      var e := EntryOf(mem, root, PageOf(vir));
      if Present(e) then Some(e.pfn * PG + vir % PG) else None
  }

  /** Every byte of the range is mapped, at the same distance from phys as from vir. */
  ghost predicate Contiguous(mem: Mem, root: nat, offset: int, vir: nat, phys: int, n: nat) {
    forall i: nat :: i < n ==> TranslationAt(mem, root, offset, vir, i) == Some(phys + i)
  }

  ghost function TranslationAt(mem: Mem, root: nat, offset: int, vir: nat, i: nat): Option<int> {
    Translation(mem, root, offset, (vir + i) % W)
  }

  /** Page u is one of the n pages from vir on. */
  ghost predicate Covers(vir: nat, n: nat, u: nat) {
    exists i: nat :: i < n && PageOf(vir + i * PG) == u
  }

  class PageDir {
    const root: nat
    var mem: Mem
    var nextFrame: nat
    ghost var links: map<nat, Link>

    constructor ()
      ensures Valid() && forall v: nat :: v < PAGES ==> EntryOf(mem, root, v) == Empty
    {
      root := 0;
      mem := map[0 := Zeroed()];
      nextFrame := 1;
      links := map[0 := Link(0, 0, 0)];
    }

    ghost predicate Valid()
      reads this
    {
      Tree(mem, links, root) && forall f :: f in mem ==> f < nextFrame
    }

    /** A zeroed table in a frame that holds no table yet, put in an empty slot. */
    method Populate(f: nat, i: nat)
      requires Valid() && f in mem && f in links && links[f].level < 2 && |mem[f]| == 512 && i < 512
               && mem[f][i] == Empty
      modifies this
      ensures Valid() && f in mem && |mem[f]| == 512 && mem[f] == old(mem)[f][i := mem[f][i]]
      ensures mem[f][i].Table? && mem[f][i].frame in mem && |mem[mem[f][i].frame]| == 512
      ensures mem[f][i].frame in links && links[mem[f][i].frame] == Link(old(links)[f].level + 1, f, i)
      ensures forall h :: h in old(mem) && h != f ==> h in mem && mem[h] == old(mem)[h]
      ensures forall h :: h in old(links) && h in old(mem) ==> h in links && links[h] == old(links)[h]
      ensures forall u: nat :: u < PAGES ==> EntryOf(mem, root, u) == EntryOf(old(mem), root, u)
    {
      var g := nextFrame;
      nextFrame := nextFrame + 1;
      AddTable(mem, links, root, f, i, g);
      forall u: nat | u < PAGES
        ensures EntryOf(mem[f := mem[f][i := Table(g)]][g := Zeroed()], root, u) == EntryOf(mem, root, u)
      {
        AddTableSame(mem, links, root, f, i, g, u / 0x4_0000, u / 512 % 512, u % 512);
      }
      links := links[g := Link(links[f].level + 1, f, i)];
      mem := mem[f := mem[f][i := Table(g)]][g := Zeroed()];
    }

    /** The loop of alloc_init_pte: one table's worth of page entries. */
    method SetPtes(g: nat, addr: nat, end: nat, phys: nat, valid: bool, prot: nat, ghost f: nat, ghost v: nat,
                   ghost n: nat)
      requires Valid() && Span(addr, end, v, n) && v % 512 + n <= 512
      requires Path(mem, root, v / 0x4_0000, v / 512 % 512, f, g)
      modifies this`mem
      ensures Valid() && mem[root] == old(mem)[root] && Path(mem, root, v / 0x4_0000, v / 512 % 512, f, g)
      ensures Maps(old(mem), mem, root, v, n, phys / PG, valid, prot)
    {
      hide Tree, EntryOf, Span, Path, Maps;
      SpanPage(addr, end, v, n);
      Indices(addr);
      var pte, at, ph := PteOf(addr), addr, phys;
      ghost var k := 0;
      ghost var was := mem;
      MapsNone(was, mem, root, v, phys / PG, valid, prot);
      PathSizes(mem, root, v / 0x4_0000, v / 512 % 512, f, g);
      while true
        invariant 0 <= k < n && Valid() && root in mem && root in was && mem[root] == was[root]
        invariant pte == v % 512 + k && at == (addr + k * PG) % W && ph == phys + k * PG
        invariant Path(mem, root, v / 0x4_0000, v / 512 % 512, f, g)
        invariant Maps(was, mem, root, v, k, phys / PG, valid, prot)
        decreases n - k
      {
        SameTable(v, k);
        ghost var e := Page(ph / PG, valid, prot);
        ghost var before := mem;
        WriteOne(mem, links, root, v + k, f, g, e);
        PathSizes(mem, root, v / 0x4_0000, v / 512 % 512, f, g);
        mem := mem[g := mem[g][pte := Page(ph / PG, valid, prot)]];
        MapsExtend(was, before, mem, root, v, k, phys, valid, prot);
        SpanStep(addr, end, v, n, k + 1);
        Advance(addr, k);
        pte, at, ph, k := pte + 1, (at + PG) % W, ph + PG, k + 1;
        if at == end { break; }
      }
    }

    /** alloc_init_pte: the pages of one 2 MiB block; slot b of table f is theirs. */
    method AllocInitPte(f: nat, b: nat, addr: nat, end: nat, phys: nat, valid: bool, prot: nat, ghost v: nat,
                        ghost n: nat)
      requires Valid() && Span(addr, end, v, n) && v % 512 + n <= 512 && b == v / 512 % 512
      requires root in mem && |mem[root]| == 512 && mem[root][v / 0x4_0000] == Table(f)
      modifies this
      ensures Valid() && root in mem && mem[root] == old(mem)[root]
      ensures Maps(old(mem), mem, root, v, n, phys / PG, valid, prot)
    {
      hide EntryOf, Span, Maps, Tree;
      ghost var was := mem;
      ghost var a := v / 0x4_0000;
      SpanPage(addr, end, v, n);
      TreeAt(mem, links, root, root, a);
      TreeRoot(mem, links, root);
      TreeAt(mem, links, root, f, b);
      if mem[f][b] == Empty {
        Populate(f, b);
      }
      ghost var mid := mem;
      TreeAt(mem, links, root, f, b);
      var g := mem[f][b].frame;
      TreeAt(mem, links, root, g, 0);
      assert Path(mem, root, a, b, f, g);
      SetPtes(g, addr, end, phys, valid, prot, f, v, n);
      MapsAfterSame(was, mid, mem, root, v, n, phys / PG, valid, prot);
    }

    /** alloc_init_pmd: the pages of one 1 GiB block, 2 MiB at a time; entry a of the directory is theirs. */
    method AllocInitPmd(a: nat, addr: nat, end: nat, phys: nat, valid: bool, prot: nat, ghost v: nat, ghost n: nat)
      requires Valid() && Span(addr, end, v, n) && v % 0x4_0000 + n <= 0x4_0000 && a == v / 0x4_0000
      modifies this
      ensures Valid() && Maps(old(mem), mem, root, v, n, phys / PG, valid, prot)
    {
      hide EntryOf, Span, Maps, Tree, AddrEnd;
      ghost var was := mem;
      SpanPage(addr, end, v, n);
      TreeRoot(mem, links, root);
      TreeAt(mem, links, root, root, a);
      if mem[root][a] == Empty {
        Populate(root, a);
      }
      TreeAt(mem, links, root, root, a);
      MapsNone(was, mem, root, v, phys / PG, valid, prot);
      var f := mem[root][a].frame;
      Indices(addr);
      var b, at, ph := PmdeOf(addr), addr, phys;
      ghost var k := 0;
      while true
        invariant 0 <= k < n && Valid() && root in mem && |mem[root]| == 512 && mem[root][a] == Table(f)
        invariant at == (addr + k * PG) % W && ph == phys + k * PG && b == (v + k) / 512 % 512
        invariant Span(at, end, v + k, n - k)
        invariant Maps(was, mem, root, v, k, phys / PG, valid, prot)
        decreases n - k
      {
        var next := AddrEnd(at, end, PMD);
        ghost var step := Chunk(at, end, v + k, n - k, PMD, 512);
        SameBlock(v, k, n);
        SpanStep(at, end, v + k, n - k, step);
        ghost var before := mem;
        AllocInitPte(f, b, at, next, ph, valid, prot, v + k, step);
        Frames(phys, k);
        MapsJoin(was, before, mem, root, v, k, step, phys / PG, valid, prot);
        SpanPage(at, next, v + k, step);
        NextPosition(addr, at, next, ph, phys, k, step);
        if k + step < n { NextSlot(v, k, step, n); }
        ph := ph + (next + W - at) % W;
        b, at, k := b + 1, next, k + step;
        if at == end { break; }
      }
    }

    /** pgd_writemap: maps the pages that contain [vir, vir + length) to consecutive frames. The range lies
        in one region of 2^39 bytes and may end at the top of the address space. */
    method WriteMap(phys: nat, vir: nat, length: nat, valid: bool, prot: nat)
      requires Valid() && vir < W && 0 < length && vir + length <= W
      requires vir / (PG * PAGES) == (vir + length - 1) / (PG * PAGES)
      modifies this
      ensures Valid()
      ensures Maps(old(mem), mem, root, PageOf(vir), PageCount(vir, length), phys / PG, valid, prot)
    {
      hide EntryOf, Span, Maps, Tree, AddrEnd, PageOf, PageCount, RoundUp, PdeOf;
      var ph := phys / PG * PG;
      ghost var start := ph;
      AlignedPages(phys / PG);
      var addr := vir / PG * PG;
      var end := RoundUp((vir + length) % W) % W;
      ghost var v, n := PageOf(vir), PageCount(vir, length);
      StartSpan(vir, length, addr, end);
      ghost var was := mem;
      MapsNone(was, mem, root, v, phys / PG, valid, prot);
      SpanPage(addr, end, v, n);
      Indices(vir);
      var a, at := PdeOf(vir), addr;
      ghost var k := 0;
      while true
        invariant 0 <= k < n && Valid()
        invariant at == (addr + k * PG) % W && ph == start + k * PG && a == (v + k) / 0x4_0000
        invariant Span(at, end, v + k, n - k)
        invariant Maps(was, mem, root, v, k, phys / PG, valid, prot)
        decreases n - k
      {
        var next := AddrEnd(at, end, PGD);
        ghost var step := Chunk(at, end, v + k, n - k, PGD, 0x4_0000);
        SpanStep(at, end, v + k, n - k, step);
        ghost var before := mem;
        AllocInitPmd(a, at, next, ph, valid, prot, v + k, step);
        Frames(start, k);
        MapsJoin(was, before, mem, root, v, k, step, phys / PG, valid, prot);
        SpanPage(at, next, v + k, step);
        NextPosition(addr, at, next, ph, start, k, step);
        if k + step < n { NextDirectory(v + k, step); }
        ph := ph + (next + W - at) % W;
        a, at, k := a + 1, next, k + step;
        if at == end { break; }
      }
    }

    /** pt_follow: the slot of the page entry, if the page is present. */
    method Follow(vir: nat) returns (ok: bool, ghost f: nat, g: nat, c: nat)
      requires Valid()
      ensures ok <==> Present(EntryOf(mem, root, PageOf(vir)))
      ensures ok ==> Path(mem, root, PageOf(vir) / 0x4_0000, PageOf(vir) / 512 % 512, f, g) && c == PageOf(vir) % 512
      ensures ok ==> mem[g][c] == EntryOf(mem, root, PageOf(vir))
    {
      hide Tree;
      Indices(vir);
      f, g, c := 0, 0, 0;
      TreeRoot(mem, links, root);
      var e0 := mem[root][PdeOf(vir)];
      TreeAt(mem, links, root, root, PdeOf(vir));
      if e0 == Empty { return false, f, g, c; }
      f := e0.frame;
      TreeAt(mem, links, root, f, PmdeOf(vir));
      var e1 := mem[e0.frame][PmdeOf(vir)];
      if e1 == Empty { return false, f, g, c; }
      g, c := e1.frame, PteOf(vir);
      TreeAt(mem, links, root, g, c);
      ok := Present(mem[g][c]);
    }

    /** pgd_va2pa; addresses below 2^39 are the kernel's, at a constant distance from physical memory. */
    method Translate(vir: nat, offset: int) returns (r: Option<int>)
      requires Valid() && vir < W
      ensures r == Translation(mem, root, offset, vir)
    {
      hide Tree, EntryOf, Path;
      if vir < PG * PAGES { return Some(vir - offset); }
      var ok, _, g, c := Follow(vir);
      if !ok { return None; }
      PathOf(mem, root, vir, g);
      r := Some(mem[g][c].pfn * PG + vir % PG);
    }

    /** pgd_unmap_memory. */
    method Unmap(vir: nat, length: nat)
      requires Valid() && vir < W && vir % PG == 0 && length % PG == 0
      modifies this`mem
      ensures Valid()
      ensures forall u: nat :: u < PAGES ==>
                EntryOf(mem, root, u) == if Covers(vir, length / PG, u) && Present(EntryOf(old(mem), root, u))
                  then Empty
                                         else EntryOf(old(mem), root, u)
    {
      hide Tree, EntryOf, Path, Covers, PageOf;
      ghost var was := mem;
      CoversNone(vir);
      var at, left := vir, length;
      ghost var k := 0;
      while left > 0
        invariant Valid() && left >= 0 && left % PG == 0 && left + k * PG == length && at == (vir + k * PG) % W
        invariant forall u: nat :: u < PAGES ==>
                    EntryOf(mem, root, u) == if Covers(vir, k, u) && Present(EntryOf(was, root, u)) then Empty
                                             else EntryOf(was, root, u)
      {
        ghost var v := PageOf(at);
        PageWraps(vir + k * PG);
        forall u: nat | u < PAGES ensures Covers(vir, k + 1, u) <==> Covers(vir, k, u) || u == v {
          CoversStep(vir, k, u);
        }
        ghost var before := mem;
        var ok, f, g, c := Follow(at);
        if ok {
          WriteOne(mem, links, root, v, f, g, Empty);
          PathSizes(mem, root, v / 0x4_0000, v / 512 % 512, f, g);
          mem := mem[g := mem[g][c := Empty]];
        }
        Advance(vir, k);
        left, at, k := left - PG, (at + PG) % W, k + 1;
      }
      AlignedPages(k);
      assert length == k * PG && length / PG == k;
    }

    /** pgd_va2pa_range: the length of the part at the start of the range that is physically contiguous. */
    method TranslateRange(vir: nat, offset: int, bytes: nat) returns (r: nat, phys: int)
      requires Valid() && vir < W
      ensures r <= bytes
      ensures Translation(mem, root, offset, vir).None? ==> r == 0
      ensures r > 0 ==> Contiguous(mem, root, offset, vir, phys, r)
      ensures r < bytes && Translation(mem, root, offset, vir).Some? ==>
                (vir + r) % PG == 0 && TranslationAt(mem, root, offset, vir, r) != Some(phys + r)
    {
      hide Tree, EntryOf, Translation;
      var t := Translate(vir, offset);
      if t.None? { return 0, 0; }
      phys := t.value;
      var len := PG - vir % PG;
      FirstPage(mem, root, offset, vir, phys, len);
      var at := (vir + len) % W;
      var next := phys + len;
      while len < bytes
        invariant (vir + len) % PG == 0 && at == (vir + len) % W && next == phys + len && len > 0
        invariant Contiguous(mem, root, offset, vir, phys, len)
        decreases bytes - len
      {
        t := Translate(at, offset);
        if t.None? { break; }
        if next != t.value { break; }
        MorePages(mem, root, offset, vir, phys, len);
        len, at, next := len + PG, (at + PG) % W, next + PG;
      }
      r := if bytes < len then bytes else len;
    }
  }

  lemma {:induction false} SpanPage(addr: nat, end: nat, v: nat, n: nat)
    requires Span(addr, end, v, n)
    ensures v == PageOf(addr) && v + n <= PAGES && n > 0 && addr < W && addr % W == addr && addr + n * PG <= W
            && n * PG < W
  {
  }

  lemma {:induction false} Advance(addr: nat, k: nat)
    ensures ((addr + k * PG) % W + PG) % W == (addr + (k + 1) * PG) % W
  {
    var x := addr + k * PG;
    assert addr + (k + 1) * PG == x + PG;
    assert x == x / W * W + x % W;
    assert x + PG == x / W * W + (x % W + PG);
  }

  lemma {:induction false} SameTable(v: nat, k: nat)
    requires v % 512 + k < 512
    ensures (v + k) % 512 == v % 512 + k && (v + k) / 512 % 512 == v / 512 % 512 && (v + k) / 0x4_0000 == v / 0x4_0000
  {
  }

  lemma {:induction false} PathSizes(mem: Mem, root: nat, a: nat, b: nat, f: nat, g: nat)
    requires Path(mem, root, a, b, f, g)
    ensures g in mem && |mem[g]| == 512 && f in mem && |mem[f]| == 512 && root in mem && |mem[root]| == 512
  {
  }

  lemma {:induction false} MapsExtend(m0: Mem, m1: Mem, m2: Mem, root: nat, v: nat, k: nat, phys: nat, valid: bool,
                                      prot: nat)
    requires Maps(m0, m1, root, v, k, phys / PG, valid, prot) && v + k < PAGES
    requires forall u: nat :: u < PAGES ==>
               EntryOf(m2, root, u) == if u == v + k then Page((phys + k * PG) / PG, valid, prot)
                 else EntryOf(m1, root, u)
    ensures Maps(m0, m2, root, v, k + 1, phys / PG, valid, prot)
  {
    hide EntryOf;
    assert (phys + k * PG) / PG == phys / PG + k;
  }

  lemma {:induction false} NextDirectory(v: nat, step: nat)
    requires v % 0x4_0000 + step == 0x4_0000
    ensures (v + step) / 0x4_0000 == v / 0x4_0000 + 1
  {
  }

  lemma {:induction false} MapsAfterSame(m0: Mem, m1: Mem, m2: Mem, root: nat, v: nat, n: nat, pfn: nat, valid: bool,
                                         prot: nat)
    requires forall u: nat :: u < PAGES ==> EntryOf(m1, root, u) == EntryOf(m0, root, u)
    requires Maps(m1, m2, root, v, n, pfn, valid, prot)
    ensures Maps(m0, m2, root, v, n, pfn, valid, prot)
  {
    hide EntryOf;
  }

  /** How many pages of the span lie in its first block of the given number of pages. */
  lemma {:induction false} Chunk(addr: nat, end: nat, v: nat, n: nat, size: nat, per: nat) returns (k: nat)
    requires Span(addr, end, v, n) && ((size == PMD && per == 512) || (size == PGD && per == 0x4_0000))
    ensures 0 < k <= n && v % per + k <= per && (k == n || v % per + k == per)
    ensures AddrEnd(addr, end, size) == (addr + k * PG) % W
  {
    hide AddrEnd;
    AddrEndIs(addr, addr + n * PG, size);
    k := Min(per - v % per, n);
    var q := addr / PG;
    assert addr == q * PG;
    Indices(addr);
    if size == PMD {
      BlockEndPmd(addr, q, v);
    } else {
      BlockEndPgd(addr, q, v);
    }
  }

  lemma {:induction false} BlockEndPmd(addr: nat, q: nat, v: nat)
    requires addr == q * PG && v == q % PAGES
    ensures addr / PMD * PMD + PMD == addr + (512 - v % 512) * PG && v % 512 < 512
  {
    PageParts(q, q / PAGES, v);
    BlockNumbers(addr, q);
    assert q == q / 512 * 512 + v % 512;
  }

  lemma {:induction false} BlockEndPgd(addr: nat, q: nat, v: nat)
    requires addr == q * PG && v == q % PAGES
    ensures addr / PGD * PGD + PGD == addr + (0x4_0000 - v % 0x4_0000) * PG && v % 0x4_0000 < 0x4_0000
  {
    BlockNumbers(addr, q);
    var h := q / PAGES;
    assert q == h * PAGES + v;
    assert q / 0x4_0000 == h * 512 + v / 0x4_0000;
    assert v == v / 0x4_0000 * 0x4_0000 + v % 0x4_0000;
  }

  lemma {:induction false} SameBlock(v: nat, k: nat, n: nat)
    requires k < n && v % 0x4_0000 + n <= 0x4_0000
    ensures (v + k) / 0x4_0000 == v / 0x4_0000
  {
  }

  lemma {:induction false} Frames(phys: nat, k: nat)
    ensures (phys + k * PG) / PG == phys / PG + k
  {
  }

  lemma {:induction false} NextPosition(addr: nat, at: nat, next: nat, ph: nat, phys: nat, k: nat, step: nat)
    requires at == (addr + k * PG) % W && next == (at + step * PG) % W && at < W && at + step * PG <= W
             && 0 < step * PG < W
    requires ph == phys + k * PG
    ensures next == (addr + (k + step) * PG) % W
    ensures ph + (next + W - at) % W == phys + (k + step) * PG
  {
    var x := addr + k * PG;
    assert addr + (k + step) * PG == x + step * PG;
    assert x == x / W * W + at;
    assert x + step * PG == x / W * W + (at + step * PG);
  }

  lemma {:induction false} NextSlot(v: nat, k: nat, step: nat, n: nat)
    requires v % 0x4_0000 + n <= 0x4_0000 && k + step < n && (v + k) % 512 + step == 512
    ensures (v + k + step) / 512 % 512 == (v + k) / 512 % 512 + 1
  {
    var x, y := v / 0x4_0000, v % 0x4_0000 + k;
    var h, r := y / 512, y % 512;
    assert v + k == x * 0x4_0000 + y && y == h * 512 + r;
    BlockSlot(x, h, r);
    assert y + step == (h + 1) * 512;
    BlockSlot(x, h + 1, 0);
  }

  lemma {:induction false} BlockSlot(x: nat, h: nat, r: nat)
    requires h < 512 && r < 512
    ensures (x * 0x4_0000 + h * 512 + r) / 512 % 512 == h && (x * 0x4_0000 + h * 512 + r) % 512 == r
  {
    assert (x * 0x4_0000 + h * 512 + r) / 512 == x * 512 + h;
  }

  lemma {:induction false} StartSpan(vir: nat, length: nat, addr: nat, end: nat)
    requires vir < W && 0 < length && vir + length <= W && vir / (PG * PAGES) == (vir + length - 1) / (PG * PAGES)
    requires addr == vir / PG * PG && end == RoundUp((vir + length) % W) % W
    ensures Span(addr, end, PageOf(vir), PageCount(vir, length))
  {
    var p, q, n := vir / PG, (vir + length - 1) / PG, PageCount(vir, length);
    assert addr == p * PG && p <= q;
    assert addr + n * PG == (q + 1) * PG;
    assert addr / PG == p;
    EndPage(vir + length, q);
    LastPage(vir, length, p, q);
  }

  lemma {:induction false} EndPage(x: nat, q: nat)
    requires 0 < x <= W && q == (x - 1) / PG
    ensures (q + 1) * PG <= W && RoundUp(x % W) % W == (q + 1) * PG % W
  {
    assert x - 1 == q * PG + (x - 1) % PG;
    if x == W {
      assert q + 1 == 0x10_0000_0000_0000;
    } else if x % PG == 0 {
      assert x == (q + 1) * PG;
    } else {
      assert x / PG == q;
    }
  }

  lemma {:induction false} LastPage(vir: nat, length: nat, p: nat, q: nat)
    requires 0 < length && vir / (PG * PAGES) == (vir + length - 1) / (PG * PAGES)
    requires p == vir / PG && q == (vir + length - 1) / PG
    ensures p % PAGES + (q - p + 1) <= PAGES
  {
    RegionOf(vir, p);
    RegionOf(vir + length - 1, q);
  }

  lemma {:induction false} RegionOf(x: nat, p: nat)
    requires p == x / PG
    ensures x / (PG * PAGES) == p / PAGES
  {
    var h, v := p / PAGES, p % PAGES;
    assert x == p * PG + x % PG && p == h * PAGES + v;
    assert x == h * (PG * PAGES) + (v * PG + x % PG) && v * PG + x % PG < PG * PAGES;
  }

  lemma {:induction false} PathOf(mem: Mem, root: nat, vir: nat, g: nat)
    requires exists f: nat :: Path(mem, root, PageOf(vir) / 0x4_0000, PageOf(vir) / 512 % 512, f, g)
    ensures g in mem && |mem[g]| == 512
  {
  }

  lemma {:induction false} PageWraps(x: nat)
    ensures PageOf(x % W) == PageOf(x)
  {
    var q, r := x / W, x % W;
    assert x == q * W + r;
    assert x / PG == q * 0x10_0000_0000_0000 + r / PG;
    var h := r / PG;
    assert (q * 0x10_0000_0000_0000 + h) % PAGES == h % PAGES by {
      assert q * 0x10_0000_0000_0000 + h == (q * 0x200_0000 + h / PAGES) * PAGES + h % PAGES;
    }
  }

  lemma {:induction false} CoversNone(vir: nat)
    ensures forall u: nat :: !Covers(vir, 0, u)
  {
  }

  lemma {:induction false} CoversStep(vir: nat, k: nat, u: nat)
    ensures Covers(vir, k + 1, u) <==> Covers(vir, k, u) || u == PageOf(vir + k * PG)
  {
    hide PageOf;
    if Covers(vir, k + 1, u) {
      var i: nat :| i < k + 1 && PageOf(vir + i * PG) == u;
    }
    if u == PageOf(vir + k * PG) { assert Covers(vir, k + 1, u); }
  }

  /** Within a page, translation keeps the distance. */
  lemma {:induction false} WithinPage(mem: Mem, root: nat, offset: int, x: nat, i: nat, phys: int)
    requires x < W && x % PG + i < PG && Translation(mem, root, offset, x) == Some(phys)
    ensures x + i < W && Translation(mem, root, offset, x + i) == Some(phys + i)
  {
    hide EntryOf;
    var q, r := x / PG, x % PG;
    assert x == q * PG + r;
    assert (x + i) / PG == q && (x + i) % PG == r + i;
    assert q < 0x10_0000_0000_0000;
    assert x < PG * PAGES <==> q < PAGES;
  }

  lemma {:induction false} FirstPage(mem: Mem, root: nat, offset: int, vir: nat, phys: int, len: nat)
    requires vir < W && Translation(mem, root, offset, vir) == Some(phys) && len == PG - vir % PG
    ensures Contiguous(mem, root, offset, vir, phys, len) && (vir + len) % PG == 0
  {
    hide Translation;
    forall i: nat | i < len ensures TranslationAt(mem, root, offset, vir, i) == Some(phys + i) {
      WithinPage(mem, root, offset, vir, i, phys);
    }
    assert vir == vir / PG * PG + vir % PG;
    AlignedPages(vir / PG + 1);
  }

  lemma {:induction false} AlignedPages(q: nat)
    ensures q * PG % PG == 0 && q * PG / PG == q
  {
  }

  lemma {:induction false} MorePages(mem: Mem, root: nat, offset: int, vir: nat, phys: int, len: nat)
    requires (vir + len) % PG == 0 && Contiguous(mem, root, offset, vir, phys, len)
    requires TranslationAt(mem, root, offset, vir, len) == Some(phys + len)
    ensures Contiguous(mem, root, offset, vir, phys, len + PG) && (vir + len + PG) % PG == 0
    ensures ((vir + len) % W + PG) % W == (vir + (len + PG)) % W
  {
    hide Translation;
    var x := vir + len;
    WrapAligned(x);
    forall i: nat | i < len + PG ensures TranslationAt(mem, root, offset, vir, i) == Some(phys + i) {
      if i >= len { NextByte(mem, root, offset, vir, phys, len, i - len); }
    }
    Advance(x, 0);
  }

  lemma {:induction false} NextByte(mem: Mem, root: nat, offset: int, vir: nat, phys: int, len: nat, j: nat)
    requires (vir + len) % W % PG == 0 && j < PG && TranslationAt(mem, root, offset, vir, len) == Some(phys + len)
    ensures TranslationAt(mem, root, offset, vir, len + j) == Some(phys + len + j)
  {
    hide Translation;
    WithinPage(mem, root, offset, (vir + len) % W, j, phys + len);
    WrapAdd(vir + len, j);
  }

  lemma {:induction false} WrapAligned(x: nat)
    requires x % PG == 0
    ensures x % W % PG == 0 && (x + PG) % PG == 0
  {
    var q, r := x / W, x % W;
    assert x == q * W + r;
    assert r == (x / PG - q * 0x10_0000_0000_0000) * PG;
  }

  lemma {:induction false} WrapAdd(x: nat, j: nat)
    requires x % W + j < W
    ensures (x + j) % W == x % W + j
  {
    assert x == x / W * W + x % W;
  }

  /** After a valid mapping is written, each byte of the range translates to the byte at the same distance
      in physical memory, counted from the page boundaries. */
  lemma {:induction false} WrittenTranslates(m0: Mem, m1: Mem, root: nat, offset: int, phys: nat, vir: nat,
                                             length: nat, prot: nat, i: nat)
    requires PG * PAGES <= vir < W && i < length && vir + length <= W
    requires vir / (PG * PAGES) == (vir + length - 1) / (PG * PAGES)
    requires Maps(m0, m1, root, PageOf(vir), PageCount(vir, length), phys / PG, true, prot)
    ensures Translation(m1, root, offset, vir + i) == Some(phys / PG * PG + (vir + i - vir / PG * PG))
  {
    hide EntryOf;
    var p, q, x := vir / PG, (vir + length - 1) / PG, (vir + i) / PG;
    LastPage(vir, length, p, q);
    assert p <= x <= q;
    PageAdd(p, x - p);
    assert PageOf(vir + i) == PageOf(vir) + (x - p);
    assert vir + i == x * PG + (vir + i) % PG;
  }

  /** Translations of pages outside the range are not affected. */
  lemma {:induction false} OthersKept(m0: Mem, m1: Mem, root: nat, offset: int, v: nat, n: nat, pfn: nat,
                                      valid: bool, prot: nat, x: nat)
    requires Maps(m0, m1, root, v, n, pfn, valid, prot) && !(v <= PageOf(x) < v + n)
    ensures Translation(m1, root, offset, x) == Translation(m0, root, offset, x)
  {
    hide EntryOf;
  }
}
