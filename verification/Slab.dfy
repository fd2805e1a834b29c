/** Small objects: pages cut into slots of one size, with a bit per slot, and per-CPU caches of freed
    objects in front. */
module Slab {
  import opened Common
  import opened Bitmap
  import opened Arithmetic

  const PAGE_SIZE: nat := 4096
  /** The bytes of a page before its header. */
  const DATA_BYTES: nat := 4000
  const MIN_SIZE: nat := 8
  const MAX_SIZE: nat := 1028
  const CACHE_SIZE: nat := 128

  function RoundUp(bytes: nat): nat { if bytes % 4 == 0 then bytes else bytes + 4 - bytes % 4 }

  function Index(bytes: nat): nat
    requires bytes >= MIN_SIZE
  {
    (RoundUp(bytes) - MIN_SIZE) / 4
  }

  /** All sizes of one class are rounded to the same slot size, and there are 256 classes. */
  lemma {:induction false} ClassSize(bytes: nat)
    requires MIN_SIZE <= bytes <= MAX_SIZE
    ensures Index(bytes) < 256 && RoundUp(bytes) == MIN_SIZE + 4 * Index(bytes)
  {
  }

  datatype Page = Page(base: nat, mask: seq<Word>, guess: nat, used: nat)

  function Slots(bytes: nat): nat
    requires bytes > 0
  {
    DATA_BYTES / bytes
  }

  lemma {:induction false} SlotsFit(bytes: nat, i: nat)
    requires bytes >= MIN_SIZE && i < Slots(bytes)
    ensures i < 500 && 0 <= i * bytes && i * bytes + bytes <= DATA_BYTES
  {
    var n := DATA_BYTES / bytes;
    assert DATA_BYTES == n * bytes + DATA_BYTES % bytes;
    Grow(i + 1, n, bytes);
    assert (i + 1) * bytes == i * bytes + bytes;
    Grow(8, bytes, i + 1);
  }

  lemma {:induction false} Grow(a: nat, b: nat, c: nat)
    requires a <= b
    ensures a * c <= b * c && c * a <= c * b
  {
    assert b * c == a * c + (b - a) * c;
  }

  // ----- masks

  function SetBit(m: seq<Word>, i: nat, v: bool): (r: seq<Word>)
    requires i / BITS < |m|
    ensures |r| == |m| && forall j: nat :: j / BITS < |m| ==> (Bit(r, j) <==> if j == i then v else Bit(m, j))
  {
    m[i / BITS := m[i / BITS][i % BITS := v]]
  }

  ghost function Count(m: seq<Word>, n: nat): nat
    requires n <= BITS * |m|
  {
    if n == 0 then 0 else Count(m, n - 1) + if Bit(m, n - 1) then 1 else 0
  }

  lemma {:induction false} CountSet(m: seq<Word>, i: nat, v: bool, n: nat)
    requires i / BITS < |m| && n <= BITS * |m|
    ensures Count(SetBit(m, i, v), n)
         == Count(m, n) + if i >= n || Bit(m, i) == v then 0 else if v then 1 else -1
  {
    hide SetBit, Bit;
    if n > 0 { CountSet(m, i, v, n - 1); }
  }

  lemma {:induction false} CountFull(m: seq<Word>, n: nat)
    requires n <= BITS * |m|
    ensures Count(m, n) <= n && (Count(m, n) == n <==> forall i: nat :: i < n ==> Bit(m, i))
  {
    hide Bit;
    if n > 0 {
      CountFull(m, n - 1);
      if forall i: nat :: i < n ==> Bit(m, i) { assert Bit(m, n - 1); }
    }
  }

  lemma {:induction false} CountPositive(m: seq<Word>, i: nat, n: nat)
    requires i < n <= BITS * |m| && Bit(m, i)
    ensures Count(m, n) > 0
  {
    hide Bit;
    if i < n - 1 { CountPositive(m, i, n - 1); }
  }

  ghost predicate PageOk(p: Page, max: nat) {
    |p.mask| == 8 && max <= 512 && p.used == Count(p.mask, max) && p.guess <= max
  }

  /** The search from the guess to the end and then from the start to the guess: it finds an unused slot
      exactly when the page is not full. */
  method FindSlot(p: Page, max: nat) returns (i: nat)
    requires PageOk(p, max)
    ensures p.used == max ==> i >= max
    ensures p.used != max ==> i < max && !Bit(p.mask, i)
  {
    hide Bit, Count;
    CountFull(p.mask, max);
    i := FindZero(p.mask, max, p.guess);
    if i < max { return; }
    i := FindZero(p.mask, p.guess, 0);
    if i < p.guess { return; }
    i := max;
  }

  method FindZero(m: seq<Word>, n: nat, start: nat) returns (r: nat)
    requires n <= BITS * |m|
    ensures start >= n ==> r == n
    ensures start < n ==> start <= r <= n && (r < n ==> !Bit(m, r))
    ensures forall i: nat :: start <= i < r && i < n ==> Bit(m, i)
  {
    hide Bit;
    r := FindNextBit(m, None, n, start, true);
    forall i: nat | start <= i < r && i < n ensures Bit(m, i) { assert !Wanted(m, None, true, i); }
  }

  // ----- objects

  datatype Owner = Live | Parked(cpu: nat, index: nat)

  /** Address a is slot i of page k, and its bit is set. */
  ghost predicate IsSlot(pages: seq<Page>, bytes: nat, a: nat, k: nat, i: nat) {
    && k < |pages| && |pages[k].mask| == 8 && bytes > 0 && i < Slots(bytes) && i < 512 && Bit(pages[k].mask, i)
    && a == pages[k].base + i * bytes
  }

  ghost predicate Apart(pages: seq<Page>) {
    forall j, k :: 0 <= j < |pages| && 0 <= k < |pages| && j != k ==>
      pages[j].base + PAGE_SIZE <= pages[k].base || pages[k].base + PAGE_SIZE <= pages[j].base
  }

  /** Different slots do not overlap; a slot lies in the data area of its page. */
  lemma {:induction false} SlotsApart(pages: seq<Page>, bytes: nat, k: nat, i: nat, l: nat, j: nat)
    requires Apart(pages) && bytes >= MIN_SIZE && k < |pages| && l < |pages| && i < Slots(bytes) && j < Slots(bytes)
             && (k, i) != (l, j)
    ensures var a, b := pages[k].base + i * bytes, pages[l].base + j * bytes;
            && pages[k].base <= a && a + bytes <= pages[k].base + DATA_BYTES
            && (a + bytes <= b || b + bytes <= a)
  {
    SlotsFit(bytes, i);
    SlotsFit(bytes, j);
    if k == l {
      if i < j {
        Grow(i + 1, j, bytes);
        assert (i + 1) * bytes == i * bytes + bytes;
      } else {
        Grow(j + 1, i, bytes);
        assert (j + 1) * bytes == j * bytes + bytes;
      }
    }
  }

  /** Exactly the objects with a set bit have an owner. */
  ghost predicate Account(own: map<nat, Owner>, pages: seq<Page>, bytes: nat) {
    forall a: nat :: a in own <==> exists k: nat, i: nat :: IsSlot(pages, bytes, a, k, i)
  }

  /** The caches hold exactly the parked objects, each once. */
  ghost predicate CachesOk(own: map<nat, Owner>, caches: map<nat, seq<nat>>) {
    && (forall c, i :: c in caches && 0 <= i < |caches[c]| ==> caches[c][i] in own && own[caches[c][i]] == Parked(c, i))
    && (forall a :: a in own && own[a].Parked? ==>
          own[a].cpu in caches && own[a].index < |caches[own[a].cpu]| && caches[own[a].cpu][own[a].index] == a)
    && (forall c :: c in caches ==> |caches[c]| <= CACHE_SIZE)
  }

  lemma {:induction false} CachePop(own: map<nat, Owner>, caches: map<nat, seq<nat>>, c: nat)
    requires CachesOk(own, caches) && c in caches && caches[c] != []
    ensures var n := |caches[c]| - 1;
            var a := caches[c][n];
            a in own && CachesOk(own[a := Live], caches[c := caches[c][..n]])
  {
  }

  lemma {:induction false} CachePush(own: map<nat, Owner>, caches: map<nat, seq<nat>>, c: nat, a: nat)
    requires CachesOk(own, caches) && c in caches && |caches[c]| < CACHE_SIZE && a in own && own[a] == Live
    ensures CachesOk(own[a := Parked(c, |caches[c]|)], caches[c := caches[c] + [a]])
  {
  }

  lemma {:induction false} CacheOther(own: map<nat, Owner>, caches: map<nat, seq<nat>>, a: nat)
    requires CachesOk(own, caches)
    ensures a !in own ==> CachesOk(own[a := Live], caches)
    ensures a in own && own[a] == Live ==> CachesOk(own - {a}, caches)
  {
  }

  // ----- effects on the account

  /** Setting the bit of an unused slot. */
  lemma {:induction false} AccountTake(own: map<nat, Owner>, pages: seq<Page>, bytes: nat, k: nat, i: nat, p: Page)
    requires Account(own, pages, bytes) && Apart(pages) && bytes >= MIN_SIZE && k < |pages| && |pages[k].mask| == 8
    requires i < Slots(bytes) && i < 512 && !Bit(pages[k].mask, i)
    requires p.base == pages[k].base && p.mask == SetBit(pages[k].mask, i, true)
    ensures pages[k].base + i * bytes !in own
    ensures Account(own[pages[k].base + i * bytes := Live], pages[k := p], bytes)
  {
    hide Bit, SetBit, Apart;
    var a := pages[k].base + i * bytes;
    var pages' := pages[k := p];
    if a in own {
      var l: nat, j: nat :| IsSlot(pages, bytes, a, l, j);
      SlotsApart(pages, bytes, k, i, l, j);
    }
    var own' := own[a := Live];
    forall x: nat ensures x in own' <==> exists l: nat, j: nat :: IsSlot(pages', bytes, x, l, j) {
      if x in own {
        var l: nat, j: nat :| IsSlot(pages, bytes, x, l, j);
        assert IsSlot(pages', bytes, x, l, j);
      }
      if x == a { assert IsSlot(pages', bytes, a, k, i); }
      if exists l: nat, j: nat :: IsSlot(pages', bytes, x, l, j) {
        var l: nat, j: nat :| IsSlot(pages', bytes, x, l, j);
        if (l, j) != (k, i) { assert IsSlot(pages, bytes, x, l, j); }
      }
    }
  }

  /** Clearing the bit of an object. */
  lemma {:induction false} AccountGive(own: map<nat, Owner>, pages: seq<Page>, bytes: nat, k: nat, i: nat, p: Page)
    requires Account(own, pages, bytes) && Apart(pages) && bytes >= MIN_SIZE && k < |pages| && |pages[k].mask| == 8
    requires i < Slots(bytes) && i < 512 && Bit(pages[k].mask, i)
    requires p.base == pages[k].base && p.mask == SetBit(pages[k].mask, i, false)
    ensures Account(own - {pages[k].base + i * bytes}, pages[k := p], bytes)
  {
    hide Bit, SetBit, Apart;
    var a := pages[k].base + i * bytes;
    var pages' := pages[k := p];
    var own' := own - {a};
    forall x: nat ensures x in own' <==> exists l: nat, j: nat :: IsSlot(pages', bytes, x, l, j) {
      if x in own' {
        var l: nat, j: nat :| IsSlot(pages, bytes, x, l, j);
        assert IsSlot(pages', bytes, x, l, j);
      }
      if exists l: nat, j: nat :: IsSlot(pages', bytes, x, l, j) {
        var l: nat, j: nat :| IsSlot(pages', bytes, x, l, j);
        assert (l, j) != (k, i);
        assert IsSlot(pages, bytes, x, l, j);
        SlotsApart(pages, bytes, k, i, l, j);
      }
    }
  }

  function ZeroMask(): (m: seq<Word>)
    ensures |m| == 8 && forall i: nat :: i < 512 ==> !Bit(m, i)
  {
    seq(8, k => seq(64, i => false))
  }

  lemma {:induction false} CountZero(m: seq<Word>, n: nat)
    requires n <= BITS * |m| && forall i: nat :: i < n ==> !Bit(m, i)
    ensures Count(m, n) == 0
  {
    hide Bit;
    if n > 0 { CountZero(m, n - 1); }
  }

  /** A new page without objects. */
  lemma {:induction false} AccountPage(own: map<nat, Owner>, pages: seq<Page>, bytes: nat, p: Page)
    requires Account(own, pages, bytes) && p.mask == ZeroMask()
    ensures Account(own, [p] + pages, bytes)
  {
    hide Bit, ZeroMask;
    var pages' := [p] + pages;
    forall x: nat ensures x in own <==> exists l: nat, j: nat :: IsSlot(pages', bytes, x, l, j) {
      if x in own {
        var l: nat, j: nat :| IsSlot(pages, bytes, x, l, j);
        assert pages'[l + 1] == pages[l];
        assert IsSlot(pages', bytes, x, l + 1, j);
      }
      if exists l: nat, j: nat :: IsSlot(pages', bytes, x, l, j) {
        var l: nat, j: nat :| IsSlot(pages', bytes, x, l, j);
        assert l > 0 && pages'[l] == pages[l - 1];
        assert IsSlot(pages, bytes, x, l - 1, j);
      }
    }
  }

  function EmptyCaches(ncpus: nat): (m: map<nat, seq<nat>>)
    ensures (forall c: nat :: c < ncpus ==> c in m) && forall c :: c in m ==> m[c] == []
  {
    if ncpus == 0 then map[] else EmptyCaches(ncpus - 1)[ncpus - 1 := []]
  }

  /** One size class. */
  class SizeClass {
    const bytes: nat
    var pages: seq<Page>
    var caches: map<nat, seq<nat>>
    ghost var own: map<nat, Owner>

    constructor (index: nat, ncpus: nat)
      requires index < 256
      ensures Valid() && own == map[] && pages == [] && bytes == MIN_SIZE + 4 * index
      ensures forall c: nat :: c < ncpus ==> c in caches
    {
      bytes := MIN_SIZE + 4 * index;
      pages := [];
      caches := EmptyCaches(ncpus);
      own := map[];
    }

    ghost predicate PagesOk()
      reads this
    {
      bytes > 0 && Apart(pages) && forall k :: 0 <= k < |pages| ==> PageOk(pages[k], Slots(bytes)) && pages[k].base > 0
    }

    ghost predicate Valid()
      reads this
    {
      MIN_SIZE <= bytes <= MAX_SIZE && PagesOk() && Account(own, pages, bytes) && CachesOk(own, caches)
    }

    /** Takes slot i of page k for the caller. */
    method Take(k: nat, i: nat) returns (ptr: nat)
      requires Valid() && k < |pages| && i < Slots(bytes) && i < 512 && |pages[k].mask| == 8 && !Bit(pages[k].mask, i)
      modifies this`pages, this`own
      ensures Valid() && ptr > 0 && ptr !in old(own) && own == old(own)[ptr := Live]
    {
      hide Bit, SetBit, Account, CachesOk, Count;
      var p := pages[k];
      var q := Page(p.base, SetBit(p.mask, i, true), i + 1, p.used + 1);
      CountSet(p.mask, i, true, Slots(bytes));
      AccountTake(own, pages, bytes, k, i, q);
      ptr := p.base + i * bytes;
      CacheOther(own, caches, ptr);
      ApartUpdate(pages, k, q);
      SlotsFit(bytes, i);
      own := own[ptr := Live];
      pages := pages[k := q];
    }

    /** slaballoc: an object of the class, from the cache of the CPU, from a page that is not full, or from
        a new page; 0 if there is none. A new page is given by its address, 0 for none. */
    method Alloc(cpu: nat, size: nat, newPage: nat) returns (ptr: nat)
      requires Valid() && cpu in caches && (MIN_SIZE <= size <= MAX_SIZE ==> RoundUp(size) == bytes)
      requires newPage != 0 ==> forall k :: 0 <= k < |pages| ==>
                 newPage + PAGE_SIZE <= pages[k].base || pages[k].base + PAGE_SIZE <= newPage
      modifies this
      ensures Valid()
      ensures ptr == 0 ==> own == old(own)
      ensures ptr != 0 ==> own == old(own)[ptr := Live]
                           && (ptr in old(own) ==> old(own)[ptr].Parked? && old(own)[ptr].cpu == cpu)
      ensures ptr == 0 <==>
                (size > MAX_SIZE || size < MIN_SIZE
                 || (old(caches[cpu]) == [] && newPage == 0 && forall k :: 0 <= k < |old(pages)| ==>
                      old(pages)[k].used == Slots(bytes)))
    {
      hide Bit, Account, CachesOk, Count;
      if size > MAX_SIZE || size < MIN_SIZE { return 0; }
      CachesAt(own, caches, pages, bytes, cpu);
      if |caches[cpu]| > 0 {
        var c := caches[cpu];
        CachePop(own, caches, cpu);
        ptr := c[|c| - 1];
        AccountSame(own, pages, bytes, ptr, Live);
        CachedPositive(own, pages, caches, bytes, cpu, |c| - 1);
        own := own[ptr := Live];
        caches := caches[cpu := c[..|c| - 1]];
        return;
      }
      SlotCount(bytes);
      var k := 0;
      while k < |pages|
        invariant 0 <= k <= |pages| && Valid() && pages == old(pages) && own == old(own) && caches == old(caches)
        invariant forall j :: 0 <= j < k ==> pages[j].used == Slots(bytes)
      {
        if pages[k].used != Slots(bytes) {
          var i := FindSlot(pages[k], Slots(bytes));
          ptr := Take(k, i);
          return;
        }
        k := k + 1;
      }
      if newPage == 0 { return 0; }
      AddPage(newPage);
      CountFull(pages[0].mask, Slots(bytes));
      var i := FindSlot(pages[0], Slots(bytes));
      ptr := Take(0, i);
    }

    method AddPage(b: nat)
      requires Valid() && b > 0
      requires forall k :: 0 <= k < |pages| ==> b + PAGE_SIZE <= pages[k].base || pages[k].base + PAGE_SIZE <= b
      modifies this`pages
      ensures Valid() && pages == [Page(b, ZeroMask(), 0, 0)] + old(pages)
      ensures Slots(bytes) > 0
    {
      hide Bit, Account, CachesOk, ZeroMask;
      var p := Page(b, ZeroMask(), 0, 0);
      SlotCount(bytes);
      CountZero(p.mask, Slots(bytes));
      AccountPage(own, pages, bytes, p);
      pages := [p] + pages;
    }

    /** slabfree: the object goes to the cache of the CPU, or if that is full back to its page. */
    method Free(cpu: nat, mem: nat, size: nat)
      requires Valid() && cpu in caches && (MIN_SIZE <= size <= MAX_SIZE ==> RoundUp(size) == bytes)
      requires mem in own && own[mem] == Live
      modifies this
      ensures Valid()
      ensures size > MAX_SIZE || size < MIN_SIZE ==> own == old(own)
      ensures MIN_SIZE <= size <= MAX_SIZE && |old(caches[cpu])| < CACHE_SIZE ==>
                own == old(own)[mem := Parked(cpu, |old(caches[cpu])|)]
      ensures MIN_SIZE <= size <= MAX_SIZE && |old(caches[cpu])| == CACHE_SIZE ==> own == old(own) - {mem}
    {
      hide Bit, Account, CachesOk, Count;
      if size > MAX_SIZE || size < MIN_SIZE { return; }
      CachesAt(own, caches, pages, bytes, cpu);
      var c := caches[cpu];
      if |c| < CACHE_SIZE {
        CachePush(own, caches, cpu, mem);
        AccountSame(own, pages, bytes, mem, Parked(cpu, |c|));
        own := own[mem := Parked(cpu, |c|)];
        caches := caches[cpu := c + [mem]];
        return;
      }
      ghost var at, slot := SlotOf(own, pages, bytes, mem);
      InItsPage(pages, bytes, mem, at, slot);
      var k := 0;
      while k < |pages|
        invariant 0 <= k <= at
        decreases |pages| - k
      {
        if pages[k].used != 0 && pages[k].base <= mem < pages[k].base + DATA_BYTES {
          OnePage(pages, mem, k, at);
          ReturnSlot(k, mem, slot);
          return;
        }
        k := k + 1;
      }
    }

    method ReturnSlot(k: nat, mem: nat, ghost slot: nat)
      requires Valid() && IsSlot(pages, bytes, mem, k, slot) && mem in own && own[mem] == Live
      modifies this`pages, this`own
      ensures Valid() && own == old(own) - {mem}
    {
      hide Bit, SetBit, Account, CachesOk, Count;
      var p := pages[k];
      SlotNumber(p.base, slot, bytes, mem);
      var i := (mem - p.base) / bytes;
      CountPositive(p.mask, i, Slots(bytes));
      var q := Page(p.base, SetBit(p.mask, i, false), i, p.used - 1);
      CountSet(p.mask, i, false, Slots(bytes));
      AccountGive(own, pages, bytes, k, i, q);
      CacheOther(own, caches, mem);
      ApartUpdate(pages, k, q);
      own := own - {mem};
      pages := pages[k := q];
    }
  }

  lemma {:induction false} SlotCount(bytes: nat)
    requires MIN_SIZE <= bytes <= MAX_SIZE
    ensures 0 < Slots(bytes) <= 500
  {
    var n := DATA_BYTES / bytes;
    assert DATA_BYTES == n * bytes + DATA_BYTES % bytes;
    Grow(8, bytes, n);
  }

  lemma {:induction false} ApartUpdate(pages: seq<Page>, k: nat, q: Page)
    requires Apart(pages) && k < |pages| && q.base == pages[k].base
    ensures Apart(pages[k := q])
  {
  }

  lemma {:induction false} CachesAt(own: map<nat, Owner>, caches: map<nat, seq<nat>>, pages: seq<Page>, bytes: nat,
                                    c: nat)
    requires CachesOk(own, caches) && c in caches
    ensures forall i :: 0 <= i < |caches[c]| ==> caches[c][i] in own && own[caches[c][i]] == Parked(c, i)
    ensures |caches[c]| <= CACHE_SIZE
  {
  }

  lemma {:induction false} AccountSame(own: map<nat, Owner>, pages: seq<Page>, bytes: nat, a: nat, o: Owner)
    requires Account(own, pages, bytes) && a in own
    ensures Account(own[a := o], pages, bytes)
  {
    hide IsSlot;
  }

  lemma {:induction false} CachedPositive(own: map<nat, Owner>, pages: seq<Page>, caches: map<nat, seq<nat>>,
                                          bytes: nat, c: nat, i: nat)
    requires Account(own, pages, bytes) && CachesOk(own, caches) && c in caches && i < |caches[c]|
    requires forall k :: 0 <= k < |pages| ==> pages[k].base > 0
    ensures caches[c][i] > 0
  {
    hide Bit;
    var a := caches[c][i];
    var k: nat, j: nat :| IsSlot(pages, bytes, a, k, j);
    Grow(0, j, bytes);
  }

  lemma {:induction false} SlotOf(own: map<nat, Owner>, pages: seq<Page>, bytes: nat, a: nat) returns (k: nat, i: nat)
    requires Account(own, pages, bytes) && a in own
    ensures IsSlot(pages, bytes, a, k, i)
  {
    hide IsSlot;
    k, i :| IsSlot(pages, bytes, a, k, i);
  }

  lemma {:induction false} InItsPage(pages: seq<Page>, bytes: nat, a: nat, k: nat, i: nat)
    requires bytes >= MIN_SIZE && IsSlot(pages, bytes, a, k, i) && PageOk(pages[k], Slots(bytes))
    ensures pages[k].used != 0 && pages[k].base <= a < pages[k].base + DATA_BYTES
  {
    hide Bit;
    SlotsFit(bytes, i);
    CountPositive(pages[k].mask, i, Slots(bytes));
  }

  lemma {:induction false} OnePage(pages: seq<Page>, a: nat, k: nat, l: nat)
    requires Apart(pages) && k < |pages| && l < |pages|
    requires pages[k].base <= a < pages[k].base + DATA_BYTES && pages[l].base <= a < pages[l].base + DATA_BYTES
    ensures k == l
  {
  }

  lemma {:induction false} SlotNumber(base: nat, i: nat, bytes: nat, a: nat)
    requires bytes > 0 && a == base + i * bytes
    ensures a >= base && (a - base) / bytes == i
  {
    Grow(0, i, bytes);
    DivModUnique(i * bytes, bytes, i, 0);
  }

  /** Objects with an owner are pairwise disjoint and lie in the data area of one of the pages. */
  lemma {:induction false} ObjectsDisjoint(own: map<nat, Owner>, pages: seq<Page>, bytes: nat, a: nat, b: nat)
    requires Account(own, pages, bytes) && Apart(pages) && bytes >= MIN_SIZE && a in own && b in own && a != b
    ensures a + bytes <= b || b + bytes <= a
    ensures exists k :: 0 <= k < |pages| && pages[k].base <= a && a + bytes <= pages[k].base + DATA_BYTES
  {
    hide Apart, Account, Bit;
    var k, i := SlotOf(own, pages, bytes, a);
    var l, j := SlotOf(own, pages, bytes, b);
    SlotsApart(pages, bytes, k, i, l, j);
  }
}
