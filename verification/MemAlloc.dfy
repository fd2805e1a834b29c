/** The physical memory allocator: a hole table with per-CPU lists of recently freed small blocks in front. */
module MemAlloc {
  import opened Arithmetic
  import opened HoleTable
  import opened ZoneAlloc

  const PG: nat := 4096
  const MAX_PAGES: nat := 12
  const MAX_FREE: nat := 128

  /** Who has a byte: nobody (outside the zone, or dropped as padding), the hole table, a parked block of a
      CPU, or the caller of an allocation. */
  datatype Owner = Lost | Free | Parked(cpu: nat, pages: nat, index: nat) | Live(base: nat)

  type Lists = map<(nat, nat), seq<nat>>

  // ----- the account of all bytes

  ghost predicate HolesAccount(own: int -> Owner, v: seq<Hole>) {
    forall x: int :: own(x) == Free <==> Covers(v, x)
  }

  ghost predicate LiveAccount(own: int -> Owner, live: map<nat, nat>) {
    && (forall x: int, b: nat :: own(x) == Live(b) <==> b in live && b <= x < b + live[b])
    && (forall b :: b in live ==> live[b] > 0)
  }

  ghost predicate InParked(lists: Lists, c: nat, n: nat, i: nat, x: int) {
    (c, n) in lists && i < |lists[(c, n)]| && lists[(c, n)][i] <= x < lists[(c, n)][i] + n * PG
  }

  ghost predicate ParkedAccount(own: int -> Owner, lists: Lists) {
    && (forall x: int, c: nat, n: nat, i: nat :: own(x) == Parked(c, n, i) <==> InParked(lists, c, n, i, x))
    && (forall k :: k in lists ==> 1 <= k.1 <= MAX_PAGES && |lists[k]| <= MAX_FREE)
    && (forall k, i :: k in lists && 0 <= i < |lists[k]| ==> lists[k][i] % PG == 0 && lists[k][i] > 0)
  }

  ghost predicate InZone(own: int -> Owner, base: nat, limit: nat) {
    forall x: int :: own(x) != Lost ==> base <= x < limit
  }

  /** Nothing is lost, and everything is in whole pages. */
  ghost predicate Exact(own: int -> Owner, base: nat, limit: nat, live: map<nat, nat>, v: seq<Hole>) {
    && (forall x: int :: base <= x < limit ==> own(x) != Lost)
    && (forall b :: b in live ==> b % PG == 0 && live[b] % PG == 0)
    && Paged(v)
  }

  /** Free memory comes in whole pages. */
  ghost predicate Paged(v: seq<Hole>) {
    forall x: nat :: Covers(v, x) <==> Covers(v, x / PG * PG)
  }

  lemma {:induction false} HoleBytes(v: seq<Hole>, i: nat)
    requires Sorted(v) && i < |v|
    ensures Covers(v, v[i].base) && !Covers(v, v[i].base - 1)
    ensures Covers(v, v[i].base + v[i].len - 1) && !Covers(v, v[i].base + v[i].len)
  {
    assert v[i].base <= v[i].base < v[i].base + v[i].len;
    assert v[i].base <= v[i].base + v[i].len - 1 < v[i].base + v[i].len;
    forall k | 0 <= k < |v|
      ensures !(v[k].base <= v[i].base - 1 < v[k].base + v[k].len)
              && !(v[k].base <= v[i].base + v[i].len < v[k].base + v[k].len)
    {
      if k < i { assert v[k].base + v[k].len < v[i].base; }
      if k > i { assert v[i].base + v[i].len < v[k].base; }
    }
  }

  lemma {:induction false} Floor(x: nat)
    ensures x % PG != 0 ==> x > 0 && (x - 1) / PG == x / PG
    ensures x / PG * PG <= x && x / PG * PG % PG == 0
  {
  }

  /** Maximal free ranges of whole pages start and end on page boundaries. */
  lemma {:induction false} PagedHole(v: seq<Hole>, i: nat)
    requires Sorted(v) && Paged(v) && i < |v|
    ensures v[i].base % PG == 0 && v[i].len % PG == 0
  {
    hide Covers, Sorted;
    HoleBytes(v, i);
    var b, e := v[i].base, v[i].base + v[i].len;
    Floor(b);
    Floor(e);
    SortedLen(v, i);
    PagedAt(v, b);
    PagedAt(v, e);
    PagedAt(v, e - 1);
    if b > 0 { PagedAt(v, b - 1); }
    assert b % PG == 0 && e % PG == 0;
    Difference(b, v[i].len);
  }

  lemma {:induction false} PagedAt(v: seq<Hole>, x: nat)
    requires Paged(v)
    ensures Covers(v, x) <==> Covers(v, x / PG * PG)
  {
  }

  lemma {:induction false} SortedLen(v: seq<Hole>, i: nat)
    requires Sorted(v) && i < |v|
    ensures v[i].len > 0
  {
  }

  lemma {:induction false} Difference(b: nat, l: nat)
    requires b % PG == 0 && (b + l) % PG == 0
    ensures l % PG == 0
  {
  }

  /** A page-aligned range is taken from, or given to, memory free in whole pages. */
  lemma {:induction false} StillPaged(v: seq<Hole>, w: seq<Hole>, b: nat, n: nat, free: bool)
    requires Paged(v) && b % PG == 0 && n % PG == 0
    requires forall x: int :: Covers(w, x) <==> if b <= x < b + n then free else Covers(v, x)
    ensures Paged(w)
  {
    hide Covers;
    forall x: nat ensures Covers(w, x) <==> Covers(w, x / PG * PG) {
      var y := x / PG * PG;
      RangeByPage(b, n, x);
      assert b <= x < b + n <==> b <= y < b + n;
      assert Covers(v, x) <==> Covers(v, y);
    }
  }

  lemma {:induction false} RangeByPage(b: nat, n: nat, x: nat)
    requires b % PG == 0 && n % PG == 0
    ensures b <= x < b + n <==> b <= x / PG * PG < b + n
  {
    assert (b + n) % PG == 0;
    assert x == x / PG * PG + x % PG;
  }

  // ----- effects on the account

  lemma {:induction false} LiveAdd(own: int -> Owner, own': int -> Owner, live: map<nat, nat>, b: nat, n: nat)
    requires LiveAccount(own, live) && n > 0
    requires forall x: int :: b <= x < b + n ==> own'(x) == Live(b)
    requires forall x: int :: !(b <= x < b + n) ==> own'(x) == own(x) || (!own(x).Live? && !own'(x).Live?)
    requires forall x: int :: b <= x < b + n ==> !own(x).Live?
    ensures b !in live && LiveAccount(own', live[b := n])
  {
    assert b in live ==> own(b) == Live(b);
    var live' := live[b := n];
    forall x: int, c: nat ensures own'(x) == Live(c) <==> c in live' && c <= x < c + live'[c] {
      if b <= x < b + n {
        assert !own(x).Live?;
        assert c in live && c <= x < c + live[c] ==> own(x) == Live(c);
      } else {
        assert own(x) == Live(c) <==> c in live && c <= x < c + live[c];
      }
    }
  }

  lemma {:induction false} LiveRemove(own: int -> Owner, own': int -> Owner, live: map<nat, nat>, b: nat)
    requires LiveAccount(own, live) && b in live
    requires forall x: int :: if own(x) == Live(b) then !own'(x).Live? else own'(x) == own(x)
    ensures LiveAccount(own', live - {b})
  {
    var live' := live - {b};
    forall x: int, c: nat ensures own'(x) == Live(c) <==> c in live' && c <= x < c + live'[c] {
      assert own(x) == Live(c) <==> c in live && c <= x < c + live[c];
    }
  }

  /** A live block does not meet any hole. */
  lemma {:induction false} LiveApart(own: int -> Owner, live: map<nat, nat>, v: seq<Hole>, b: nat)
    requires LiveAccount(own, live) && HolesAccount(own, v) && b in live && Sorted(v)
    ensures Apart(v, b, live[b])
  {
    hide Sorted;
    forall i | 0 <= i < |v| ensures b + live[b] <= v[i].base || v[i].base + v[i].len <= b {
      var x := if b < v[i].base then v[i].base else b;
      SortedLen(v, i);
      assert v[i].base <= x < v[i].base + v[i].len ==> Covers(v, x);
      assert b <= x < b + live[b] ==> own(x) == Live(b);
    }
  }

  lemma {:induction false} ParkedSame(own: int -> Owner, own': int -> Owner, lists: Lists)
    requires ParkedAccount(own, lists) && forall x: int :: own'(x) == own(x) || (!own(x).Parked? && !own'(x).Parked?)
    ensures ParkedAccount(own', lists)
  {
    hide InParked;
    forall x: int, c: nat, n: nat, i: nat ensures own'(x) == Parked(c, n, i) <==> InParked(lists, c, n, i, x) {
      assert own(x) == Parked(c, n, i) <==> InParked(lists, c, n, i, x);
    }
  }

  lemma {:induction false} HolesPositive(own: int -> Owner, v: seq<Hole>, base: nat, limit: nat)
    requires HolesAccount(own, v) && InZone(own, base, limit) && base > 0 && Sorted(v)
    ensures forall i :: 0 <= i < |v| ==> v[i].base > 0
  {
    hide Covers;
    forall i | 0 <= i < |v| ensures v[i].base > 0 { HoleBytes(v, i); }
  }

  ghost function AfterAlloc(own: int -> Owner, start: nat, r: nat, n: nat): int -> Owner {
    (x: int) => if r <= x < r + n then Live(r) else if start <= x < r then Lost else own(x)
  }

  ghost function AfterFree(own: int -> Owner, b: nat, o: Owner): int -> Owner {
    (x: int) => if own(x) == Live(b) then o else own(x)
  }

  ghost function AfterPop(own: int -> Owner, c: nat, n: nat, i: nat, b: nat): int -> Owner {
    (x: int) => if own(x) == Parked(c, n, i) then Live(b) else own(x)
  }

  /** The blocks in use once a request for n bytes is answered with r: no bytes are no block. */
  function LiveAfter(live: map<nat, nat>, r: nat, n: nat): map<nat, nat> {
    if n == 0 then live else live[r := n]
  }

  /** All the accounts together. */
  ghost predicate Books(own: int -> Owner, base: nat, limit: nat, live: map<nat, nat>, lists: Lists, v: seq<Hole>,
                        exact: bool) {
    && HolesAccount(own, v) && LiveAccount(own, live) && ParkedAccount(own, lists) && InZone(own, base, limit)
    && (exact ==> Exact(own, base, limit, live, v))
  }

  /** Free bytes from s on are cut off: those before r are lost, and the n bytes from r on are the block. */
  lemma {:induction false} LiveAllocated(own: int -> Owner, live: map<nat, nat>, s: nat, r: nat, n: nat)
    requires LiveAccount(own, live) && s <= r && forall x: int :: s <= x < r + n ==> own(x) == Free
    ensures (n > 0 ==> r !in live) && LiveAccount(AfterAlloc(own, s, r, n), LiveAfter(live, r, n))
  {
    var own' := AfterAlloc(own, s, r, n);
    if n > 0 {
      LiveAdd(own, own', live, r, n);
    } else {
      forall x: int, c: nat ensures own'(x) == Live(c) <==> c in live && c <= x < c + live[c] {
        assert own(x) == Live(c) <==> c in live && c <= x < c + live[c];
      }
    }
  }

  /** Allocating from hole at. */
  lemma {:induction false} BooksAlloc(own: int -> Owner, base: nat, limit: nat, live: map<nat, nat>, lists: Lists,
                                      v: seq<Hole>, exact: bool, at: nat, memsize: nat, alignment: nat)
    requires Books(own, base, limit, live, lists, v, exact) && Sorted(v) && at < |v| && alignment > 0
    requires Fits(v[at], memsize, alignment)
    ensures var pad := Pad(v[at].base, alignment);
            var r := v[at].base + pad;
            && (memsize > 0 ==> r !in live) && r % alignment == 0
            && Books(AfterAlloc(own, v[at].base, r, memsize), base, limit, LiveAfter(live, r, memsize), lists,
                     Cut(v, at, memsize + pad), exact && memsize % PG == 0 && alignment == PG)
  {
    hide Covers, Sorted, Cut, LiveAccount;
    var pad := Pad(v[at].base, alignment);
    var s, r, n := v[at].base, v[at].base + pad, memsize + pad;
    var own', w := AfterAlloc(own, s, r, memsize), Cut(v, at, n);
    forall x: int ensures Covers(w, x) <==> Covers(v, x) && !(s <= x < s + n) { CutCovers(v, at, n, x); }
    forall x: int | s <= x < s + n ensures own(x) == Free { InHole(v, at, x); }
    LiveAllocated(own, live, s, r, memsize);
    ParkedSame(own, own', lists);
    Aligned(s, alignment);
    if exact && memsize % PG == 0 && alignment == PG {
      PagedHole(v, at);
      StillPaged(v, w, s, n, false);
    }
  }

  /** An allocation loses memory exactly when the hole it uses does not start on the alignment: bytes that were
      free are then neither in the table any more nor part of the block. */
  lemma {:induction false} LosesIffPadded(v: seq<Hole>, at: nat, memsize: nat, alignment: nat)
    requires Sorted(v) && at < |v| && alignment > 0 && Fits(v[at], memsize, alignment)
    ensures var pad := Pad(v[at].base, alignment);
            var r := v[at].base + pad;
            (exists x: int :: Covers(v, x) && !Covers(Cut(v, at, memsize + pad), x) && !(r <= x < r + memsize))
            <==> v[at].base % alignment != 0
  {
    hide Covers, Sorted, Cut;
    var s, n := v[at].base, memsize + Pad(v[at].base, alignment);
    forall x: int ensures Covers(Cut(v, at, n), x) <==> Covers(v, x) && !(s <= x < s + n) { CutCovers(v, at, n, x); }
    if s % alignment != 0 {
      InHole(v, at, s);
      assert Covers(v, s) && !Covers(Cut(v, at, n), s);
    }
  }

  lemma {:induction false} InHole(v: seq<Hole>, i: nat, x: int)
    requires i < |v| && v[i].base <= x < v[i].base + v[i].len
    ensures Covers(v, x)
  {
  }

  lemma {:induction false} Aligned(b: nat, a: nat)
    requires a > 0
    ensures (b + Pad(b, a)) % a == 0
  {
    var q := b / a;
    assert b == q * a + b % a;
    if b % a != 0 {
      assert b + Pad(b, a) == (q + 1) * a;
      DivModUnique(b + Pad(b, a), a, q + 1, 0);
    }
  }

  /** Freeing block b into the hole table. */
  lemma {:induction false} BooksInsert(own: int -> Owner, base: nat, limit: nat, live: map<nat, nat>, lists: Lists,
                                       v: seq<Hole>, exact: bool, b: nat, w: seq<Hole>)
    requires Books(own, base, limit, live, lists, v, exact) && b in live
    requires forall x: int :: Covers(w, x) <==> Covers(v, x) || b <= x < b + live[b]
    ensures Books(AfterFree(own, b, Free), base, limit, live - {b}, lists, w, exact)
  {
    hide Covers;
    var own' := AfterFree(own, b, Free);
    forall x: int ensures own(x) == Live(b) <==> b <= x < b + live[b] { }
    LiveRemove(own, own', live, b);
    ParkedSame(own, own', lists);
    if exact { StillPaged(v, w, b, live[b], true); }
  }

  /** Parking block b on top of a list. */
  lemma {:induction false} BooksPush(own: int -> Owner, base: nat, limit: nat, live: map<nat, nat>, lists: Lists,
                                     v: seq<Hole>, exact: bool, b: nat, c: nat, n: nat)
    requires Books(own, base, limit, live, lists, v, exact) && b in live && live[b] == n * PG && b % PG == 0 && b > 0
    requires (c, n) in lists && |lists[(c, n)]| < MAX_FREE
    ensures var i := |lists[(c, n)]|;
            Books(AfterFree(own, b, Parked(c, n, i)), base, limit, live - {b}, lists[(c, n) := lists[(c, n)] + [b]],
              v, exact)
  {
    hide Covers;
    var i := |lists[(c, n)]|;
    var own' := AfterFree(own, b, Parked(c, n, i));
    var lists' := lists[(c, n) := lists[(c, n)] + [b]];
    LiveRemove(own, own', live, b);
    forall x: int, c': nat, n': nat, j: nat ensures own'(x) == Parked(c', n', j) <==> InParked(lists', c', n', j, x) {
      assert own(x) == Parked(c', n', j) <==> InParked(lists, c', n', j, x);
      assert own(x) == Live(b) <==> b <= x < b + live[b];
      assert !InParked(lists, c, n, i, x);
    }
  }

  /** Taking the top of a list. */
  lemma {:induction false} BooksPop(own: int -> Owner, base: nat, limit: nat, live: map<nat, nat>, lists: Lists,
                                    v: seq<Hole>, exact: bool, c: nat, n: nat)
    requires Books(own, base, limit, live, lists, v, exact) && (c, n) in lists && lists[(c, n)] != []
    ensures var i := |lists[(c, n)]| - 1;
            var b := lists[(c, n)][i];
            && b !in live && b > 0 && b % PG == 0
            && Books(AfterPop(own, c, n, i, b), base, limit, live[b := n * PG], lists[(c, n) := lists[(c, n)][..i]],
               v, exact)
  {
    hide Covers;
    var i := |lists[(c, n)]| - 1;
    var b := lists[(c, n)][i];
    var own' := AfterPop(own, c, n, i, b);
    var lists' := lists[(c, n) := lists[(c, n)][..i]];
    forall x: int ensures own(x) == Parked(c, n, i) <==> b <= x < b + n * PG {
      assert own(x) == Parked(c, n, i) <==> InParked(lists, c, n, i, x);
    }
    assert 1 <= (c, n).1;
    LiveAdd(own, own', live, b, n * PG);
    forall x: int, c': nat, n': nat, j: nat ensures own'(x) == Parked(c', n', j) <==> InParked(lists', c', n', j, x) {
      assert own(x) == Parked(c', n', j) <==> InParked(lists, c', n', j, x);
    }
  }

  /** Two blocks in use never overlap, and neither meets a hole or a parked block. */
  lemma {:induction false} BlocksDisjoint(own: int -> Owner, base: nat, limit: nat, live: map<nat, nat>,
                                          lists: Lists, v: seq<Hole>, exact: bool, b: nat, x: int)
    requires Books(own, base, limit, live, lists, v, exact) && b in live && b <= x < b + live[b]
    ensures base <= x < limit && !Covers(v, x)
    ensures forall d :: d in live && d <= x < d + live[d] ==> d == b
    ensures forall c: nat, n: nat, i: nat :: !InParked(lists, c, n, i, x)
  {
    hide Covers, InParked;
    assert own(x) == Live(b);
    forall c: nat, n: nat, i: nat ensures !InParked(lists, c, n, i, x) {
      assert own(x) == Parked(c, n, i) <==> InParked(lists, c, n, i, x);
    }
  }

  /** Parked blocks do not overlap each other or a hole. */
  lemma {:induction false} ParkedDisjoint(own: int -> Owner, base: nat, limit: nat, live: map<nat, nat>,
                                          lists: Lists, v: seq<Hole>, exact: bool, c: nat, n: nat, i: nat, x: int)
    requires Books(own, base, limit, live, lists, v, exact) && InParked(lists, c, n, i, x)
    ensures base <= x < limit && !Covers(v, x)
    ensures forall c': nat, n': nat, i': nat :: InParked(lists, c', n', i', x) ==> c' == c && n' == n && i' == i
  {
    hide Covers, InParked;
    assert own(x) == Parked(c, n, i) <==> InParked(lists, c, n, i, x);
    forall c': nat, n': nat, i': nat | InParked(lists, c', n', i', x) ensures c' == c && n' == n && i' == i {
      assert own(x) == Parked(c', n', i') <==> InParked(lists, c', n', i', x);
    }
  }

  /** With whole pages only, every byte of the zone is in a hole, in a parked block or in use. */
  lemma {:induction false} NothingLost(own: int -> Owner, base: nat, limit: nat, live: map<nat, nat>, lists: Lists,
                                       v: seq<Hole>, x: int)
    requires Books(own, base, limit, live, lists, v, true) && base <= x < limit
    ensures Covers(v, x) || (exists b :: b in live && b <= x < b + live[b])
         || (exists c: nat, n: nat, i: nat :: InParked(lists, c, n, i, x))
  {
    hide Covers, InParked;
    match own(x)
    case Lost =>
    case Free =>
    case Live(b) => assert b in live && b <= x < b + live[b];
    case Parked(c, n, i) => assert own(x) == Parked(c, n, i) <==> InParked(lists, c, n, i, x);
  }

  ghost predicate NoneFits(v: seq<Hole>, memsize: nat, alignment: nat)
    requires alignment > 0
  {
    forall i :: 0 <= i < |v| ==> !Fits(v[i], memsize, alignment)
  }

  lemma {:induction false} SomeFits(v: seq<Hole>, at: nat, memsize: nat, alignment: nat)
    requires alignment > 0 && at < |v| && Fits(v[at], memsize, alignment)
    ensures !NoneFits(v, memsize, alignment)
  {
  }

  /** A freed block is parked when it is a few whole pages and the list for its size has room. */
  predicate Parks(lists: Lists, cpu: nat, b: nat, len: nat) {
    && b % PG == 0 && len % PG == 0 && 1 <= len / PG <= MAX_PAGES
    && (cpu, len / PG) in lists && |lists[(cpu, len / PG)]| < MAX_FREE
  }

  class Allocator {
    const zone: Zone
    var lists: Lists
    ghost var live: map<nat, nat>
    ghost var own: int -> Owner
    // every request so far was for whole pages, and so was the zone
    ghost var exact: bool

    ghost predicate Valid()
      reads this, zone, zone.next, zone.hbase, zone.hlen
    {
      zone.Valid() && zone.base > 0 && Books(own, zone.base, zone.limit, live, lists, zone.View(), exact)
    }

    constructor (zone: Zone, lists: Lists, ghost live: map<nat, nat>, ghost own: int -> Owner, ghost exact: bool)
      requires zone.Valid() && zone.base > 0 && Books(own, zone.base, zone.limit, live, lists, zone.View(), exact)
      ensures Valid() && this.zone == zone && this.lists == lists && this.live == live && this.own == own
              && this.exact == exact
    {
      hide Books, Sorted, Covers, Chain, Slots, ViewOf;
      this.zone := zone;
      this.lists := lists;
      this.live := live;
      this.own := own;
      this.exact := exact;
    }

    /** alloc_mem_zone with the account: a block of the given alignment, or 0. */
    method AllocMem(memsize: nat, alignment: nat) returns (r: nat, ghost at: nat)
      requires Valid() && alignment > 0
      modifies this`live, this`own, this`exact, zone`head, zone`freeSlots, zone`holes, zone`slots, zone.next,
               zone.hbase, zone.hlen
      ensures Valid()
      ensures r == 0 <==> NoneFits(old(zone.View()), memsize, alignment)
      ensures r == 0 ==> live == old(live) && own == old(own) && exact == old(exact) && zone.View() == old(zone.View())
      ensures r != 0 ==> var v := old(zone.View());
                && at < |v| && Fits(v[at], memsize, alignment) && NoneFits(v[..at], memsize, alignment)
                && r == v[at].base + Pad(v[at].base, alignment) && own == AfterAlloc(old(own), v[at].base, r, memsize)
                && zone.View() == Cut(v, at, memsize + Pad(v[at].base, alignment))
      ensures r != 0 ==> r % alignment == 0 && (memsize > 0 ==> r !in old(live))
      ensures r != 0 ==> live == LiveAfter(old(live), r, memsize)
      ensures r != 0 ==> exact == (old(exact) && memsize % PG == 0 && alignment == PG)
    {
      hide Books, Sorted, Fits, Pad, Cut, Chain, Slots, ViewOf, Covers, HolesAccount, InZone;
      ghost var v := zone.View();
      BooksHoles(own, zone.base, zone.limit, live, lists, v, exact);
      HolesPositive(own, v, zone.base, zone.limit);
      r, at := zone.Alloc(memsize, alignment);
      if r != 0 {
        SomeFits(v, at, memsize, alignment);
        BooksAlloc(own, zone.base, zone.limit, live, lists, v, exact, at, memsize, alignment);
        own := AfterAlloc(own, v[at].base, r, memsize);
        live := LiveAfter(live, r, memsize);
        exact := exact && memsize % PG == 0 && alignment == PG;
      }
    }

    /** freelist_alloc: the block of this size that the CPU has parked last, or 0. */
    method PopPages(cpu: nat, pages: nat) returns (r: nat)
      requires Valid() && (cpu, pages) in lists
      modifies this`lists, this`live, this`own
      ensures Valid()
      ensures r == 0 <==> old(lists)[(cpu, pages)] == []
      ensures r == 0 ==> live == old(live) && own == old(own) && lists == old(lists)
      ensures r != 0 ==> var l := old(lists)[(cpu, pages)];
                && r == l[|l| - 1] && r % PG == 0 && r !in old(live) && live == old(live)[r := pages * PG]
                && lists == old(lists)[(cpu, pages) := l[..|l| - 1]]
                   && own == AfterPop(old(own), cpu, pages, |l| - 1, r)
    {
      hide Books, Sorted, Chain, Slots, ViewOf;
      var l := lists[(cpu, pages)];
      if |l| == 0 { return 0; }
      BooksPop(own, zone.base, zone.limit, live, lists, zone.View(), exact, cpu, pages);
      r := l[|l| - 1];
      own := AfterPop(own, cpu, pages, |l| - 1, r);
      live := live[r := pages * PG];
      lists := lists[(cpu, pages) := l[..|l| - 1]];
    }

    /** free_mem_zone of a live block, by one CPU: parked if small and in whole pages and the list has room,
        otherwise put back into the hole table. Fails when the hole table is full. */
    method FreeMem(cpu: nat, b: nat, len: nat) returns (ok: bool)
      requires Valid() && b in live && live[b] == len && forall n :: 1 <= n <= MAX_PAGES ==> (cpu, n) in lists
      modifies this`lists, this`live, this`own
      modifies zone`head, zone`freeSlots, zone`holes, zone`slots, zone.next, zone.hbase, zone.hlen
      ensures Valid()
      ensures ok <==> Parks(old(lists), cpu, b, len) || old(|zone.View()|) < NR
      ensures live == if ok then old(live) - {b} else old(live)
      ensures Parks(old(lists), cpu, b, len) ==> var k, l := (cpu, len / PG), old(lists)[(cpu, len / PG)];
                && lists == old(lists)[k := l + [b]] && zone.View() == old(zone.View())
                && own == AfterFree(old(own), b, Parked(cpu, len / PG, |l|))
      ensures !Parks(old(lists), cpu, b, len) ==> lists == old(lists)
      ensures !ok ==> own == old(own) && zone.View() == old(zone.View())
      ensures ok && !Parks(old(lists), cpu, b, len) ==>
                && own == AfterFree(old(own), b, Free)
                && forall x: int :: Covers(zone.View(), x) <==> Covers(old(zone.View()), x) || b <= x < b + len
    {
      hide Books, Sorted, Covers, Chain, Slots, ViewOf, Apart;
      ghost var v := zone.View();
      LivePositive(own, zone.base, zone.limit, live, lists, v, exact, b);
      if Parks(lists, cpu, b, len) {
        var n := len / PG;
        BooksPush(own, zone.base, zone.limit, live, lists, v, exact, b, cpu, n);
        own := AfterFree(own, b, Parked(cpu, n, |lists[(cpu, n)]|));
        live := live - {b};
        lists := lists[(cpu, n) := lists[(cpu, n)] + [b]];
        return true;
      }
      BooksApart(own, zone.base, zone.limit, live, lists, v, exact, b);
      ok := zone.Insert(b, len);
      if ok {
        BooksInsert(own, zone.base, zone.limit, live, lists, v, exact, b, zone.View());
        own := AfterFree(own, b, Free);
        live := live - {b};
      }
    }
  }

  function NoneParked(ncpus: nat): (l: Lists)
    ensures forall c: nat, n: nat :: c < ncpus && 1 <= n <= MAX_PAGES ==> (c, n) in l
    ensures forall k :: k in l ==> 1 <= k.1 <= MAX_PAGES && l[k] == []
  {
    map c: nat, n: nat | c < ncpus && 1 <= n <= MAX_PAGES :: (c, n) := []
  }

  /** Before mem_init frees it, all the memory counts as one block in use. */
  ghost function OneBlock(base: nat, size: nat): int -> Owner {
    (x: int) => if base <= x < base + size then Live(base) else Lost
  }

  /** mem_init: an empty hole table, empty lists, and then all the memory freed by one CPU. */
  method MemInit(base: nat, size: nat, ncpus: nat, cpu: nat) returns (a: Allocator)
    requires base > 0 && size > 0 && cpu < ncpus
    ensures a.Valid() && a.live == map[] && a.exact == (base % PG == 0 && size % PG == 0)
    ensures a.zone.base == base && a.zone.limit == base + size
    ensures fresh(a) && fresh(a.zone) && fresh(a.zone.next) && fresh(a.zone.hbase) && fresh(a.zone.hlen)
    ensures forall c: nat, n: nat :: c < ncpus && 1 <= n <= MAX_PAGES ==> (c, n) in a.lists
    ensures !Parks(NoneParked(ncpus), cpu, base, size) ==>
              a.lists == NoneParked(ncpus) && a.zone.View() == [Hole(base, size)]
    ensures Parks(NoneParked(ncpus), cpu, base, size) ==> a.zone.View() == []
  {
    hide Books, Sorted, Covers, Chain, Slots, ViewOf, OneBlock, NoneParked, Parks;
    var zone := new Zone(base, base + size);
    var none := NoneParked(ncpus);
    ghost var own := OneBlock(base, size);
    ghost var exact := base % PG == 0 && size % PG == 0;
    BooksStart(own, base, size, map[base := size], none, exact);
    a := new Allocator(zone, none, map[base := size], own, exact);
    var ok := a.FreeMem(cpu, base, size);
    assert a.live == map[];
    NothingCovered();
    if !Parks(none, cpu, base, size) { OnlyHole(a.zone.View(), base, size); }
  }

  lemma {:induction false} NothingCovered()
    ensures forall x: int :: !Covers([], x)
  {
  }

  /** The only table for one free range. */
  lemma {:induction false} OnlyHole(v: seq<Hole>, base: nat, size: nat)
    requires Sorted(v) && size > 0 && forall x: int :: Covers(v, x) <==> base <= x < base + size
    ensures v == [Hole(base, size)]
  {
    assert Covers(v, base);
    HoleBytes(v, 0);
    if |v| > 1 { Second(v); }
  }

  lemma {:induction false} Second(v: seq<Hole>)
    requires Sorted(v) && |v| > 1
    ensures Covers(v, v[1].base) && v[0].base + v[0].len < v[1].base
  {
    HoleBytes(v, 1);
  }

  /** Eight bytes and then a page from new memory: what lies between the two blocks is lost. */
  method TakeTwo() returns (a: Allocator, p: nat, q: nat)
    ensures a.Valid() && a.live == map[p := 8, q := PG] && p != q && a.own(PG + 8) == Lost
    ensures a.zone.base == PG && a.zone.limit == 17 * PG && |a.zone.View()| == 1 && a.lists == NoneParked(1)
    ensures p % PG == 0 && q % PG == 0
    ensures fresh(a) && fresh(a.zone) && fresh(a.zone.next) && fresh(a.zone.hbase) && fresh(a.zone.hlen)
  {
    hide Books, Sorted, Covers, Chain, Slots, ViewOf, NoneParked, Cut, NoneFits;
    a := MemInit(PG, 16 * PG, 1, 0);
    ghost var at;
    OneFits(PG, 16 * PG, 8, 8);
    p, at := a.AllocMem(8, 8);
    OneCut(PG, 16 * PG, 8);
    OneFits(PG + 8, 16 * PG - 8, PG, PG);
    q, at := a.AllocMem(PG, PG);
    OneCut(PG + 8, 16 * PG - 8, 2 * PG - 8);
  }

  /** A run that loses memory: eight bytes, then a page, then both given back. Nothing is in use, and byte x of
      the zone is in no hole and no parked block. */
  method LoseBytes() returns (a: Allocator, x: nat)
    ensures a.Valid() && a.live == map[] && a.zone.base <= x < a.zone.limit
    ensures !Covers(a.zone.View(), x) && forall c: nat, n: nat, i: nat :: !InParked(a.lists, c, n, i, x)
  {
    hide Books, Sorted, Covers, Chain, Slots, ViewOf, InParked, NoneParked, AfterFree, Parks;
    var p, q;
    a, p, q := TakeTwo();
    x := PG + 8;
    ParksFirst(1, 0, p, q);
    assert forall n :: 1 <= n <= MAX_PAGES ==> (0, n) in a.lists;
    LostStays(a.own, p, Free, x);
    var ok := a.FreeMem(0, p, 8);
    assert a.live == map[q := PG];
    LostStays(a.own, q, Parked(0, 1, 0), x);
    ok := a.FreeMem(0, q, PG);
    assert a.live == map[];
    LostByte(a.own, a.zone.base, a.zone.limit, a.live, a.lists, a.zone.View(), a.exact, x);
  }

  lemma {:induction false} ParksFirst(ncpus: nat, cpu: nat, p: nat, q: nat)
    requires cpu < ncpus && q % PG == 0
    ensures var none := NoneParked(ncpus); !Parks(none, cpu, p, 8) && Parks(none, cpu, q, PG) && none[(cpu, 1)] == []
  {
  }

  lemma {:induction false} LostStays(own: int -> Owner, b: nat, o: Owner, x: int)
    requires own(x) == Lost
    ensures AfterFree(own, b, o)(x) == Lost
  {
  }

  lemma {:induction false} OneFits(base: nat, size: nat, memsize: nat, alignment: nat)
    requires alignment > 0 && Fits(Hole(base, size), memsize, alignment)
    ensures !NoneFits([Hole(base, size)], memsize, alignment)
  {
    assert Fits([Hole(base, size)][0], memsize, alignment);
  }

  lemma {:induction false} OneCut(base: nat, size: nat, n: nat)
    requires n < size
    ensures Cut([Hole(base, size)], 0, n) == [Hole(base + n, size - n)]
  {
  }

  lemma {:induction false} LostByte(own: int -> Owner, base: nat, limit: nat, live: map<nat, nat>, lists: Lists,
                                    v: seq<Hole>, exact: bool, x: int)
    requires Books(own, base, limit, live, lists, v, exact) && own(x) == Lost
    ensures !Covers(v, x) && forall c: nat, n: nat, i: nat :: !InParked(lists, c, n, i, x)
  {
    hide Covers, InParked;
    forall c: nat, n: nat, i: nat ensures !InParked(lists, c, n, i, x) {
      assert own(x) == Parked(c, n, i) <==> InParked(lists, c, n, i, x);
    }
  }

  lemma {:induction false} BooksStart(own: int -> Owner, base: nat, size: nat, live: map<nat, nat>, lists: Lists,
                                      exact: bool)
    requires size > 0 && live == map[base := size]
               && (forall k :: k in lists ==> 1 <= k.1 <= MAX_PAGES && lists[k] == [])
    requires own == OneBlock(base, size)
    requires exact == (base % PG == 0 && size % PG == 0)
    ensures Books(own, base, base + size, live, lists, [], exact)
  {
  }

  lemma {:induction false} BooksHoles(own: int -> Owner, base: nat, limit: nat, live: map<nat, nat>, lists: Lists,
                                      v: seq<Hole>, exact: bool)
    requires Books(own, base, limit, live, lists, v, exact)
    ensures HolesAccount(own, v) && InZone(own, base, limit)
  {
  }

  lemma {:induction false} LivePositive(own: int -> Owner, base: nat, limit: nat, live: map<nat, nat>, lists: Lists,
                                        v: seq<Hole>, exact: bool, b: nat)
    requires Books(own, base, limit, live, lists, v, exact) && b in live && base > 0
    ensures b > 0 && live[b] > 0
  {
    hide Covers, InParked;
    assert own(b) == Live(b);
  }

  lemma {:induction false} BooksApart(own: int -> Owner, base: nat, limit: nat, live: map<nat, nat>, lists: Lists,
                                      v: seq<Hole>, exact: bool, b: nat)
    requires Books(own, base, limit, live, lists, v, exact) && b in live && Sorted(v)
    ensures Apart(v, b, live[b])
  {
    LiveApart(own, live, v, b);
  }
}
