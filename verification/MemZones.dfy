/** Allocation over all memory zones: the zones that the flags name are tried in order, and a block goes back to
    the zone that it came from. */
module MemZones {
  import opened HoleTable
  import opened ZoneAlloc
  import opened MemAlloc

  /** What an allocator reads and changes. */
  ghost function Objects(a: Allocator): set<object> {
    {a, a.zone, a.zone.next, a.zone.hbase, a.zone.hlen}
  }

  ghost function AllObjects(zones: seq<Allocator>): (all: set<object>)
    ensures forall i :: 0 <= i < |zones| ==> Objects(zones[i]) <= all
  {
    (set i | 0 <= i < |zones| :: zones[i]) + (set i | 0 <= i < |zones| :: zones[i].zone)
    + (set i | 0 <= i < |zones| :: zones[i].zone.next) + (set i | 0 <= i < |zones| :: zones[i].zone.hbase)
    + (set i | 0 <= i < |zones| :: zones[i].zone.hlen)
  }

  /** The zones share no object and no address. */
  ghost predicate ZonesApart(zones: seq<Allocator>) {
    && (forall i, j :: 0 <= i < j < |zones| ==> Objects(zones[i]) !! Objects(zones[j]))
    && (forall i, j :: 0 <= i < j < |zones| ==>
          zones[i].zone.limit <= zones[j].zone.base || zones[j].zone.limit <= zones[i].zone.base)
  }

  /** The state of one zone: parked blocks, blocks in use, the owner of every byte, and the holes. */
  datatype ZoneState = ZoneState(lists: Lists, live: map<nat, nat>, own: int -> Owner, holes: seq<Hole>)

  ghost function StateOf(a: Allocator): ZoneState
    reads a, a.zone, a.zone.next, a.zone.hbase, a.zone.hlen
    requires a.Valid()
  {
    ZoneState(a.lists, a.live, a.own, a.zone.View())
  }

  /** A block is taken from the first hole that fits. */
  ghost predicate Takes(s: ZoneState, s': ZoneState, memsize: nat, alignment: nat, r: nat)
    requires alignment > 0
  {
    exists at: nat ::
      && at < |s.holes| && Fits(s.holes[at], memsize, alignment) && NoneFits(s.holes[..at], memsize, alignment)
      && r == s.holes[at].base + Pad(s.holes[at].base, alignment)
      && s' == ZoneState(s.lists, LiveAfter(s.live, r, memsize), AfterAlloc(s.own, s.holes[at].base, r, memsize),
                         Cut(s.holes, at, memsize + Pad(s.holes[at].base, alignment)))
  }

  /** The block parked last is taken. */
  ghost predicate Pops(s: ZoneState, s': ZoneState, cpu: nat, pages: nat, r: nat) {
    && (cpu, pages) in s.lists && s.lists[(cpu, pages)] != []
    && var l := s.lists[(cpu, pages)];
       var n := |l| - 1;
       && r == l[n]
       && s' == ZoneState(s.lists[(cpu, pages) := l[..n]], s.live[r := pages * PG],
          AfterPop(s.own, cpu, pages, n, r), s.holes)
  }

  ghost predicate NoneParkedFor(s: ZoneState, cpu: nat, pages: nat) {
    0 < pages <= MAX_PAGES && (cpu, pages) in s.lists ==> s.lists[(cpu, pages)] == []
  }

  /** A block is parked, or its bytes are holes again. */
  ghost predicate Gives(s: ZoneState, s': ZoneState, cpu: nat, b: nat, len: nat) {
    if Parks(s.lists, cpu, b, len) then
      var l := s.lists[(cpu, len / PG)];
      s' == ZoneState(s.lists[(cpu, len / PG) := l + [b]], s.live - {b},
        AfterFree(s.own, b, Parked(cpu, len / PG, |l|)), s.holes)
    else
      && s'.lists == s.lists && s'.live == s.live - {b} && s'.own == AfterFree(s.own, b, Free)
      && forall x: int :: Covers(s'.holes, x) <==> Covers(s.holes, x) || b <= x < b + len
  }

  /** Zone z takes the block back, unless the block is not parked and the table is full; the other zones are as they
      were. */
  ghost predicate Returned(s: seq<ZoneState>, s': seq<ZoneState>, z: nat, ok: bool, cpu: nat, b: nat, len: nat)
    requires z < |s| == |s'|
  {
    && b in s[z].live && s' == s[z := s'[z]]
    && (ok <==> Parks(s[z].lists, cpu, b, len) || |s[z].holes| < NR)
    && (if ok then Gives(s[z], s'[z], cpu, b, len) else s'[z] == s[z])
  }

  /** The lists of a CPU. */
  ghost predicate HasLists(s: ZoneState, cpu: nat) {
    forall n :: 1 <= n <= MAX_PAGES ==> (cpu, n) in s.lists
  }

  ghost predicate Usable(s: seq<ZoneState>, cpu: nat) {
    forall i :: 0 <= i < |s| ==> HasLists(s[i], cpu)
  }

  /** A zone that has the address has a block in use there. */
  ghost predicate InUseAt(zones: seq<Allocator>, s: seq<ZoneState>, b: nat, len: nat)
    requires |s| == |zones|
  {
    forall i :: 0 <= i < |zones| && Contains(zones[i], b) ==> b in s[i].live && s[i].live[b] == len
  }

  lemma {:induction false} ZoneReady(zones: seq<Allocator>, s: seq<ZoneState>, cpu: nat, b: nat, len: nat, i: nat)
    requires |s| == |zones| && Usable(s, cpu) && InUseAt(zones, s, b, len) && i < |zones| && Contains(zones[i], b)
    ensures HasLists(s[i], cpu) && b in s[i].live && s[i].live[b] == len
  {
  }

  ghost predicate Contains(a: Allocator, b: nat) {
    a.zone.base <= b < a.zone.limit
  }

  /** What free_mem does; it stops the machine when the table is full and when no zone has the address. */
  datatype Freed = Done | TableFull | OutsideZones

  class Memory {
    const zones: seq<Allocator>

    constructor (zones: seq<Allocator>)
      requires ZonesApart(zones) && forall i :: 0 <= i < |zones| ==> zones[i].Valid()
      ensures Valid() && this.zones == zones
    {
      this.zones := zones;
    }

    ghost predicate Valid()
      reads AllObjects(zones)
    {
      ZonesApart(zones) && forall i :: 0 <= i < |zones| ==> zones[i].Valid()
    }

    ghost function States(): (s: seq<ZoneState>)
      reads AllObjects(zones)
      requires Valid()
      ensures |s| == |zones|
    {
      seq(|zones|, i requires 0 <= i < |zones| reads AllObjects(zones) requires Valid() => StateOf(zones[i]))
    }

    /** One zone of alloc_mem. */
    method TryZone(i: nat, memsize: nat, alignment: nat) returns (r: nat)
      requires Valid() && alignment > 0 && i < |zones|
      modifies Objects(zones[i])
      ensures Valid() && States() == old(States())[i := States()[i]]
      ensures r == 0 <==> NoneFits(old(States())[i].holes, memsize, alignment)
      ensures r == 0 ==> States() == old(States())
      ensures r != 0 ==> r % alignment == 0 && (memsize > 0 ==> r !in old(States())[i].live)
                         && Takes(old(States())[i], States()[i], memsize, alignment, r)
    {
      hide NoneFits, Fits, Pad, Cut, Books, Allocator.Valid, Zone.Valid, Zone.View;
      ghost var s0 := States();
      ghost var at;
      r, at := zones[i].AllocMem(memsize, alignment);
      forall j | 0 <= j < |zones| && j != i ensures zones[j].Valid() && StateOf(zones[j]) == s0[j] { }
    }

    /** alloc_mem: the first zone among those named that has a hole for the block. */
    method AllocMem(memsize: nat, alignment: nat, flags: seq<bool>) returns (r: nat, ghost z: nat)
      requires Valid() && alignment > 0 && |flags| == |zones|
      modifies AllObjects(zones)
      ensures Valid()
      ensures r == 0 <==> forall i :: 0 <= i < |zones| && flags[i] ==>
                NoneFits(old(States())[i].holes, memsize, alignment)
      ensures r == 0 ==> States() == old(States())
      ensures r != 0 ==> && z < |zones| && flags[z] && r % alignment == 0
                         && (memsize > 0 ==> r !in old(States())[z].live)
                         && (forall i :: 0 <= i < z && flags[i] ==>
                              NoneFits(old(States())[i].holes, memsize, alignment))
                         && Takes(old(States())[z], States()[z], memsize, alignment, r)
                         && States() == old(States())[z := States()[z]]
    {
      hide NoneFits, Takes, Valid, States;
      ghost var s0 := States();
      r, z := 0, 0;
      var i := 0;
      while i < |zones|
        invariant 0 <= i <= |zones| && Valid() && States() == s0
        invariant forall j :: 0 <= j < i && flags[j] ==> NoneFits(s0[j].holes, memsize, alignment)
      {
        if flags[i] {
          r := TryZone(i, memsize, alignment);
          if r != 0 {
            z := i;
            return;
          }
        }
        i := i + 1;
      }
    }

    /** One zone of alloc_pages. */
    method TryList(i: nat, cpu: nat, pages: nat) returns (r: nat)
      requires Valid() && i < |zones| && (cpu, pages) in States()[i].lists
      modifies Objects(zones[i])
      ensures Valid() && States() == old(States())[i := States()[i]]
      ensures r == 0 <==> old(States())[i].lists[(cpu, pages)] == []
      ensures r == 0 ==> States() == old(States())
      ensures r != 0 ==> r % PG == 0 && r !in old(States())[i].live
                         && Pops(old(States())[i], States()[i], cpu, pages, r)
    {
      hide Books, Allocator.Valid, Zone.Valid, Zone.View;
      ghost var s0 := States();
      r := zones[i].PopPages(cpu, pages);
      forall j | 0 <= j < |zones| && j != i ensures zones[j].Valid() && StateOf(zones[j]) == s0[j] { }
    }

    /** The free lists that alloc_pages looks at first: the first zone named where this CPU has parked such a block. */
    method PopParked(cpu: nat, pages: nat, flags: seq<bool>) returns (r: nat, ghost z: nat)
      requires Valid() && 0 < pages <= MAX_PAGES && |flags| == |zones| && Usable(States(), cpu)
      modifies AllObjects(zones)
      ensures Valid()
      ensures r == 0 <==> forall i :: 0 <= i < |zones| && flags[i] ==> NoneParkedFor(old(States())[i], cpu, pages)
      ensures r == 0 ==> States() == old(States())
      ensures r != 0 ==> && z < |zones| && flags[z] && r % PG == 0 && r !in old(States())[z].live
                         && (forall i :: 0 <= i < z && flags[i] ==> NoneParkedFor(old(States())[i], cpu, pages))
                         && Pops(old(States())[z], States()[z], cpu, pages, r)
                         && States() == old(States())[z := States()[z]]
    {
      hide Pops, Valid, States;
      ghost var s0 := States();
      r, z := 0, 0;
      var i := 0;
      while i < |zones|
        invariant 0 <= i <= |zones| && Valid() && States() == s0 && r == 0
        invariant forall j :: 0 <= j < i && flags[j] ==> NoneParkedFor(s0[j], cpu, pages)
      {
        if flags[i] {
          r := TryList(i, cpu, pages);
          if r != 0 {
            z := i;
            return;
          }
        }
        i := i + 1;
      }
    }

    /** alloc_pages: a block that this CPU has parked in a zone named, or else a hole of such a zone. */
    method AllocPages(cpu: nat, pages: nat, flags: seq<bool>) returns (r: nat, ghost z: nat)
      requires Valid() && |flags| == |zones| && Usable(States(), cpu)
      modifies AllObjects(zones)
      ensures Valid()
      ensures r == 0 <==> forall i :: 0 <= i < |zones| && flags[i] ==>
                            NoneParkedFor(old(States())[i], cpu, pages)
                              && NoneFits(old(States())[i].holes, pages * PG, PG)
      ensures r == 0 ==> States() == old(States())
      ensures r != 0 ==> && z < |zones| && flags[z] && r % PG == 0 && (pages > 0 ==> r !in old(States())[z].live)
                         && States() == old(States())[z := States()[z]]
                         && ((&& (forall i :: 0 <= i < z && flags[i] ==> NoneParkedFor(old(States())[i], cpu, pages))
                              && Pops(old(States())[z], States()[z], cpu, pages, r))
                             || (&& (forall i :: 0 <= i < |zones| && flags[i] ==>
                                  NoneParkedFor(old(States())[i], cpu, pages))
                                 && (forall i :: 0 <= i < z && flags[i] ==>
                                  NoneFits(old(States())[i].holes, pages * PG, PG))
                                 && Takes(old(States())[z], States()[z], pages * PG, PG, r)))
    {
      hide NoneFits, Takes, Pops, Valid, States;
      if 0 < pages <= MAX_PAGES {
        r, z := PopParked(cpu, pages, flags);
        if r != 0 { return; }
      }
      r, z := AllocMem(pages * PG, PG, flags);
    }

    /** free_mem: the block goes to the zone that has its address. */
    method FreeMem(cpu: nat, b: nat, len: nat) returns (r: Freed, ghost z: nat)
      requires Valid() && Usable(States(), cpu) && InUseAt(zones, States(), b, len)
      modifies AllObjects(zones)
      ensures Valid()
      ensures r.OutsideZones? <==> forall i :: 0 <= i < |zones| ==> !Contains(zones[i], b)
      ensures r.OutsideZones? ==> States() == old(States())
      ensures !r.OutsideZones? ==> z < |zones| && Returned(old(States()), States(), z, r.Done?, cpu, b, len)
    {
      hide Valid, States, Returned, HasLists, Usable, InUseAt, Objects, AllObjects;
      var i := 0;
      while i < |zones| && !(zones[i].zone.base <= b < zones[i].zone.limit)
        invariant 0 <= i <= |zones| && forall j :: 0 <= j < i ==> !Contains(zones[j], b)
      {
        i := i + 1;
      }
      z := i;
      r := OutsideZones;
      if i < |zones| {
        ZoneReady(zones, States(), cpu, b, len, i);
        assert Contains(zones[i], b);
        hide Contains;
        var ok := FreeAt(i, cpu, b, len);
        r := if ok then Done else TableFull;
      }
    }

    /** The same with everything in the frame. */
    method FreeAt(i: nat, cpu: nat, b: nat, len: nat) returns (ok: bool)
      requires Valid() && i < |zones| && HasLists(States()[i], cpu) && b in States()[i].live
               && States()[i].live[b] == len
      modifies AllObjects(zones)
      ensures Valid() && Returned(old(States()), States(), i, ok, cpu, b, len)
    {
      hide Valid, States, Returned, HasLists;
      ok := FreeIn(i, cpu, b, len);
    }

    /** free_mem_zone on one zone. */
    method FreeIn(i: nat, cpu: nat, b: nat, len: nat) returns (ok: bool)
      requires Valid() && i < |zones| && HasLists(States()[i], cpu) && b in States()[i].live
               && States()[i].live[b] == len
      modifies Objects(zones[i])
      ensures Valid() && Returned(old(States()), States(), i, ok, cpu, b, len)
    {
      hide Books, Allocator.Valid, Zone.Valid, Zone.View, Covers, Parks;
      ghost var s0 := States();
      ok := zones[i].FreeMem(cpu, b, len);
      forall j | 0 <= j < |zones| && j != i ensures zones[j].Valid() && StateOf(zones[j]) == s0[j] { }
    }
  }
}
