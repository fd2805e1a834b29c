/** First-fit allocation from a zone's hole table, and freeing with coalescing. */
module ZoneAlloc {
  import opened Common
  import opened HoleTable

  // ----- lists linked through an array of indices

  ghost predicate Chain(nx: seq<nat>, h: nat, s: seq<nat>) {
    && |nx| == NR
    && h == (if s == [] then NIL else s[0])
    && forall i :: 0 <= i < |s| ==> s[i] < NR && nx[s[i]] == After(s, i, NIL)
  }

  ghost predicate DistinctSlots(s: seq<nat>) {
    && (forall i :: 0 <= i < |s| ==> s[i] < NR)
    && (forall i, j :: 0 <= i < |s| && 0 <= j < |s| && i != j ==> s[i] != s[j])
  }

  ghost predicate Separate(s: seq<nat>, t: seq<nat>) {
    forall i, j :: 0 <= i < |s| && 0 <= j < |t| ==> s[i] != t[j]
  }

  /** Every slot of the table is on exactly one of the two lists, once. */
  ghost predicate Slots(holes: seq<nat>, slots: seq<nat>) {
    |holes| + |slots| == NR && DistinctSlots(holes) && DistinctSlots(slots) && Separate(holes, slots)
  }

  ghost function Removed(s: seq<nat>, i: nat): (r: seq<nat>)
    requires i < |s|
    ensures |r| == |s| - 1 && forall k :: 0 <= k < |r| ==> r[k] == s[if k < i then k else k + 1]
  {
    s[..i] + s[i + 1..]
  }

  ghost function Added(s: seq<nat>, p: nat, x: nat): (r: seq<nat>)
    requires p <= |s|
    ensures |r| == |s| + 1 && forall k :: 0 <= k < |r| ==> r[k] == if k < p then s[k] else if k == p then x
              else s[k - 1]
  {
    s[..p] + [x] + s[p..]
  }

  /** A list is not affected by writes to links it does not use. */
  lemma {:induction false} ChainElsewhere(nx: seq<nat>, nx': seq<nat>, h: nat, s: seq<nat>)
    requires Chain(nx, h, s) && |nx'| == NR && forall i :: 0 <= i < |s| ==> nx'[s[i]] == nx[s[i]]
    ensures Chain(nx', h, s)
  {
  }

  lemma {:induction false} ChainPush(nx: seq<nat>, h: nat, s: seq<nat>, x: nat)
    requires Chain(nx, h, s) && x < NR && nx[x] == h
    ensures Chain(nx, x, [x] + s)
  {
    var f := [x] + s;
    forall k | 0 <= k < |f| ensures f[k] < NR && nx[f[k]] == After(f, k, NIL) {
      if k > 0 {
        assert f[k] == s[k - 1];
        assert k + 1 < |f| ==> f[k + 1] == s[k];
      } else {
        assert f[0] == x && (1 < |f| ==> f[1] == s[0]);
      }
    }
    assert f[0] == x;
  }

  lemma {:induction false} ChainPop(nx: seq<nat>, h: nat, s: seq<nat>)
    requires Chain(nx, h, s) && s != []
    ensures Chain(nx, nx[s[0]], s[1..])
  {
    var f := s[1..];
    forall k | 0 <= k < |f| ensures f[k] < NR && nx[f[k]] == After(f, k, NIL) {
      assert f[k] == s[k + 1];
      assert k + 1 < |f| ==> f[k + 1] == s[k + 2];
    }
    assert nx[s[0]] == After(s, 0, NIL);
  }

  lemma {:induction false} SlotsRemove(holes: seq<nat>, slots: seq<nat>, i: nat)
    requires Slots(holes, slots) && i < |holes|
    ensures Slots(Removed(holes, i), [holes[i]] + slots)
  {
    var r, f := Removed(holes, i), [holes[i]] + slots;
    assert forall k :: 0 <= k < |f| ==> f[k] == if k == 0 then holes[i] else slots[k - 1];
  }

  lemma {:induction false} SlotsAdd(holes: seq<nat>, slots: seq<nat>, p: nat)
    requires Slots(holes, slots) && p <= |holes| && slots != []
    ensures Slots(Added(holes, p, slots[0]), slots[1..])
  {
  }

  lemma {:induction false} RemoveChain(nx: seq<nat>, nx': seq<nat>, head: nat, holes: seq<nat>, i: nat)
    requires Chain(nx, head, holes) && DistinctSlots(holes) && i < |holes| && |nx'| == NR
    requires forall k :: 0 <= k < |holes| && k != i && k + 1 != i ==> nx'[holes[k]] == nx[holes[k]]
    requires i > 0 ==> nx'[holes[i - 1]] == nx[holes[i]]
    ensures Chain(nx', if i == 0 then nx[holes[0]] else head, Removed(holes, i))
  {
    hide DistinctSlots;
    var r := Removed(holes, i);
    forall k | 0 <= k < |r| ensures r[k] < NR && nx'[r[k]] == After(r, k, NIL) {
      RemoveLink(nx, nx', head, holes, i, k);
    }
    assert nx[holes[0]] == After(holes, 0, NIL);
  }

  lemma {:induction false} RemoveLink(nx: seq<nat>, nx': seq<nat>, head: nat, holes: seq<nat>, i: nat, k: nat)
    requires Chain(nx, head, holes) && i < |holes| && |nx'| == NR && k < |holes| - 1
    requires forall k :: 0 <= k < |holes| && k != i && k + 1 != i ==> nx'[holes[k]] == nx[holes[k]]
    requires i > 0 ==> nx'[holes[i - 1]] == nx[holes[i]]
    ensures Removed(holes, i)[k] < NR && nx'[Removed(holes, i)[k]] == After(Removed(holes, i), k, NIL)
  {
    var r := Removed(holes, i);
    if k + 1 < i {
      assert r[k] == holes[k] && r[k + 1] == holes[k + 1];
    } else if k + 1 == i {
      assert r[k] == holes[i - 1] && nx[holes[i]] == After(holes, i, NIL);
      assert k + 1 < |r| ==> r[k + 1] == holes[i + 1];
    } else {
      assert r[k] == holes[k + 1];
      assert k + 1 < |r| ==> r[k + 1] == holes[k + 2];
    }
  }

  lemma {:induction false} AddChain(nx: seq<nat>, nx': seq<nat>, head: nat, holes: seq<nat>, p: nat, x: nat)
    requires Chain(nx, head, holes) && DistinctSlots(holes) && p <= |holes| && |nx'| == NR && x < NR
    requires forall k :: 0 <= k < |holes| && k + 1 != p ==> nx'[holes[k]] == nx[holes[k]]
    requires p > 0 ==> nx'[holes[p - 1]] == x
    requires nx'[x] == if p == 0 then head else nx[holes[p - 1]]
    ensures Chain(nx', if p == 0 then x else head, Added(holes, p, x))
  {
    var r := Added(holes, p, x);
    forall k | 0 <= k < |r| ensures r[k] < NR && nx'[r[k]] == After(r, k, NIL) {
      if k < p { assert r[k] == holes[k]; } else if k > p { assert r[k] == holes[k - 1]; } else { assert r[k] == x; }
      assert k + 1 < |r| ==> r[k + 1] == if k + 1 < p then holes[k + 1] else if k + 1 == p then x else holes[k];
    }
    assert r[0] == if p == 0 then x else holes[0];
  }

  /** The holes a list of slots stands for. */
  ghost function ViewOf(holes: seq<nat>, hb: seq<nat>, hl: seq<nat>): (v: seq<Hole>)
    requires |hb| == NR && |hl| == NR && forall i :: 0 <= i < |holes| ==> holes[i] < NR
    ensures |v| == |holes| && forall i :: 0 <= i < |v| ==> v[i] == Hole(hb[holes[i]], hl[holes[i]])
  {
    seq(|holes|, i requires 0 <= i < |holes| => Hole(hb[holes[i]], hl[holes[i]]))
  }

  // ----- the zone

  class Zone {
    const base: nat
    const limit: nat
    const next: array<nat>
    const hbase: array<nat>
    const hlen: array<nat>
    var head: nat
    var freeSlots: nat

    // the slots on the two lists
    ghost var holes: seq<nat>
    ghost var slots: seq<nat>

    ghost predicate Linked()
      reads this, next
    {
      && next.Length == NR && (forall i :: 0 <= i < |holes| ==> holes[i] < NR)
      && Chain(next[..], head, holes) && Chain(next[..], freeSlots, slots) && Slots(holes, slots)
    }

    ghost predicate Arrays()
      reads this
    {
      next.Length == NR && hbase.Length == NR && hlen.Length == NR && next != hbase && next != hlen && hbase != hlen
    }

    ghost function View(): (v: seq<Hole>)
      reads this, hbase, hlen
      requires hbase.Length == NR && hlen.Length == NR && forall i :: 0 <= i < |holes| ==> holes[i] < NR
      ensures |v| == |holes|
    {
      ViewOf(holes, hbase[..], hlen[..])
    }

    ghost predicate Valid()
      reads this, next, hbase, hlen
    {
      Arrays() && Linked() && Sorted(View())
    }

    /** The table with all slots unused. */
    constructor (base: nat, limit: nat)
      ensures Valid() && View() == [] && fresh(next) && fresh(hbase) && fresh(hlen) && this.base == base
              && this.limit == limit
    {
      this.base, this.limit := base, limit;
      next := new nat[NR];
      hbase := new nat[NR];
      hlen := new nat[NR];
      new;
      InitTable();
    }

    method InitTable()
      requires Arrays()
      modifies this`head, this`freeSlots, this`holes, this`slots, next, hbase, hlen
      ensures Valid() && View() == []
    {
      hide Chain, Slots, DistinctSlots, Separate, After;
      for i := 0 to NR
        invariant forall k :: 0 <= k < i ==> next[k] == k + 1
      {
        next[i] := i + 1;
        hbase[i] := 0;
        hlen[i] := 0;
      }
      next[NR - 1] := NIL;
      head := NIL;
      freeSlots := 0;
      holes := [];
      slots := seq(NR, i => i);
      InitChain(next[..], slots);
    }

    /** delete_slot: hole i of the list goes to the unused slots. */
    method DeleteSlot(prev: nat, hp: nat, ghost i: nat)
      requires Arrays() && Linked() && i < |holes| && hp == holes[i] && (i > 0 ==> prev == holes[i - 1])
      modifies this`head, this`freeSlots, this`holes, this`slots, next, hbase, hlen
      ensures Arrays() && Linked() && holes == Removed(old(holes), i) && slots == [hp] + old(slots)
      ensures forall k :: 0 <= k < NR && k != hp ==> hbase[k] == old(hbase[k]) && hlen[k] == old(hlen[k])
    {
      hide Chain, Slots, DistinctSlots, Separate;
      ghost var nx := next[..];
      ChainHead(nx, head, holes, i);
      SlotsAt(holes, slots, i);
      if hp == head {
        HeadIsFirst(nx, head, holes, i, slots);
        head := next[hp];
      } else {
        HeadIsFirst(nx, head, holes, i, slots);
        next[prev] := next[hp];
      }
      next[hp] := freeSlots;
      hbase[hp] := 0;
      hlen[hp] := 0;
      freeSlots := hp;
      UnlinkDone(nx, next[..], old(head), holes, old(freeSlots), slots, i);
      SlotsDistinct(Removed(holes, i), [hp] + slots);
      DistinctRange(Removed(holes, i));
      holes, slots := Removed(holes, i), [hp] + slots;
    }

    /** If hole i touches the next one, they become one hole. */
    method TryMerge(hp: nat, ghost i: nat) returns (merged: bool)
      requires Arrays() && Linked() && i + 1 < |holes| && hp == holes[i]
      modifies this`head, this`freeSlots, this`holes, this`slots, next, hbase, hlen
      ensures Arrays() && Linked()
      ensures var v := old(View());
              && merged == (v[i].base + v[i].len == v[i + 1].base)
              && View() == if merged then Merged(v, i) else v
      ensures i < |holes| && holes[i] == hp && (!merged ==> holes == old(holes))
    {
      hide Chain, Slots, Merged;
      ghost var v := View();
      LinkedAt(next[..], head, holes, freeSlots, slots, i);
      LinkedAt(next[..], head, holes, freeSlots, slots, i + 1);
      SlotsAt(holes, slots, i + 1);
      SlotsDistinct(holes, slots);
      var np := next[hp];
      merged := hbase[hp] + hlen[hp] == hbase[np];
      if merged {
        hlen[hp] := hlen[hp] + hlen[np];
        ghost var hb, hl, s := hbase[..], hlen[..], holes;
        DeleteSlot(hp, np, i + 1);
        MergedView(v, s, old(hbase[..]), old(hlen[..]), hbase[..], hlen[..], i, holes);
      }
    }

    /** merge_hole, called for the hole before position p, or for the first when p is the first. */
    method MergeHole(start: nat, ghost p: nat)
      requires Arrays() && Linked() && p < |holes| && start == (if p == 0 then holes[0] else holes[p - 1])
      requires AlmostSorted(View(), p)
      modifies this`head, this`freeSlots, this`holes, this`slots, next, hbase, hlen
      ensures Valid() && forall x: int :: Covers(View(), x) <==> old(Covers(View(), x))
    {
      hide Chain, Slots, Merged, AlmostSorted, Sorted, Covers, OneTouch;
      ghost var v := View();
      var hp := start;
      ghost var i := if p == 0 then 0 else p - 1;
      LinkedAt(next[..], head, holes, freeSlots, slots, i);
      if next[hp] == NIL {
        LinkEnd(next[..], head, holes, freeSlots, slots, i);
        LonelyHole(v, p);
        return;
      }
      LinkEnd(next[..], head, holes, freeSlots, slots, i);
      var first := TryMerge(hp, i);
      ghost var w := View();
      ghost var q := if first && p > 0 then p - 1 else p;
      FirstMerge(v, p, i, first);
      if !first {
        LinkedAt(next[..], head, holes, freeSlots, slots, i);
        hp := next[hp];
        i := i + 1;
      }
      MergeSecond(hp, i, q);
    }

    method MergeSecond(hp: nat, ghost i: nat, ghost q: nat)
      requires Arrays() && Linked() && i < |holes| && hp == holes[i] && OneTouch(View(), q, i)
      modifies this`head, this`freeSlots, this`holes, this`slots, next, hbase, hlen
      ensures Valid() && forall x: int :: Covers(View(), x) <==> old(Covers(View(), x))
    {
      hide Chain, Slots, Merged, Sorted, Covers, OneTouch;
      ghost var w := View();
      LinkedAt(next[..], head, holes, freeSlots, slots, i);
      LinkEnd(next[..], head, holes, freeSlots, slots, i);
      if next[hp] != NIL {
        var second := TryMerge(hp, i);
        SecondMerge(w, q, i, second);
      } else {
        Settled(w, q, i);
      }
    }

    /** alloc_mem_zone: first fit. The padding in front of the block is not kept. */
    method Alloc(memsize: nat, alignment: nat) returns (r: nat, ghost at: nat)
      requires Valid() && alignment > 0 && forall i :: 0 <= i < |View()| ==> View()[i].base > 0
      modifies this`head, this`freeSlots, this`holes, this`slots, next, hbase, hlen
      ensures Valid()
      ensures r == 0 ==> View() == old(View()) && forall i :: 0 <= i < |View()| ==> !Fits(View()[i], memsize, alignment)
      ensures r != 0 ==> var v := old(View());
                && at < |v| && Fits(v[at], memsize, alignment)
                     && (forall i :: 0 <= i < at ==> !Fits(v[i], memsize, alignment))
                && r == v[at].base + Pad(v[at].base, alignment)
                   && View() == Cut(v, at, memsize + Pad(v[at].base, alignment))
    {
      hide Chain, Slots, Sorted, Cut, ViewOf;
      ghost var v := View();
      var prev, hp, offset := NIL, head, 0;
      at := 0;
      r := 0;
      ListStart(next[..], head, holes);
      var found := false;
      while hp != NIL && !found
        invariant Valid() && View() == v
        invariant found ==> at < |holes| && offset == Pad(v[at].base, alignment) && Fits(v[at], memsize, alignment)
        invariant 0 <= at <= |holes| && (hp == NIL <==> at == |holes|) && (at < |holes| ==> hp == holes[at])
        invariant if at > 0 then prev == holes[at - 1] else prev == NIL
        invariant forall i :: 0 <= i < at ==> !Fits(v[i], memsize, alignment)
        decreases |holes| - at, !found
      {
        offset := 0;
        if hbase[hp] % alignment != 0 {
          offset := alignment - (hbase[hp] % alignment);
        }
        if hlen[hp] >= memsize + offset {
          found := true;
        } else {
          LinkedAt(next[..], head, holes, freeSlots, slots, at);
          LinkEnd(next[..], head, holes, freeSlots, slots, at);
          prev := hp;
          hp := next[hp];
          at := at + 1;
        }
      }
      if found {
        r := TakeFrom(prev, hp, memsize, offset, at);
      }
    }

    /** The allocation from hole i. */
    method TakeFrom(prev: nat, hp: nat, memsize: nat, offset: nat, ghost i: nat) returns (oldBase: nat)
      requires Valid() && i < |holes| && hp == holes[i] && (if i > 0 then prev == holes[i - 1] else prev == NIL)
      requires memsize + offset <= View()[i].len
      modifies this`head, this`freeSlots, this`holes, this`slots, next, hbase, hlen
      ensures Valid() && oldBase == old(View())[i].base + offset && View() == Cut(old(View()), i, memsize + offset)
    {
      hide Chain, Slots, Sorted, Cut;
      ghost var v, s := View(), holes;
      ghost var hb, hl := hbase[..], hlen[..];
      SlotsDistinct(holes, slots);
      oldBase := hbase[hp] + offset;
      hbase[hp] := hbase[hp] + memsize + offset;
      hlen[hp] := hlen[hp] - (memsize + offset);
      if prev != NIL && hbase[prev] + hlen[prev] == oldBase {
        hlen[prev] := hlen[prev] + offset;
      }
      PreviousApart(v, s, hb, hl, i, offset);
      CutSorted(v, i, memsize + offset);
      if hlen[hp] == 0 {
        DeleteSlot(prev, hp, i);
        CutGone(v, s, hb, hl, hbase[..], hlen[..], i, holes);
      } else {
        CutKept(v, s, hb, hl, hbase[..], hlen[..], i, memsize + offset);
      }
    }

    /** The last hole that starts before b, and its position plus one. */
    method FindPlace(b: nat) returns (prev: nat, ghost p: nat)
      requires Valid()
      ensures p <= |holes| && (if p > 0 then prev == holes[p - 1] else prev == NIL)
      ensures PlaceOk(View(), p, b)
    {
      hide Chain, Slots, Sorted;
      ghost var v := View();
      ListStart(next[..], head, holes);
      var hp := head;
      prev, p := NIL, 0;
      while hp != NIL && b > hbase[hp]
        invariant 0 <= p <= |holes| && (hp == NIL <==> p == |holes|) && (p < |holes| ==> hp == holes[p])
        invariant if p > 0 then prev == holes[p - 1] else prev == NIL
        invariant forall i :: 0 <= i < p ==> v[i].base < b
        decreases |holes| - p
      {
        LinkedAt(next[..], head, holes, freeSlots, slots, p);
        LinkEnd(next[..], head, holes, freeSlots, slots, p);
        prev := hp;
        hp := next[hp];
        p := p + 1;
      }
      LaterHoles(v, b, p);
    }

    /** Freeing into the hole table; fails when no slot is left for the new hole. */
    method Insert(b: nat, len: nat) returns (ok: bool)
      requires Valid() && len > 0 && Apart(View(), b, len)
      modifies this`head, this`freeSlots, this`holes, this`slots, next, hbase, hlen
      ensures ok <==> old(|View()|) < NR
      ensures !ok ==> Valid() && View() == old(View())
      ensures ok ==> Valid() && forall x: int :: Covers(View(), x) <==> old(Covers(View(), x)) || b <= x < b + len
    {
      hide Chain, Slots, Sorted, Covers, AlmostSorted, Inserted, PlaceOk, DistinctSlots, ViewOf, Apart;
      ghost var v, s, sl := View(), holes, slots;
      ghost var hb, hl, nx, hd, fs := hbase[..], hlen[..], next[..], head, freeSlots;
      SlotsLeft(nx, freeSlots, holes, slots);
      SlotsDistinct(holes, slots);
      if freeSlots == NIL { return false; }
      ok := true;
      var prev, p := FindPlace(b);
      var np := freeSlots;
      FirstSlot(nx, fs, s, sl);
      ListStart(nx, hd, s);
      hbase[np] := b;
      hlen[np] := len;
      freeSlots := next[np];
      if prev == NIL {
        next[np] := head;
        head := np;
        assert p == 0 && next[..] == nx[fs := hd];
      } else {
        LinkedAt(nx, hd, s, fs, sl, p - 1);
        next[np] := next[prev];
        next[prev] := np;
        assert p > 0 && next[..] == nx[fs := nx[s[p - 1]]][s[p - 1] := fs];
      }
      assert hbase[..] == hb[fs := b] && hlen[..] == hl[fs := len];
      InsertDone(v, s, sl, hb, hl, hbase[..], hlen[..], nx, next[..], hd, fs, b, len, p);
      holes, slots := Added(s, p, np), sl[1..];
      assert View() == Inserted(v, p, Hole(b, len));
      MergeHole(if prev == NIL then np else prev, p);
    }
  }

  lemma {:induction false} InitChain(nx: seq<nat>, s: seq<nat>)
    requires |nx| == |s| == NR && forall i :: 0 <= i < NR ==> nx[i] == i + 1 && s[i] == i
    ensures Chain(nx, NIL, []) && Chain(nx, 0, s) && Slots([], s)
  {
    forall i | 0 <= i < NR ensures nx[s[i]] == After(s, i, NIL) { }
  }

  lemma {:induction false} ChainHead(nx: seq<nat>, h: nat, s: seq<nat>, i: nat)
    requires Chain(nx, h, s) && i < |s|
    ensures h == s[0] && s[i] < NR && |nx| == NR && nx[s[i]] == (if i + 1 < |s| then s[i + 1] else NIL)
    ensures i > 0 ==> s[i - 1] < NR
  {
  }

  lemma {:induction false} SlotsAt(holes: seq<nat>, slots: seq<nat>, i: nat)
    requires Slots(holes, slots) && i < |holes|
    ensures forall k :: 0 <= k < |holes| && k != i ==> holes[k] != holes[i]
    ensures forall k :: 0 <= k < |slots| ==> slots[k] != holes[i]
  {
  }

  lemma {:induction false} SlotsDistinct(holes: seq<nat>, slots: seq<nat>)
    requires Slots(holes, slots)
    ensures DistinctSlots(holes) && DistinctSlots(slots)
  {
  }

  lemma {:induction false} DistinctRange(s: seq<nat>)
    requires DistinctSlots(s)
    ensures forall i :: 0 <= i < |s| ==> s[i] < NR
  {
  }

  lemma {:induction false} HeadIsFirst(nx: seq<nat>, h: nat, s: seq<nat>, i: nat, slots: seq<nat>)
    requires Chain(nx, h, s) && Slots(s, slots) && i < |s|
    ensures s[i] == h <==> i == 0
  {
  }

  lemma {:induction false} UnlinkDone(nx: seq<nat>, nx': seq<nat>, head: nat, holes: seq<nat>, fs: nat,
                                      slots: seq<nat>, i: nat)
    requires Chain(nx, head, holes) && Chain(nx, fs, slots) && Slots(holes, slots) && i < |holes| && |nx'| == NR
             && holes[i] < NR
    requires i > 0 ==> holes[i - 1] < NR
    requires forall x :: 0 <= x < NR && x != holes[i] && (i > 0 ==> x != holes[i - 1]) ==> nx'[x] == nx[x]
    requires nx'[holes[i]] == fs && (i > 0 ==> nx'[holes[i - 1]] == nx[holes[i]])
    ensures Chain(nx', if i == 0 then nx[holes[0]] else head, Removed(holes, i))
    ensures Chain(nx', holes[i], [holes[i]] + slots)
    ensures Slots(Removed(holes, i), [holes[i]] + slots)
  {
    RemoveChain(nx, nx', head, holes, i);
    ChainElsewhere(nx, nx', fs, slots);
    ChainPush(nx', fs, slots, holes[i]);
    SlotsRemove(holes, slots, i);
  }

  lemma {:induction false} LinkedAt(nx: seq<nat>, h: nat, s: seq<nat>, fs: nat, slots: seq<nat>, i: nat)
    requires Chain(nx, h, s) && Chain(nx, fs, slots) && Slots(s, slots) && i < |s|
    ensures s[i] < NR && |nx| == NR && (i + 1 < |s| ==> nx[s[i]] == s[i + 1]) && h == s[0]
    ensures forall k :: 0 <= k < |s| ==> s[k] < NR
  {
  }

  lemma {:induction false} LinkEnd(nx: seq<nat>, h: nat, s: seq<nat>, fs: nat, slots: seq<nat>, i: nat)
    requires Chain(nx, h, s) && Chain(nx, fs, slots) && Slots(s, slots) && i < |s|
    ensures s[i] < NR && |nx| == NR && (nx[s[i]] == NIL <==> i + 1 == |s|)
  {
  }

  lemma {:induction false} MergedView(v: seq<Hole>, s: seq<nat>, hb: seq<nat>, hl: seq<nat>, hb': seq<nat>,
                                      hl': seq<nat>, i: nat, r: seq<nat>)
    requires |hb| == |hl| == |hb'| == |hl'| == NR && i + 1 < |s| && DistinctSlots(s) && v == ViewOf(s, hb, hl)
             && r == Removed(s, i + 1)
    requires forall k :: 0 <= k < NR && k != s[i + 1] ==> hb'[k] == hb[k] && hl'[k] == if k == s[i]
               then hl[s[i]] + hl[s[i + 1]] else hl[k]
    ensures forall k :: 0 <= k < |r| ==> r[k] < NR
    ensures ViewOf(r, hb', hl') == Merged(v, i)
  {
    var w := ViewOf(r, hb', hl');
    forall k | 0 <= k < |r| ensures w[k] == Merged(v, i)[k] {
      MergedAt(v, i, k);
    }
  }

  /** What the first merge attempt leaves: at most one touching pair, to the right of position q. */
  lemma {:induction false} FirstMerge(v: seq<Hole>, p: nat, i: nat, merged: bool)
    requires AlmostSorted(v, p) && p < |v| && i == (if p == 0 then 0 else p - 1) && i + 1 < |v|
    requires merged == (v[i].base + v[i].len == v[i + 1].base)
    ensures merged ==> OneTouch(Merged(v, i), if p > 0 then p - 1 else p, i)
    ensures !merged ==> OneTouch(v, p, i + 1)
    ensures merged ==> forall x: int :: Covers(Merged(v, i), x) <==> Covers(v, x)
  {
    hide Merged, Covers;
    if p > 0 {
      if merged {
        MergeLeft(v, p);
        if p > 1 { MergedAt(v, p - 1, p - 2); }
        MergedAt(v, p - 1, p - 1);
      }
    } else if merged {
      MergeRight(v, 0);
    } else {
      NoTouch(v, 0);
    }
    if merged {
      forall x: int ensures Covers(Merged(v, i), x) <==> Covers(v, x) { MergeCovers(v, i, x); }
    }
  }

  /** At most one pair of holes touches: hole q, which is hole i, and the next. */
  ghost predicate OneTouch(w: seq<Hole>, q: nat, i: nat) {
    Sorted(w) || (AlmostSorted(w, q) && i == q < |w| && (q > 0 ==> w[q - 1].base + w[q - 1].len < w[q].base))
  }

  lemma {:induction false} LonelyHole(v: seq<Hole>, p: nat)
    requires AlmostSorted(v, p) && |v| == 1
    ensures Sorted(v)
  {
  }

  lemma {:induction false} SortedIsAlmost(v: seq<Hole>, p: nat)
    requires Sorted(v)
    ensures AlmostSorted(v, p)
  {
  }

  lemma {:induction false} SecondMerge(w: seq<Hole>, q: nat, i: nat, merged: bool)
    requires i + 1 < |w| && merged == (w[i].base + w[i].len == w[i + 1].base)
    requires OneTouch(w, q, i)
    ensures merged ==> Sorted(Merged(w, i))
    ensures !merged ==> Sorted(w)
    ensures merged ==> forall x: int :: Covers(Merged(w, i), x) <==> Covers(w, x)
  {
    hide Merged, Covers;
    if Sorted(w) { SortedIsAlmost(w, i); }
    if merged { MergeRight(w, i); } else if !Sorted(w) { NoTouch(w, q); }
    if merged {
      forall x: int ensures Covers(Merged(w, i), x) <==> Covers(w, x) { MergeCovers(w, i, x); }
    }
  }

  lemma {:induction false} Settled(w: seq<Hole>, q: nat, i: nat)
    requires OneTouch(w, q, i) && i + 1 == |w|
    ensures Sorted(w)
  {
    if !Sorted(w) { NoTouch(w, q); }
  }

  // ----- allocation and insertion on values

  function Pad(base: nat, alignment: nat): (o: nat)
    requires alignment > 0
    ensures o < alignment
  {
    if base % alignment != 0 then alignment - base % alignment else 0
  }

  predicate Fits(h: Hole, memsize: nat, alignment: nat)
    requires alignment > 0
  {
    h.len >= memsize + Pad(h.base, alignment)
  }

  /** Position p separates the holes that start before b from the others. */
  ghost predicate PlaceOk(v: seq<Hole>, p: nat, b: nat) {
    p <= |v| && (forall i :: 0 <= i < p ==> v[i].base < b) && (forall i :: p <= i < |v| ==> b <= v[i].base)
  }

  lemma {:induction false} ListStart(nx: seq<nat>, h: nat, s: seq<nat>)
    requires Chain(nx, h, s)
    ensures (h == NIL <==> s == []) && (s != [] ==> h == s[0])
  {
  }

  /** The hole before never reaches the block, so the padding is not given to it. */
  lemma {:induction false} PreviousApart(v: seq<Hole>, s: seq<nat>, hb: seq<nat>, hl: seq<nat>, i: nat, offset: nat)
    requires |hb| == |hl| == NR && i < |s| && DistinctSlots(s) && v == ViewOf(s, hb, hl) && Sorted(v)
    ensures i > 0 ==> s[i - 1] != s[i] && hb[s[i - 1]] + hl[s[i - 1]] != hb[s[i]] + offset
  {
    if i > 0 { assert v[i - 1].base + v[i - 1].len < v[i].base; }
  }

  lemma {:induction false} CutGone(v: seq<Hole>, s: seq<nat>, hb: seq<nat>, hl: seq<nat>, hb': seq<nat>,
                                   hl': seq<nat>, i: nat, r: seq<nat>)
    requires |hb| == |hl| == |hb'| == |hl'| == NR && i < |s| && DistinctSlots(s) && v == ViewOf(s, hb, hl)
             && r == Removed(s, i)
    requires forall k :: 0 <= k < NR && k != s[i] ==> hb'[k] == hb[k] && hl'[k] == hl[k]
    ensures forall k :: 0 <= k < |r| ==> r[k] < NR
    ensures ViewOf(r, hb', hl') == Cut(v, i, v[i].len)
  {
  }

  lemma {:induction false} CutKept(v: seq<Hole>, s: seq<nat>, hb: seq<nat>, hl: seq<nat>, hb': seq<nat>,
                                   hl': seq<nat>, i: nat, n: nat)
    requires |hb| == |hl| == |hb'| == |hl'| == NR && i < |s| && DistinctSlots(s) && v == ViewOf(s, hb, hl)
             && n < v[i].len
    requires forall k :: 0 <= k < NR && k != s[i] ==> hb'[k] == hb[k] && hl'[k] == hl[k]
    requires hb'[s[i]] == hb[s[i]] + n && hl'[s[i]] == hl[s[i]] - n
    ensures ViewOf(s, hb', hl') == Cut(v, i, n)
  {
  }

  lemma {:induction false} SlotsLeft(nx: seq<nat>, fs: nat, holes: seq<nat>, slots: seq<nat>)
    requires Chain(nx, fs, slots) && Slots(holes, slots)
    ensures |holes| <= NR && (fs == NIL <==> |holes| == NR)
  {
  }

  lemma {:induction false} FirstSlot(nx: seq<nat>, fs: nat, holes: seq<nat>, slots: seq<nat>)
    requires Chain(nx, fs, slots) && Slots(holes, slots) && fs != NIL
    ensures slots != [] && fs == slots[0] && fs < NR && forall i :: 0 <= i < |holes| ==> holes[i] != fs
  {
  }

  lemma {:induction false} LaterHoles(v: seq<Hole>, b: nat, p: nat)
    requires Sorted(v) && p <= |v| && (p < |v| ==> b <= v[p].base)
    ensures forall i :: p <= i < |v| ==> b <= v[i].base
  {
    forall i | p <= i < |v| ensures b <= v[i].base {
      if i > p { assert v[p].base + v[p].len < v[i].base; }
    }
  }

  lemma {:induction false} InsertDone(v: seq<Hole>, s: seq<nat>, slots: seq<nat>, hb: seq<nat>, hl: seq<nat>,
                                      hb': seq<nat>, hl': seq<nat>, nx: seq<nat>, nx': seq<nat>, head: nat, fs: nat,
                                      b: nat, len: nat, p: nat)
    requires |hb| == |hl| == |hb'| == |hl'| == |nx'| == NR && Chain(nx, head, s) && Chain(nx, fs, slots)
             && Slots(s, slots)
    requires DistinctSlots(s) && v == ViewOf(s, hb, hl) && slots != [] && p <= |s| && fs == slots[0] && fs < NR
    requires hb' == hb[fs := b] && hl' == hl[fs := len]
    requires p > 0 ==> s[p - 1] < NR && nx' == nx[fs := nx[s[p - 1]]][s[p - 1] := fs]
    requires p == 0 ==> nx' == nx[fs := head]
    requires Sorted(v) && len > 0 && Apart(v, b, len)
    requires PlaceOk(v, p, b)
    ensures var r := Added(s, p, fs);
            && (forall k :: 0 <= k < |r| ==> r[k] < NR) && ViewOf(r, hb', hl') == Inserted(v, p, Hole(b, len))
            && Chain(nx', if p == 0 then fs else head, r) && Chain(nx', nx[fs], slots[1..]) && Slots(r, slots[1..])
    ensures AlmostSorted(Inserted(v, p, Hole(b, len)), p)
    ensures forall x: int :: Covers(Inserted(v, p, Hole(b, len)), x) <==> Covers(v, x) || b <= x < b + len
  {
    hide Covers, AlmostSorted, Inserted;
    var h := Hole(b, len);
    SlotsAdd(s, slots, p);
    ChainPop(nx, fs, slots);
    InsertLinks(nx, nx', head, s, fs, slots, p);
    InsertView(v, s, slots, hb, hl, b, len, p);
    InsertAlmost(v, p, h);
    forall x: int ensures Covers(Inserted(v, p, h), x) <==> Covers(v, x) || b <= x < b + len {
      InsertCovers(v, p, h, x);
    }
  }

  lemma {:induction false} InsertLinks(nx: seq<nat>, nx': seq<nat>, head: nat, s: seq<nat>, fs: nat, slots: seq<nat>,
                                       p: nat)
    requires |nx'| == NR && Chain(nx, head, s) && Chain(nx, fs, slots) && Slots(s, slots) && slots != [] && p <= |s|
    requires fs == slots[0] && fs < NR && (p > 0 ==> s[p - 1] < NR)
    requires p > 0 ==> nx' == nx[fs := nx[s[p - 1]]][s[p - 1] := fs]
    requires p == 0 ==> nx' == nx[fs := head]
    ensures Chain(nx', if p == 0 then fs else head, Added(s, p, fs)) && Chain(nx', nx[fs], slots[1..])
  {
    ChainPop(nx, fs, slots);
    ChainElsewhere(nx, nx', nx[fs], slots[1..]);
    AddChain(nx, nx', head, s, p, fs);
  }

  lemma {:induction false} InsertView(v: seq<Hole>, s: seq<nat>, slots: seq<nat>, hb: seq<nat>, hl: seq<nat>, b: nat,
                                      len: nat, p: nat)
    requires |hb| == |hl| == NR && Slots(s, slots) && slots != [] && p <= |s| && v == ViewOf(s, hb, hl) && slots[0] < NR
    ensures var r := Added(s, p, slots[0]);
            && (forall k :: 0 <= k < |r| ==> r[k] < NR)
            && ViewOf(r, hb[slots[0] := b], hl[slots[0] := len]) == Inserted(v, p, Hole(b, len))
  {
    var r := Added(s, p, slots[0]);
    forall k | 0 <= k < |r|
      ensures ViewOf(r, hb[slots[0] := b], hl[slots[0] := len])[k] == Inserted(v, p, Hole(b, len))[k]
    {
      InsertedAt(v, p, Hole(b, len), k);
    }
  }
}
