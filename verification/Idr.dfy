/** Identifiers allocated from an ordered tree of those in use. */
module Idr {
  import opened Common
  import opened AvlTree
  import opened AvlIter

  /** The result of an allocation; the search reads through a null pointer when it runs past the least
      number in use. */
  datatype Outcome = Allocated(id: nat) | NullRead | NoMemory

  ghost predicate Strict(s: seq<Entry>) {
    forall i, j :: 0 <= i < j < |s| ==> s[i].key < s[j].key
  }

  lemma {:induction false} StrictIsSorted(s: seq<Entry>)
    requires Strict(s)
    ensures Sorted(s)
  {
  }

  ghost predicate HasKey(s: seq<Entry>, k: int) {
    exists i :: 0 <= i < |s| && s[i].key == k
  }

  ghost predicate InUse(t: Tree, k: int) { HasKey(InOrder(t), k) }

  /** The pointer stored under a key. */
  ghost function PtrOf(t: Tree, k: int): Option<int> {
    var p := Find(t, k);
    if p < 0 then None else Some(InOrder(t)[p].ptr)
  }

  lemma {:induction false} LookupIs(t: Tree, k: int)
    requires t.Node?
    ensures k < t.e.key ==> PtrOf(t, k) == PtrOf(t.left, k)
    ensures k > t.e.key ==> PtrOf(t, k) == PtrOf(t.right, k)
    ensures k == t.e.key ==> PtrOf(t, k) == Some(t.e.ptr)
  {
    hide InOrder, Find;
    FindIs(t, k);
    Steps(t);
    Inside(InOrder(t.left), t.e, InOrder(t.right));
  }

  ghost predicate IsAdded(s: seq<Entry>, p: nat, e: Entry, r: seq<Entry>) {
    p <= |s| && |r| == |s| + 1 && forall i {:trigger r[i]} :: 0 <= i < |r| ==> r[i] == if i < p then s[i]
      else if i == p then e else s[i - 1]
  }

  lemma {:induction false} AddedKeys(s: seq<Entry>, p: nat, e: Entry, r: seq<Entry>, k: int)
    requires IsAdded(s, p, e, r)
    ensures HasKey(r, k) <==> HasKey(s, k) || k == e.key
  {
    if HasKey(s, k) {
      var i :| 0 <= i < |s| && s[i].key == k;
      assert r[if i < p then i else i + 1].key == k;
    }
    if k == e.key { assert r[p].key == k; }
    if HasKey(r, k) && k != e.key {
      var i :| 0 <= i < |r| && r[i].key == k;
      assert s[if i < p then i else i - 1].key == k;
    }
  }

  lemma {:induction false} AddedStrict(s: seq<Entry>, p: nat, e: Entry, r: seq<Entry>)
    requires IsAdded(s, p, e, r) && Strict(s)
    requires (forall i :: 0 <= i < p ==> s[i].key < e.key) && (forall i :: p <= i < |s| ==> e.key < s[i].key)
    ensures Strict(r)
  {
    forall i, j | 0 <= i < j < |r| ensures r[i].key < r[j].key {
      if i < p && j < p { assert s[i].key < s[j].key; }
      if i < p && j > p { assert i < j - 1 ==> s[i].key < s[j - 1].key; assert s[i].key < e.key < s[j - 1].key; }
      if i > p { assert s[i - 1].key < s[j - 1].key; }
    }
  }

  /** A key not in use can be added: the keys stay distinct and the new one is found. */
  lemma {:induction false} AddFresh(t: Tree, e: Entry)
    requires HeightsOk(t) && Strict(InOrder(t)) && !InUse(t, e.key)
    ensures Strict(InOrder(Insert(t, e))) && PtrOf(Insert(t, e), e.key) == Some(e.ptr)
    ensures forall k: int :: InUse(Insert(t, e), k) <==> InUse(t, k) || k == e.key
  {
    hide InOrder, Insert, Find, HeightsOk, Place;
    var p, s := Place(t, e.key), InOrder(t);
    StrictIsSorted(s);
    InsertOrder(t, e);
    PlaceSorted(t, e.key);
    var r := InOrder(Insert(t, e));
    assert IsAdded(s, p, e, r);
    hide Strict, Sorted, HasKey, IsAdded;
    NotEqual(s, p, e.key);
    AddedStrict(s, p, e, r);
    StrictIsSorted(r);
    forall k: int ensures HasKey(r, k) <==> HasKey(s, k) || k == e.key { AddedKeys(s, p, e, r, k); }
    FindUnique(Insert(t, e), e, p, s);
  }

  lemma {:induction false} NotEqual(s: seq<Entry>, p: nat, k: int)
    requires p <= |s| && !HasKey(s, k) && forall i :: 0 <= i < p ==> s[i].key <= k
    ensures forall i :: 0 <= i < p ==> s[i].key < k
  {
  }

  lemma {:induction false} FindUnique(u: Tree, e: Entry, p: nat, s: seq<Entry>)
    requires Strict(InOrder(u)) && Sorted(InOrder(u)) && IsAdded(s, p, e, InOrder(u))
    ensures PtrOf(u, e.key) == Some(e.ptr)
  {
    hide InOrder, Find, Sorted;
    FindSorted(u, e.key);
    var r := InOrder(u);
    assert r[p] == e;
    var q: nat := Find(u, e.key);
    StrictOne(r, p, q);
  }

  lemma {:induction false} StrictOne(s: seq<Entry>, p: nat, q: nat)
    requires Strict(s) && p < |s| && q < |s|
    ensures s[p].key == s[q].key ==> p == q
  {
  }

  ghost predicate IsCut(s: seq<Entry>, p: nat, r: seq<Entry>) {
    p < |s| && |r| == |s| - 1 && forall i {:trigger r[i]} :: 0 <= i < |r| ==> r[i] == if i < p then s[i] else s[i + 1]
  }

  lemma {:induction false} CutKeys(s: seq<Entry>, p: nat, r: seq<Entry>)
    requires IsCut(s, p, r) && Strict(s)
    ensures Strict(r) && forall x: int :: HasKey(r, x) <==> HasKey(s, x) && x != s[p].key
  {
    forall i, j | 0 <= i < j < |r| ensures r[i].key < r[j].key {
      assert s[if i < p then i else i + 1].key < s[if j < p then j else j + 1].key;
    }
    forall x: int ensures HasKey(r, x) <==> HasKey(s, x) && x != s[p].key {
      if HasKey(s, x) && x != s[p].key {
        var i :| 0 <= i < |s| && s[i].key == x;
        assert r[if i < p then i else i - 1].key == x;
      }
      if HasKey(r, x) {
        var i :| 0 <= i < |r| && r[i].key == x;
        assert s[if i < p then i else i + 1].key == x;
        assert i < p ==> s[i].key < s[p].key;
        assert i >= p ==> s[p].key < s[i + 1].key;
      }
    }
  }

  /** Removing a key removes that key only. */
  lemma {:induction false} RemoveKey(t: Tree, k: int)
    requires HeightsOk(t) && Strict(InOrder(t))
    ensures Strict(InOrder(Erase(t, k)))
    ensures forall x: int :: InUse(Erase(t, k), x) <==> InUse(t, x) && x != k
  {
    hide InOrder, Erase, Find, HeightsOk, Strict, Sorted, HasKey, IsCut;
    var p, s := Find(t, k), InOrder(t);
    StrictIsSorted(s);
    EraseOrder(t, k);
    FindSorted(t, k);
    if p >= 0 {
      CutIs(s, p, InOrder(Erase(t, k)));
      CutKeys(s, p, InOrder(Erase(t, k)));
    } else {
      NoKey(s, k);
    }
  }

  lemma {:induction false} CutIs(s: seq<Entry>, p: nat, r: seq<Entry>)
    requires p < |s| && r == s[..p] + s[p + 1..]
    ensures IsCut(s, p, r)
  {
  }

  lemma {:induction false} NoKey(s: seq<Entry>, k: int)
    requires forall i :: 0 <= i < |s| ==> s[i].key != k
    ensures !HasKey(s, k)
  {
  }

  const W32: nat := 0x1_0000_0000
  const W64: nat := 0x1_0000_0000_0000_0000

  /** Keys are 32-bit numbers. */
  ghost predicate Small(s: seq<Entry>) {
    forall i :: 0 <= i < |s| ==> 0 <= s[i].key < W32
  }

  // ----- the number chosen

  /** Between entries j - 1 and j there is an unused number, and the first one is at least id. */
  predicate Gap(s: seq<Entry>, j: int, id: int)
    requires 0 < j < |s|
  {
    s[j - 1].key + 1 < s[j].key && s[j - 1].key + 1 >= id
  }

  ghost predicate NoGap(s: seq<Entry>, j: int, p: nat, id: int)
    requires 0 <= j && p < |s|
  {
    forall i :: j < i <= p ==> !Gap(s, i, id)
  }

  /** Position p has the least number in use that is at or above limit. */
  ghost predicate FirstFrom(s: seq<Entry>, p: nat, limit: int) {
    Nearest(s, p, limit, false, true, true)
  }

  ghost predicate AllBelow(s: seq<Entry>, limit: int) {
    forall i :: 0 <= i < |s| ==> s[i].key < limit
  }

  /** The walk down from the least number at or above limit finds no gap and runs past the least number in use. */
  ghost predicate RunsPast(s: seq<Entry>, limit: int, id: int) {
    exists p: nat :: FirstFrom(s, p, limit) && NoGap(s, 0, p, id)
  }

  /** Entry j ends the highest gap at or below position p. */
  ghost predicate HighestGap(s: seq<Entry>, j: nat, p: nat, limit: int, id: int) {
    0 < j <= p && FirstFrom(s, p, limit) && Gap(s, j, id) && NoGap(s, j, p, id)
  }

  /** The number an allocation takes: id itself when none is in use; the one after the greatest, a 32-bit sum,
      when all are below limit; else the start of the highest gap. */
  ghost predicate Chosen(s: seq<Entry>, limit: int, id: int, slot: int) {
    if s == [] then slot == id
    else if AllBelow(s, limit) then slot == (s[|s| - 1].key + 1) % W32
    else exists j: nat, p: nat :: HighestGap(s, j, p, limit, id) && slot == s[j - 1].key + 1
  }

  /** The number after the greatest one wraps around onto a number in use. */
  ghost predicate WrapsOnto(s: seq<Entry>, limit: int) {
    limit >= W32 && HasKey(s, W32 - 1) && HasKey(s, 0)
  }

  lemma {:induction false} LastIs(s: seq<Entry>)
    requires Strict(s) && s != []
    ensures forall i :: 0 <= i < |s| ==> s[i].key <= s[|s| - 1].key
  {
  }

  /** The number after entry j - 1 is not in use if it is below entry j. */
  lemma {:induction false} GapIsFree(s: seq<Entry>, j: nat)
    requires Strict(s) && 0 < j < |s| && s[j - 1].key + 1 < s[j].key
    ensures !HasKey(s, s[j - 1].key + 1)
  {
    forall i | 0 <= i < |s| ensures s[i].key != s[j - 1].key + 1 {
      assert i < j - 1 ==> s[i].key < s[j - 1].key;
      assert j < i ==> s[j].key < s[i].key;
    }
  }

  lemma {:induction false} FirstFromIs(s: seq<Entry>, p: nat, limit: int)
    requires Strict(s) && FirstFrom(s, p, limit)
    ensures p < |s| && s[p].key >= limit && forall i :: 0 <= i < p ==> s[i].key < limit
  {
    forall i | 0 <= i < p ensures s[i].key < limit { assert s[i].key < s[p].key; }
  }

  /** The chosen number is a 32-bit number that is not in use, except exactly when it wraps around onto 0. */
  lemma {:induction false} ChosenFresh(s: seq<Entry>, limit: nat, id: nat, slot: int)
    requires Strict(s) && Small(s) && id < W32 && Chosen(s, limit, id, slot)
    ensures 0 <= slot < W32
    ensures HasKey(s, slot) <==> WrapsOnto(s, limit)
  {
    if s != [] {
      var last := s[|s| - 1].key;
      LastIs(s);
      if AllBelow(s, limit) {
        if last + 1 == W32 { assert s[|s| - 1].key == W32 - 1; }
      } else {
        var j: nat, p: nat :| HighestGap(s, j, p, limit, id) && slot == s[j - 1].key + 1;
        GapIsFree(s, j);
        FirstFromIs(s, p, limit);
      }
    }
  }

  /** It is at most limit, or it is the wanted number in an empty table. */
  lemma {:induction false} ChosenBound(s: seq<Entry>, limit: nat, id: nat, slot: int)
    requires Strict(s) && Small(s) && Chosen(s, limit, id, slot)
    ensures slot <= limit || (s == [] && slot == id)
  {
    if s != [] && !AllBelow(s, limit) {
      var j: nat, p: nat :| HighestGap(s, j, p, limit, id) && slot == s[j - 1].key + 1;
      FirstFromIs(s, p, limit);
    }
  }

  /** All numbers in use are below limit, and the one after the greatest is below id. */
  ghost predicate StartsBelow(s: seq<Entry>, limit: int, id: int) {
    s != [] && AllBelow(s, limit) && (AllBelow(s, id - 1) || (HasKey(s, W32 - 1) && id > 0))
  }

  /** It is below the wanted number exactly when the table holds only numbers too small to matter. */
  lemma {:induction false} ChosenStart(s: seq<Entry>, limit: nat, id: nat, slot: int)
    requires Strict(s) && Small(s) && id < W32 && Chosen(s, limit, id, slot)
    ensures slot < id <==> StartsBelow(s, limit, id)
  {
    if s != [] {
      LastIs(s);
      if !AllBelow(s, limit) {
        var j: nat, p: nat :| HighestGap(s, j, p, limit, id) && slot == s[j - 1].key + 1;
      }
    }
  }

  lemma {:induction false} SameFirst(s: seq<Entry>, p: nat, q: nat, limit: int)
    requires Strict(s) && FirstFrom(s, p, limit) && FirstFrom(s, q, limit)
    ensures p == q
  {
    FirstFromIs(s, p, limit);
    FirstFromIs(s, q, limit);
  }

  /** A number is chosen exactly when the walk does not run past the least number in use. */
  lemma {:induction false} ChosenOrPast(s: seq<Entry>, limit: int, id: int, slot: int)
    requires Strict(s) && Chosen(s, limit, id, slot)
    ensures !RunsPast(s, limit, id)
  {
    hide Gap;
    forall p: nat | FirstFrom(s, p, limit) ensures !NoGap(s, 0, p, id) {
      FirstFromIs(s, p, limit);
      var j: nat, q: nat :| HighestGap(s, j, q, limit, id) && slot == s[j - 1].key + 1;
      SameFirst(s, p, q, limit);
    }
  }

  /** With every number from id to limit in use, the walk runs past the least number in use. */
  lemma {:induction false} FullRunsPast(s: seq<Entry>, limit: int, id: int)
    requires Strict(s) && id <= limit && forall k: int :: id <= k <= limit ==> HasKey(s, k)
    ensures RunsPast(s, limit, id)
  {
    hide FirstFrom;
    assert HasKey(s, limit);
    var p: nat :| p < |s| && s[p].key == limit;
    FirstAt(s, p, limit);
    forall j | 0 < j <= p ensures !Gap(s, j, id) {
      if Gap(s, j, id) { GapInside(s, j, p, id); }
    }
    assert NoGap(s, 0, p, id);
  }

  lemma {:induction false} GapInside(s: seq<Entry>, j: nat, p: nat, id: int)
    requires Strict(s) && 0 < j <= p < |s| && Gap(s, j, id)
    ensures id <= s[j - 1].key + 1 <= s[p].key && !HasKey(s, s[j - 1].key + 1)
  {
    GapIsFree(s, j);
    assert s[j].key <= s[p].key;
  }

  lemma {:induction false} FirstAt(s: seq<Entry>, p: nat, limit: int)
    requires p < |s| && s[p].key == limit
    ensures FirstFrom(s, p, limit)
  {
  }

  /** Unused numbers below the least number in use are not seen: 3 alone is in use, 0 to 3 are wanted, and the
      walk runs past 3. */
  lemma {:induction false} FreeBelowUnseen()
    ensures var s := [Entry(3, 7)]; RunsPast(s, 3, 0) && forall k :: 0 <= k < 3 ==> !HasKey(s, k)
  {
    var s := [Entry(3, 7)];
    FirstAt(s, 0, 3);
    assert NoGap(s, 0, 0, 0);
  }

  /** Nor is an unused number inside a gap that starts below the wanted one: 0 and 10 are in use, 5 to 10 are
      wanted, 6 is unused, and the walk runs past 0. */
  lemma {:induction false} FreeInsideUnseen()
    ensures var s := [Entry(0, 7), Entry(10, 7)]; RunsPast(s, 10, 5) && forall k :: 5 <= k < 10 ==> !HasKey(s, k)
  {
    var s := [Entry(0, 7), Entry(10, 7)];
    FirstAt(s, 1, 10);
    assert !Gap(s, 1, 5);
    assert NoGap(s, 0, 1, 5);
  }

  lemma {:induction false} SmallAdd(t: Tree, e: Entry)
    requires HeightsOk(t) && Small(InOrder(t)) && 0 <= e.key < W32
    ensures Small(InOrder(Insert(t, e)))
  {
    hide InOrder, Insert, HeightsOk, Place;
    InsertOrder(t, e);
  }

  lemma {:induction false} SmallErase(t: Tree, k: int)
    requires HeightsOk(t) && Small(InOrder(t))
    ensures Small(InOrder(Erase(t, k)))
  {
    hide InOrder, Erase, HeightsOk, Find;
    EraseOrder(t, k);
  }

  class Idr {
    const base: nat
    var root: Tree

    constructor (base: nat)
      requires base < W32
      ensures Valid() && this.base == base && root == Nil
    {
      this.base := base;
      root := Nil;
    }

    ghost predicate Valid()
      reads this
    {
      base < W32 && HeightsOk(root) && Strict(InOrder(root)) && Small(InOrder(root))
    }

    /** idr_find. */
    method Lookup(id: nat) returns (r: Option<int>)
      requires Valid()
      ensures r == if id < base then None else PtrOf(root, id - base)
    {
      hide InOrder, Find, HeightsOk;
      if id < base { return None; }
      var k := id - base;
      var node := root;
      while node.Node?
        invariant PtrOf(root, k) == PtrOf(node, k)
        decreases node
      {
        LookupIs(node, k);
        if k == node.e.key { return Some(node.e.ptr); }
        node := if k < node.e.key then node.left else node.right;
      }
      LookupNil(k);
      r := None;
    }

    /** The walk of idr_alloc_u32 over the numbers in use. */
    method FindSlot(id: nat, limit: nat) returns (slot: Option<nat>)
      requires Valid() && Levels(root) <= MAX_DEPTH + 1 && id < W32 && limit < W64
      ensures slot.Some? ==> Chosen(InOrder(root), limit, id, slot.value)
      ensures slot.None? <==> RunsPast(InOrder(root), limit, id)
    {
      hide InOrder, HeightsOk, Strict, Small, Missing, Nearest, HasKey, Levels, Gap, NoGap, FirstFrom, RunsPast, Chosen;
      ghost var s := InOrder(root);
      StrictIsSorted(s);
      var iter := new Iter(root);
      iter.Start(limit, false, true, true);
      var last := iter.Get();
      if last.Nil? {
        iter.Start(limit, true, false, false);
        last := iter.Get();
        if last.Nil? {
          NothingAtAll(s, limit, id);
          slot := Some(id);
        } else {
          slot := Some((last.e.key + 1) % W32);
          AfterLast(s, iter.Position(), limit, id);
        }
        ChosenOrPast(s, limit, id, slot.value);
        return;
      }
      ghost var p := iter.Position();
      assert FirstFrom(s, p, limit) by { FirstFromIntro(s, p, limit); }
      NoGapStart(s, p, id);
      var node := last;
      while true
        invariant iter.root == root && iter.Valid() && !iter.AtEnd() && fresh(iter) && node.Node?
        invariant iter.Position() <= p && node.e == s[iter.Position()]
        invariant NoGap(s, iter.Position(), p, id)
        decreases iter.Position()
      {
        ghost var q := iter.Position();
        iter.Decrement();
        var prev := iter.Get();
        if prev.Nil? {
          PastIntro(s, p, limit, id);
          return None;
        }
        var n := prev.e.key + 1;
        GapIs(s, q, id);
        if n < node.e.key && n >= id {
          ChosenIntro(s, q, p, limit, id);
          ChosenOrPast(s, limit, id, n);
          return Some(n);
        }
        NoGapStep(s, q, p, id);
        node := prev;
      }
    }

    /** The greatest number wanted, counted from the base as a 64-bit difference. */
    function Limit(max: nat): nat { (max - base) % W64 }

    function Start(nextid: nat): nat { if nextid < base then 0 else nextid - base }

    /** The number stored for an identifier. */
    function Slot(id: nat): nat { (id - base) % W32 }

    /** idr_alloc_u32; memory says whether the node for the number can be allocated. */
    method Alloc(ptr: int, nextid: nat, max: nat, memory: bool) returns (r: Outcome)
      requires Valid() && Levels(root) <= MAX_DEPTH + 1 && nextid < W32 && max < W64
      modifies this
      ensures r.NullRead? <==> RunsPast(InOrder(old(root)), Limit(max), Start(nextid))
      ensures r.NoMemory? <==> !r.NullRead? && !memory
      ensures r.NullRead? || r.NoMemory? ==> root == old(root)
      ensures r.Allocated? ==> && r.id < W32 && Chosen(InOrder(old(root)), Limit(max), Start(nextid), Slot(r.id))
                               && root == Insert(old(root), Entry(Slot(r.id), ptr))
      ensures Valid() <==> !r.Allocated? || !WrapsOnto(InOrder(old(root)), Limit(max))
      ensures r.Allocated? && Valid() ==> && !InUse(old(root), Slot(r.id)) && PtrOf(root, Slot(r.id)) == Some(ptr)
                                          && forall k: int :: InUse(root, k) <==> InUse(old(root), k) || k == Slot(r.id)
      ensures r.Allocated? && base <= max < W32 ==> && r.id == base + Slot(r.id) && Valid()
                                                    && (r.id <= max || (old(root).Nil? && nextid > max))
      ensures r.Allocated? && base <= max < W32 ==>
                (r.id < nextid <==> base <= nextid && StartsBelow(InOrder(old(root)), max - base, nextid - base))
      ensures Balanced(old(root)) ==> Balanced(root)
    {
      hide InOrder, HeightsOk, Strict, Small, Nearest, HasKey, Levels, RunsPast, Chosen, Insert, Find, WrapsOnto,
           StartsBelow, Balanced, InUse, PtrOf;
      var id, limit := Start(nextid), Limit(max);
      var slot := FindSlot(id, limit);
      if slot.None? {
        return NullRead;
      }
      if !memory { return NoMemory; }
      var e := Entry(slot.value, ptr);
      ghost var s := InOrder(root);
      AddChosen(root, e, limit, id);
      ChosenBound(s, limit, id, slot.value);
      ChosenStart(s, limit, id, slot.value);
      NoWrap(s, limit);
      EmptyTree(root);
      root := Insert(root, e);
      r := Allocated((base + slot.value) % W32);
      SlotOf(base, slot.value);
    }

    /** idr_remove. */
    method Remove(id: nat) returns (r: Option<int>)
      requires Valid()
      modifies this
      ensures Valid() && r == (if id < base then None else PtrOf(old(root), id - base))
      ensures r.None? ==> root == old(root)
      ensures r.Some? ==> forall k: int :: InUse(root, k) <==> InUse(old(root), k) && k != id - base
      ensures r.Some? && Balanced(old(root)) ==> (Balanced(root) <==> EraseSafe(old(root), id - base))
    {
      hide InOrder, HeightsOk, Strict, Small, HasKey, Find, Erase, Balanced, EraseSafe;
      r := Lookup(id);
      if r.Some? {
        if Balanced(root) { EraseBalance(root, id - base); }
        RemoveKey(root, id - base);
        SmallErase(root, id - base);
        root := Erase(root, id - base);
      }
    }
  }

  lemma {:induction false} LookupNil(k: int)
    ensures PtrOf(Nil, k) == None
  {
  }

  lemma {:induction false} EmptyTree(t: Tree)
    ensures InOrder(t) == [] <==> t.Nil?
  {
    Steps(t);
  }

  lemma {:induction false} SlotOf(base: nat, slot: nat)
    requires base < W32 && slot < W32
    ensures ((base + slot) % W32 - base) % W32 == slot
  {
  }

  lemma {:induction false} NoWrap(s: seq<Entry>, limit: int)
    ensures limit < W32 ==> !WrapsOnto(s, limit)
  {
  }

  lemma {:induction false} GrownIs(t: Tree, r: Tree)
    requires Grown(t, r)
    ensures Balanced(r)
  {
  }

  lemma {:induction false} NothingAtAll(s: seq<Entry>, limit: int, id: int)
    requires Missing(s, limit, false, true, true) && Missing(s, limit, true, false, false)
    ensures Chosen(s, limit, id, id)
  {
    if s != [] { FirstKey(s, limit); }
  }

  lemma {:induction false} FirstKey(s: seq<Entry>, limit: int)
    requires s != []
    ensures !Missing(s, limit, false, true, true) || !Missing(s, limit, true, false, false)
  {
    assert s[0].key < limit || s[0].key >= limit;
  }

  /** With nothing at or above limit, the greatest number below it is the greatest of all. */
  lemma {:induction false} AfterLast(s: seq<Entry>, p: nat, limit: int, id: int)
    requires Strict(s) && Missing(s, limit, false, true, true) && Nearest(s, p, limit, true, false, false)
    ensures Chosen(s, limit, id, (s[p].key + 1) % W32)
  {
    LastIs(s);
    assert s[|s| - 1].key < limit;
  }

  lemma {:induction false} FirstFromIntro(s: seq<Entry>, p: nat, limit: int)
    requires Nearest(s, p, limit, false, true, true)
    ensures FirstFrom(s, p, limit) && p < |s|
  {
  }

  lemma {:induction false} NoGapStart(s: seq<Entry>, p: nat, id: int)
    requires p < |s|
    ensures NoGap(s, p, p, id)
  {
  }

  lemma {:induction false} NoGapStep(s: seq<Entry>, q: nat, p: nat, id: int)
    requires 0 < q <= p < |s| && NoGap(s, q, p, id) && !Gap(s, q, id)
    ensures NoGap(s, q - 1, p, id)
  {
  }

  lemma {:induction false} GapIs(s: seq<Entry>, j: nat, id: int)
    requires 0 < j < |s|
    ensures Gap(s, j, id) <==> s[j - 1].key + 1 < s[j].key && s[j - 1].key + 1 >= id
  {
  }

  lemma {:induction false} PastIntro(s: seq<Entry>, p: nat, limit: int, id: int)
    requires FirstFrom(s, p, limit) && p < |s| && NoGap(s, 0, p, id)
    ensures RunsPast(s, limit, id)
  {
    hide FirstFrom, NoGap;
  }

  lemma {:induction false} ChosenIntro(s: seq<Entry>, j: nat, p: nat, limit: int, id: int)
    requires 0 < j <= p < |s| && Strict(s) && FirstFrom(s, p, limit) && Gap(s, j, id) && NoGap(s, j, p, id)
    ensures Chosen(s, limit, id, s[j - 1].key + 1)
  {
    FirstFromIs(s, p, limit);
    assert HighestGap(s, j, p, limit, id);
  }

  /** A number that is in use can be inserted once more, and then it is there twice. */
  lemma {:induction false} AddTaken(t: Tree, e: Entry)
    requires HeightsOk(t) && InUse(t, e.key)
    ensures !Strict(InOrder(Insert(t, e)))
  {
    hide InOrder, Insert, HeightsOk, Place;
    var p, s := Place(t, e.key), InOrder(t);
    InsertOrder(t, e);
    var r := InOrder(Insert(t, e));
    var i :| 0 <= i < |s| && s[i].key == e.key;
    assert r[p] == e;
    var k := if i < p then i else i + 1;
    assert r[k] == s[i];
    if k < p { assert !(r[k].key < r[p].key); } else { assert !(r[p].key < r[k].key); }
  }

  /** Adding the chosen number: a new one with its pointer, or 0 a second time. */
  lemma {:induction false} AddChosen(t: Tree, e: Entry, limit: nat, id: nat)
    requires HeightsOk(t) && Strict(InOrder(t)) && Small(InOrder(t)) && id < W32 && Chosen(InOrder(t), limit, id, e.key)
    ensures 0 <= e.key < W32 && Small(InOrder(Insert(t, e)))
    ensures Strict(InOrder(Insert(t, e))) <==> !WrapsOnto(InOrder(t), limit)
    ensures !WrapsOnto(InOrder(t), limit) ==> && !InUse(t, e.key) && PtrOf(Insert(t, e), e.key) == Some(e.ptr)
                                              && forall k: int :: InUse(Insert(t, e), k) <==> InUse(t, k) || k == e.key
    ensures Balanced(t) ==> Balanced(Insert(t, e))
  {
    hide InOrder, HeightsOk, Strict, Small, HasKey, Chosen, Insert, Find, WrapsOnto, Balanced, PtrOf;
    ChosenFresh(InOrder(t), limit, id, e.key);
    if WrapsOnto(InOrder(t), limit) { AddTaken(t, e); } else { AddFresh(t, e); }
    SmallAdd(t, e);
    if Balanced(t) { InsertBalanced(t, e); GrownIs(t, Insert(t, e)); }
  }

  /** Allocating 3 in an empty table and then any number up to 3: the second search reads through a null pointer. */
  method AllocateTwice() returns (first: Outcome, second: Outcome)
    ensures first == Allocated(3) && second.NullRead?
  {
    hide Insert, RunsPast, HeightsOk, WrapsOnto, StartsBelow, Find, Levels;
    var table := new Idr(0);
    EmptyPast(10, 3);
    NilLevels();
    first := table.Alloc(7, 3, 10, true);
    OneEntry(table.root, Entry(3, 7));
    FreeBelowUnseen();
    second := table.Alloc(8, 0, 3, true);
  }

  lemma {:induction false} EmptyPast(limit: int, id: int)
    ensures InOrder(Nil) == [] && !RunsPast(InOrder(Nil), limit, id)
  {
  }

  lemma {:induction false} NilLevels()
    ensures Levels(Nil) == 0
  {
  }

  lemma {:induction false} OneEntry(t: Tree, e: Entry)
    requires t == Insert(Nil, e)
    ensures InOrder(t) == [e] && Levels(t) == 1
  {
    assert t == Node(Nil, e, 1, Nil);
  }
}
