/** Attribute access in stored tuples, with offsets cached in the shared tuple descriptor. */
module AttrCache {
  // ----- attributes and tuples

  /** The storage of an attribute: a positive length, -1 for a variable-length value with a header, -2 for a
      zero-terminated string; and its alignment. */
  datatype Attr = Attr(len: int, align: char)

  predicate BitSet(b: bv8, k: nat)
    requires k < 8
  {
    b & ((1 as bv8) << k) != 0
  }

  /** A stored tuple: its two flags, its null map (a bit per attribute, clear for null) and its data
      area. */
  datatype Tup = Tup(hasNulls: bool, hasVarWidth: bool, bits: seq<bv8>, data: seq<nat>) {
    predicate IsNull(i: nat) { hasNulls && i / 8 < |bits| && !BitSet(bits[i / 8], i % 8) }

    function Byte(off: nat): nat { if off < |data| then data[off] else 0 }
  }

  /** att_align_nominal. */
  function Aligned(off: nat, align: char): (r: nat)
    ensures off <= r
  {
    if align == 'i' then (off + 3) / 4 * 4
    else if align == 'c' then off
    else if align == 'd' then (off + 7) / 8 * 8
    else (off + 1) / 2 * 2
  }

  /** att_align_pointer: a variable-length value with a short header is not padded. */
  function AlignedAt(t: Tup, off: nat, a: Attr): nat {
    if a.len == -1 && t.Byte(off) != 0 then off else Aligned(off, a.align)
  }

  /** The length in a variable-length header: external, short (one byte) or long (four bytes). */
  function VarSize(t: Tup, off: nat): nat {
    var h := t.Byte(off);
    if h == 1 then 0
    else if h % 2 == 1 then h / 2 % 128
    else (h + 0x100 * t.Byte(off + 1) + 0x1_0000 * t.Byte(off + 2) + 0x100_0000 * t.Byte(off + 3)) / 4 % 0x4000_0000
  }

  function StringLength(t: Tup, off: nat): nat
    decreases |t.data| - off
  {
    if off >= |t.data| || t.data[off] == 0 then 0 else 1 + StringLength(t, off + 1)
  }

  /** att_addlength_pointer. */
  function After(t: Tup, off: nat, a: Attr): nat {
    if a.len > 0 then off + a.len
    else if a.len == -1 then off + VarSize(t, off)
    else off + StringLength(t, off) + 1
  }

  // ----- the plain walk

  /** Where the walk stands after the attributes before i. */
  ghost function WalkTo(attrs: seq<Attr>, t: Tup, i: nat): nat
    requires i <= |attrs|
  {
    if i == 0 then 0
    else if t.IsNull(i - 1) then WalkTo(attrs, t, i - 1)
    else After(t, AlignedAt(t, WalkTo(attrs, t, i - 1), attrs[i - 1]), attrs[i - 1])
  }

  /** The offset of attribute i by the plain, uncached walk. */
  ghost function OffsetOf(attrs: seq<Attr>, t: Tup, i: nat): nat
    requires i < |attrs|
  {
    AlignedAt(t, WalkTo(attrs, t, i), attrs[i])
  }

  // ----- the fixed-width prefix

  ghost predicate FixedBefore(attrs: seq<Attr>, i: nat)
    requires i <= |attrs|
  {
    forall j :: 0 <= j < i ==> attrs[j].len > 0
  }

  /** Where attributes before i end when they all have fixed width and none is null. */
  ghost function FixedEnd(attrs: seq<Attr>, i: nat): nat
    requires i <= |attrs| && FixedBefore(attrs, i)
  {
    if i == 0 then 0 else Aligned(FixedEnd(attrs, i - 1), attrs[i - 1].align) + attrs[i - 1].len
  }

  ghost predicate NoNullBefore(t: Tup, i: nat) {
    forall j :: 0 <= j < i ==> !t.IsNull(j)
  }

  /** Over a fixed-width prefix without nulls the walk does not look at the data. */
  lemma {:induction false} WalkFixed(attrs: seq<Attr>, t: Tup, i: nat)
    requires i <= |attrs| && FixedBefore(attrs, i) && NoNullBefore(t, i)
    ensures WalkTo(attrs, t, i) == FixedEnd(attrs, i)
    decreases i
  {
    hide Aligned;
    if i > 0 { WalkFixed(attrs, t, i - 1); }
  }

  // ----- the cache

  /** A cached offset is that of the fixed-width prefix; a variable-length attribute is cached only where
      the prefix ends aligned. */
  ghost predicate EntryOk(attrs: seq<Attr>, i: nat, off: int)
    requires i < |attrs|
  {
    && off >= -1
    && (off >= 0 ==> FixedBefore(attrs, i) && off == Aligned(FixedEnd(attrs, i), attrs[i].align)
                     && (attrs[i].len == -1 ==> off == FixedEnd(attrs, i)))
  }

  /** All entries are right, and those that are set form a prefix. */
  ghost predicate CacheOk(attrs: seq<Attr>, cache: seq<int>) {
    && |cache| == |attrs|
    && (forall i: nat :: i < |attrs| ==> EntryOk(attrs, i, cache[i]))
    && (forall i, j :: 0 <= j < i < |cache| && cache[i] >= 0 ==> cache[j] >= 0)
  }

  /** The flags tell the truth about the tuple. */
  ghost predicate TupOk(attrs: seq<Attr>, t: Tup) {
    && (t.hasNulls ==> |attrs| <= 8 * |t.bits|)
    && (!t.hasVarWidth ==> forall i :: 0 <= i < |attrs| && !t.IsNull(i) ==> attrs[i].len > 0)
  }

  /** The mask test for a clear bit below f. */
  lemma {:induction false} MaskTest(b: bv8, f: nat)
    requires f < 8
    ensures (!b) & (((1 as bv8) << f) - 1) == 0 <==> forall k :: 0 <= k < f ==> BitSet(b, k)
  {
    var mask: bv8 := ((1 as bv8) << f) - 1;
    assert mask == if f == 0 then 0 else if f == 1 then 1 else if f == 2 then 3 else if f == 3 then 7
                   else if f == 4 then 15 else if f == 5 then 31 else if f == 6 then 63 else 127;
    MaskSteps(b);
    hide BitSet;
    forall k | 0 <= k < f ensures (!b) & mask == 0 ==> BitSet(b, k) { BitCases(b, k); }
  }

  lemma {:induction false} BitCases(b: bv8, k: nat)
    requires k < 8
    ensures BitSet(b, k) == if k == 0 then BitSet(b, 0) else if k == 1 then BitSet(b, 1) else if k == 2
            then BitSet(b, 2)
                       else if k == 3 then BitSet(b, 3) else if k == 4 then BitSet(b, 4) else if k == 5
                         then BitSet(b, 5)
                       else if k == 6 then BitSet(b, 6) else BitSet(b, 7)
  {
    hide BitSet;
  }

  lemma {:induction false} MaskSteps(b: bv8)
    ensures (!b) & 0 == 0 && ((!b) & 1 == 0 <==> BitSet(b, 0))
    ensures (!b) & 3 == 0 <==> BitSet(b, 0) && BitSet(b, 1)
    ensures (!b) & 7 == 0 <==> BitSet(b, 0) && BitSet(b, 1) && BitSet(b, 2)
    ensures (!b) & 15 == 0 <==> BitSet(b, 0) && BitSet(b, 1) && BitSet(b, 2) && BitSet(b, 3)
    ensures (!b) & 31 == 0 <==> BitSet(b, 0) && BitSet(b, 1) && BitSet(b, 2) && BitSet(b, 3) && BitSet(b, 4)
    ensures (!b) & 63 == 0 <==> BitSet(b, 0) && BitSet(b, 1) && BitSet(b, 2) && BitSet(b, 3) && BitSet(b, 4)
                                && BitSet(b, 5)
    ensures (!b) & 127 == 0 <==> BitSet(b, 0) && BitSet(b, 1) && BitSet(b, 2) && BitSet(b, 3) && BitSet(b, 4)
                                 && BitSet(b, 5) && BitSet(b, 6)
    ensures b == 255 <==> BitSet(b, 0) && BitSet(b, 1) && BitSet(b, 2) && BitSet(b, 3) && BitSet(b, 4)
                          && BitSet(b, 5) && BitSet(b, 6) && BitSet(b, 7)
  {
  }

  lemma {:induction false} FullByte(b: bv8)
    ensures b == 0xFF <==> forall k :: 0 <= k < 8 ==> BitSet(b, k)
  {
    MaskSteps(b);
    if b == 0xFF {
      forall k | 0 <= k < 8 ensures BitSet(b, k) { BitCases(b, k); }
    }
  }

  lemma {:induction false} CachedIsRight(attrs: seq<Attr>, t: Tup, i: nat, off: int)
    requires i < |attrs| && NoNullBefore(t, i) && EntryOk(attrs, i, off) && off >= 0
    ensures off == OffsetOf(attrs, t, i)
  {
    hide Aligned;
    WalkFixed(attrs, t, i);
  }

  lemma {:induction false} CacheSet(attrs: seq<Attr>, cache: seq<int>, i: nat, off: int)
    requires CacheOk(attrs, cache) && i < |attrs| && EntryOk(attrs, i, off) && off >= 0
    requires forall j :: 0 <= j < i ==> cache[j] >= 0
    ensures CacheOk(attrs, cache[i := off])
  {
    hide EntryOk;
  }

  /** A scan key: the attribute, from 1 on, and the outcome of its comparison with a value of a tuple at an offset;
      a system attribute, 0 or below, reads as one constant value. */
  datatype HeapKey = HeapKey(attno: int, test: (Tup, nat) -> bool, systemTest: bool)

  ghost predicate KeysFit(keys: seq<HeapKey>, natts: nat) {
    forall k :: 0 <= k < |keys| ==> keys[k].attno <= natts
  }

  /** A null passes no key. */
  ghost predicate KeyHolds(attrs: seq<Attr>, t: Tup, key: HeapKey) {
    if key.attno <= 0 then key.systemTest
    else key.attno <= |attrs| && !t.IsNull(key.attno - 1) && key.test(t, OffsetOf(attrs, t, key.attno - 1))
  }

  /** The tuple passes every key, by the plain walk. */
  ghost predicate Passes(attrs: seq<Attr>, t: Tup, keys: seq<HeapKey>) {
    forall k :: 0 <= k < |keys| ==> KeyHolds(attrs, t, keys[k])
  }

  /** A tuple descriptor; the cached offsets are shared by all tuples. */
  class TupleDesc {
    const attrs: seq<Attr>
    var cache: seq<int>

    constructor (attrs: seq<Attr>)
      ensures this.attrs == attrs && Valid()
    {
      this.attrs := attrs;
      cache := seq(|attrs|, i => -1);
    }

    ghost predicate Valid()
      reads this
    {
      |cache| == |attrs| && CacheOk(attrs, cache)
    }

    /** One attribute of the walk that also fills the cache: its offset, and whether the cache may still be
        used. */
    method Visit(t: Tup, i: nat, off: nat, usecache: bool) returns (r: nat, use: bool)
      requires Valid() && i < |attrs| && !t.IsNull(i) && off == WalkTo(attrs, t, i)
      requires usecache ==> FixedBefore(attrs, i) && NoNullBefore(t, i) && forall j :: 0 <= j < i ==> cache[j] >= 0
      modifies this
      ensures Valid() && r == OffsetOf(attrs, t, i) && (use ==> usecache)
      ensures use ==> cache[i] >= 0 && forall j :: 0 <= j < i ==> cache[j] >= 0
    {
      hide Aligned, CacheOk, t.IsNull;
      var a := attrs[i];
      r, use := off, usecache;
      CacheAt(attrs, cache, i);
      if usecache {
        WalkFixed(attrs, t, i);
        assert off == FixedEnd(attrs, i);
      }
      if usecache && cache[i] >= 0 {
        CachedIsRight(attrs, t, i, cache[i]);
        r := cache[i];
      } else if a.len == -1 {
        if usecache && off == Aligned(off, a.align) {
          CacheSet(attrs, cache, i, off);
          cache := cache[i := off];
        } else {
          r := AlignedAt(t, off, a);
          use := false;
        }
      } else {
        r := Aligned(off, a.align);
        if usecache {
          CacheSet(attrs, cache, i, r);
          cache := cache[i := r];
        }
      }
    }

    /** The walk of nocachegetattr when nulls or variable widths come before the attribute. */
    method SlowWalk(t: Tup, attnum: nat) returns (off: nat)
      requires Valid() && attnum < |attrs| && !t.IsNull(attnum)
      modifies this
      ensures Valid() && off == OffsetOf(attrs, t, attnum)
    {
      hide Aligned, CacheOk, After, AlignedAt, t.IsNull, EntryOk;
      var usecache := true;
      off := 0;
      var i := 0;
      while true
        invariant 0 <= i <= attnum && Valid() && off == WalkTo(attrs, t, i)
        invariant |cache| == |attrs|
        invariant usecache ==> FixedBefore(attrs, i) && NoNullBefore(t, i) && forall j :: 0 <= j < i ==> cache[j] >= 0
        decreases attnum - i
      {
        if t.IsNull(i) {
          usecache := false;
          i := i + 1;
          continue;
        }
        off, usecache := Visit(t, i, off, usecache);
        CacheAt(attrs, cache, i);
        if i == attnum { break; }
        off := After(t, off, attrs[i]);
        if usecache && attrs[i].len <= 0 { usecache := false; }
        i := i + 1;
      }
    }

    /** The other path of nocachegetattr: fill the cache over the whole fixed-width prefix. */
    method FillPrefix(attnum: nat)
      requires Valid() && attnum < |attrs| && FixedBefore(attrs, attnum + 1) && cache[attnum] < 0
      modifies this
      ensures Valid() && cache[attnum] >= 0
    {
      hide Aligned, CacheOk;
      CacheAt(attrs, cache, 0);
      ZeroEntry(attrs);
      CacheSet(attrs, cache, 0, 0);
      cache := cache[0 := 0];
      CacheAt(attrs, cache, 0);
      if attnum == 0 { FillRest(1, attrs[0].len); return; }
      var j := 1;
      while j < |attrs| && cache[j] > 0
        invariant 1 <= j <= attnum && cache[attnum] < 0 && forall k :: 0 <= k < j ==> cache[k] >= 0
      {
        j := j + 1;
      }
      CacheAt(attrs, cache, j - 1);
      FillRest(j, cache[j - 1] + attrs[j - 1].len);
    }

    method FillRest(from: nat, start: int)
      requires Valid() && 1 <= from <= |attrs| && FixedBefore(attrs, from) && start == FixedEnd(attrs, from)
      requires forall k :: 0 <= k < from ==> cache[k] >= 0
      modifies this
      ensures Valid() && forall k :: 0 <= k < from ==> cache[k] >= 0
      ensures forall k :: from <= k < |attrs| && FixedBefore(attrs, k + 1) ==> cache[k] >= 0
    {
      hide Aligned, CacheOk;
      var off, j := start, from;
      while j < |attrs|
        invariant from <= j <= |attrs| && Valid() && |cache| == |attrs|
        invariant FixedBefore(attrs, j) && off == FixedEnd(attrs, j) && forall k :: 0 <= k < j ==> cache[k] >= 0
      {
        if attrs[j].len <= 0 { break; }
        off := Aligned(off, attrs[j].align);
        CacheSet(attrs, cache, j, off);
        cache := cache[j := off];
        off := off + attrs[j].len;
        j := j + 1;
      }
    }

    /** Whether an attribute before attnum is null: a mask for its own byte of the map, then whole bytes. */
    method NullBefore(t: Tup, attnum: nat) returns (slow: bool)
      requires t.hasNulls ==> attnum < 8 * |t.bits|
      ensures slow <==> !NoNullBefore(t, attnum)
    {
      hide BitSet;
      slow := false;
      if t.hasNulls {
        var byte, finalbit := attnum / 8, attnum % 8;
        MaskTest(t.bits[byte], finalbit);
        if (!t.bits[byte]) & (((1 as bv8) << finalbit) - 1) != 0 {
          NullInByte(t, byte, finalbit);
          slow := true;
        } else {
          var i := 0;
          while i < byte
            invariant 0 <= i <= byte && forall j :: 0 <= j < i ==> t.bits[j] == 0xFF
          {
            FullByte(t.bits[i]);
            if t.bits[i] != 0xFF {
              NullInByte(t, i, 8);
              return true;
            }
            i := i + 1;
          }
          forall j | 0 <= j < attnum ensures !t.IsNull(j) {
            if j / 8 < byte { FullByte(t.bits[j / 8]); }
          }
        }
      }
    }

    /** nocachegetattr: the offset of an attribute that is not null. */
    method GetAttr(t: Tup, attnum: nat) returns (off: nat)
      requires Valid() && attnum < |attrs| && !t.IsNull(attnum) && TupOk(attrs, t)
      modifies this
      ensures Valid() && off == OffsetOf(attrs, t, attnum)
    {
      hide Aligned, CacheOk, t.IsNull;
      var slow := NullBefore(t, attnum);
      CacheAt(attrs, cache, attnum);
      if !slow {
        if cache[attnum] >= 0 {
          CachedIsRight(attrs, t, attnum, cache[attnum]);
          return cache[attnum];
        }
        if t.hasVarWidth {
          var j := 0;
          while j <= attnum && !slow
            invariant 0 <= j <= attnum + 1 && (!slow ==> FixedBefore(attrs, j))
            decreases attnum + 1 - j, !slow
          {
            if attrs[j].len <= 0 { slow := true; } else { j := j + 1; }
          }
        }
      }
      if !slow {
        assert FixedBefore(attrs, attnum + 1);
        FillPrefix(attnum);
        CacheAt(attrs, cache, attnum);
        CachedIsRight(attrs, t, attnum, cache[attnum]);
        off := cache[attnum];
      } else {
        off := SlowWalk(t, attnum);
      }
    }

    /** fastgetattr: null, or the offset of the attribute. */
    method FastGetAttr(t: Tup, attnum: nat) returns (isnull: bool, off: nat)
      requires Valid() && attnum < |attrs| && TupOk(attrs, t)
      modifies this
      ensures Valid() && isnull == t.IsNull(attnum) && (!isnull ==> off == OffsetOf(attrs, t, attnum))
    {
      hide Aligned, CacheOk, BitSet;
      isnull, off := false, 0;
      CacheAt(attrs, cache, attnum);
      if !t.hasNulls {
        if cache[attnum] >= 0 {
          CachedIsRight(attrs, t, attnum, cache[attnum]);
          off := cache[attnum];
        } else {
          off := GetAttr(t, attnum);
        }
      } else if t.IsNull(attnum) {
        isnull := true;
      } else {
        off := GetAttr(t, attnum);
      }
    }

    /** HeapKeyTest: what it answers does not depend on the cache. */
    method KeyTest(t: Tup, keys: seq<HeapKey>) returns (ok: bool)
      requires Valid() && TupOk(attrs, t) && KeysFit(keys, |attrs|)
      modifies this
      ensures Valid() && (ok <==> Passes(attrs, t, keys))
    {
      hide CacheOk, TupOk, OffsetOf;
      for k := 0 to |keys|
        invariant Valid() && forall j :: 0 <= j < k ==> KeyHolds(attrs, t, keys[j])
      {
        var key := keys[k];
        if key.attno > 0 {
          var isnull, off := FastGetAttr(t, key.attno - 1);
          if isnull { return false; }
          if !key.test(t, off) { return false; }
        } else if !key.systemTest {
          return false;
        }
      }
      ok := true;
    }

    /** heap_deform_tuple: all attributes in one walk. */
    method Deform(t: Tup, tupNatts: nat) returns (offs: seq<nat>, isnull: seq<bool>)
      requires Valid()
      modifies this
      ensures Valid()
      ensures |offs| == |isnull| == if tupNatts > |attrs| then |attrs| else tupNatts
      ensures forall i :: 0 <= i < |offs| ==>
                isnull[i] == t.IsNull(i) && (!isnull[i] ==> offs[i] == OffsetOf(attrs, t, i))
    {
      hide Aligned, CacheOk, After, AlignedAt, t.IsNull, EntryOk;
      var natts := if tupNatts > |attrs| then |attrs| else tupNatts;
      var slow := false;
      var off := 0;
      offs, isnull := [], [];
      var i := 0;
      while i < natts
        invariant 0 <= i <= natts && |offs| == |isnull| == i && Valid() && off == WalkTo(attrs, t, i)
        invariant forall j :: 0 <= j < i ==>
                    isnull[j] == t.IsNull(j) && (!isnull[j] ==> offs[j] == OffsetOf(attrs, t, j))
        invariant !slow ==> FixedBefore(attrs, i) && NoNullBefore(t, i) && forall j :: 0 <= j < i ==> cache[j] >= 0
      {
        NullFlag(t, i);
        if t.hasNulls && t.IsNull(i) {
          offs, isnull := offs + [0], isnull + [true];
          slow := true;
        } else {
          var r, use := Visit(t, i, off, !slow);
          slow := !use;
          offs, isnull := offs + [r], isnull + [false];
          off := After(t, r, attrs[i]);
          if attrs[i].len <= 0 { slow := true; }
        }
        i := i + 1;
      }
    }
  }

  lemma {:induction false} NullFlag(t: Tup, i: nat)
    ensures t.IsNull(i) ==> t.hasNulls
  {
  }

  lemma {:induction false} NullInByte(t: Tup, b: nat, f: nat)
    requires t.hasNulls && b < |t.bits| && f <= 8 && exists k :: 0 <= k < f && !BitSet(t.bits[b], k)
    ensures exists j :: 8 * b <= j < 8 * b + f && t.IsNull(j)
  {
    hide BitSet;
    var k :| 0 <= k < f && !BitSet(t.bits[b], k);
    assert t.IsNull(8 * b + k);
  }

  lemma {:induction false} CacheAt(attrs: seq<Attr>, cache: seq<int>, i: nat)
    requires CacheOk(attrs, cache) && i < |attrs|
    ensures |cache| == |attrs| && EntryOk(attrs, i, cache[i])
  {
  }

  lemma {:induction false} ZeroEntry(attrs: seq<Attr>)
    requires attrs != []
    ensures EntryOk(attrs, 0, 0)
  {
  }
}
