/** Batches of tuples for the host: each call fills a buffer with length-prefixed tuples and steps the scan
    back when the next one does not fit. */
module TableBatch {
  import opened Common
  import opened AttrCache
  import opened HeapScan

  // ----- the format of a batch

  /** A tuple behind its length in two bytes, low byte first. */
  function Encode(t: Tuple): seq<nat> {
    [|t| % 256, |t| / 256 % 256] + t
  }

  function EncodeAll(ts: seq<Tuple>): seq<nat> {
    if ts == [] then [] else EncodeAll(ts[..|ts| - 1]) + Encode(ts[|ts| - 1])
  }

  /** What the host reads back from a batch. */
  function Decode(s: seq<nat>): Option<seq<seq<nat>>> {
    if s == [] then Some([])
    else if |s| < 2 then None
    else
      var n := s[0] + 256 * s[1];
      if |s| < 2 + n then None
      else
        var rest := Decode(s[2 + n..]);
        if rest.None? then None else Some([s[2..2 + n]] + rest.value)
  }

  lemma {:induction false} EncodeAllCons(ts: seq<Tuple>)
    requires ts != []
    ensures EncodeAll(ts) == Encode(ts[0]) + EncodeAll(ts[1..])
  {
    hide Encode, EncodeAll;
    var n := |ts| - 1;
    EncodeAllStep(ts);
    if n == 0 {
      EncodeAllStep(ts[..0]);
      EncodeAllStep(ts[1..]);
      assert [] + Encode(ts[0]) == Encode(ts[0]) + [];
    } else {
      EncodeAllCons(ts[..n]);
      EncodeAllStep(ts[1..]);
      assert ts[..n][1..] == ts[1..][..n - 1];
    }
  }

  lemma {:induction false} EncodeAllStep(ts: seq<Tuple>)
    ensures ts == [] ==> EncodeAll(ts) == []
    ensures ts != [] ==> EncodeAll(ts) == EncodeAll(ts[..|ts| - 1]) + Encode(ts[|ts| - 1])
  {
  }

  /** Decoding a batch gives back its tuples. */
  lemma {:induction false} RoundTrip(ts: seq<Tuple>)
    ensures Decode(EncodeAll(ts)) == Some(ts)
    decreases |ts|
  {
    if ts != [] {
      hide EncodeAll, Encode, Decode;
      RoundTrip(ts[1..]);
      EncodeAllCons(ts);
      DecodeCons(ts[0], EncodeAll(ts[1..]), ts[1..]);
      assert ts == [ts[0]] + ts[1..];
    }
  }

  lemma {:induction false} EncodeAppend(w: seq<Tuple>, from: nat, d: nat)
    requires from <= d < |w|
    ensures EncodeAll(w[from..d + 1]) == EncodeAll(w[from..d]) + ([|w[d]| % 256, |w[d]| / 256 % 256] + w[d])
  {
    var x := w[from..d + 1];
    assert x[..|x| - 1] == w[from..d];
  }

  lemma {:induction false} EncodeNone(w: seq<Tuple>, d: nat)
    requires d <= |w|
    ensures EncodeAll(w[d..d]) == []
  {
  }

  lemma {:induction false} DecodeCons(t: Tuple, s: seq<nat>, ts: seq<seq<nat>>)
    requires Decode(s) == Some(ts)
    ensures Decode(Encode(t) + s) == Some([t] + ts)
  {
    var e := Encode(t) + s;
    var n := |t|;
    assert e[0] + 256 * e[1] == n;
    assert e[2..2 + n] == t;
    assert e[2 + n..] == s;
  }

  // ----- the batching loop

  class TableScan {
    const scan: Scan
    var finished: bool
    var totalCount: nat

    constructor (blocks: seq<seq<Tuple>>, attrs: seq<Attr>, parse: Tuple -> Tup, keys: seq<HeapKey>)
      requires TuplesOk(blocks, attrs, parse) && KeysFit(keys, |attrs|)
      ensures Valid() && fresh(scan) && fresh(scan.desc) && Delivered() == 0
      ensures scan.blocks == blocks && scan.keep == Keeps(attrs, parse, keys)
    {
      hide TuplesOk, KeysFit;
      scan := new Scan(blocks, attrs, parse, keys);
      finished, totalCount := false, 0;
    }

    ghost function Wanted(): seq<Tuple> { Kept(scan.All(), scan.keep) }

    /** How many of the wanted tuples have been delivered. */
    ghost function Delivered(): nat
      reads this, scan, scan.desc
      requires scan.Valid()
    {
      if finished then |Wanted()| else if scan.inited then Rank(scan.All(), scan.keep, scan.Position()) + 1 else 0
    }

    ghost predicate Valid()
      reads this, scan, scan.desc
    {
      scan.Valid() && totalCount == Delivered() <= |Wanted()|
    }

    /** A forward step reaches the wanted tuple after the delivered ones, if there is one. */
    method StepForward()
      requires scan.Valid() && !finished
      modifies scan, scan.desc
      ensures scan.Valid() && old(Delivered()) <= |Wanted()|
      ensures scan.tuple.Some? <==> old(Delivered()) < |Wanted()|
      ensures scan.tuple.Some? ==> scan.inited && Delivered() == old(Delivered()) + 1
                                   && scan.tuple.value == Wanted()[old(Delivered())]
    {
      hide Kept, Rank, Flat;
      ghost var s, keep := scan.All(), scan.keep;
      ghost var from := if scan.inited then scan.Position() + 1 else 0;
      ghost var before := Delivered();
      if scan.inited { RankStep(s, keep, from - 1); } else { RankZero(s, keep); }
      scan.GetForward();
      if scan.inited {
        RankSkip(s, keep, from, scan.Position());
        KeptAt(s, keep, scan.Position());
      } else {
        RankSkip(s, keep, from, |s|);
        RankAll(s, keep);
      }
    }

    /** A backward step undoes the last forward step. */
    method StepBackward()
      requires scan.Valid() && !finished && scan.inited
      modifies scan, scan.desc
      ensures scan.Valid() && Delivered() == old(Delivered()) - 1
    {
      hide Kept, Rank, Flat;
      ghost var s, keep := scan.All(), scan.keep;
      ghost var to := scan.Position();
      scan.GetBackward();
      if scan.inited {
        RankStep(s, keep, scan.Position());
        RankSkip(s, keep, scan.Position() + 1, to);
      } else {
        RankSkip(s, keep, 0, to);
        RankZero(s, keep);
      }
    }

    /** storpu_table_getnext: the next batch, as the bytes written to the host. It is empty also when the next
        tuple alone is too long for the buffer, and then it stays empty for ever. */
    method GetNext(bufSize: nat) returns (batch: seq<nat>)
      requires Valid()
      modifies this, scan, scan.desc
      ensures Valid() && old(Delivered()) <= Delivered()
      ensures batch == EncodeAll(Wanted()[old(Delivered())..Delivered()]) && |batch| <= bufSize
      ensures batch == [] <==> old(Delivered()) == |Wanted()| || 2 + |Wanted()[old(Delivered())]| > bufSize
      ensures Delivered() == |Wanted()| || |batch| + 2 + |Wanted()[Delivered()]| > bufSize
    {
      hide Kept, Flat, Rank, EncodeAll, scan.Set;
      ghost var w, d0 := Wanted(), Delivered();
      batch := [];
      EncodeNone(w, d0);
      if finished { return; }
      while true
        invariant Valid() && !finished && d0 <= Delivered() && Wanted() == w
        invariant batch == EncodeAll(w[d0..Delivered()]) && |batch| <= bufSize
        invariant batch == [] <==> Delivered() == d0
        invariant Delivered() > d0 ==> 2 + |w[d0]| <= bufSize
        decreases |w| - Delivered()
      {
        ghost var d := Delivered();
        StepForward();
        if scan.tuple.None? {
          finished := true;
          break;
        }
        var t := scan.tuple.value;
        assert w[d] == t;
        if |batch| + 2 + |t| > bufSize {
          StepBackward();
          break;
        }
        totalCount := totalCount + 1;
        EncodeAppend(w, d0, d);
        ghost var was := batch;
        batch := batch + [|t| % 256, |t| / 256 % 256];
        batch := batch + t;
        assert batch == was + ([|t| % 256, |t| / 256 % 256] + t);
        if |batch| >= bufSize { break; }
      }
    }
  }

  lemma {:induction false} RankZero(s: seq<Tuple>, keep: Tuple -> bool)
    ensures Rank(s, keep, 0) == 0
  {
    assert s[..0] == [];
  }

  /** How many tuples come before the first that is too long for the buffer. */
  ghost function FitUpTo(w: seq<Tuple>, bufSize: nat): (n: nat)
    ensures n <= |w| && (n < |w| ==> 2 + |w[n]| > bufSize) && forall i :: 0 <= i < n ==> 2 + |w[i]| <= bufSize
  {
    if w == [] then 0
    else
      var n := FitUpTo(w[..|w| - 1], bufSize);
      if n == |w| - 1 && 2 + |w[n]| <= bufSize then n + 1 else n
  }

  /** A whole run: the batches of successive calls, up to the first empty one, decode to the kept tuples
      of the relation in (block, line) order, none lost and none repeated, up to the first one that is too long
      for the buffer. */
  method FetchAll(blocks: seq<seq<Tuple>>, attrs: seq<Attr>, parse: Tuple -> Tup, keys: seq<HeapKey>, bufSize: nat)
    returns (out: seq<seq<nat>>)
    requires TuplesOk(blocks, attrs, parse) && KeysFit(keys, |attrs|)
    ensures var w := Kept(Flat(blocks), Keeps(attrs, parse, keys)); out == w[..FitUpTo(w, bufSize)]
    ensures var w := Kept(Flat(blocks), Keeps(attrs, parse, keys));
            out == w <==> forall i :: 0 <= i < |w| ==> 2 + |w[i]| <= bufSize
  {
    hide Kept, Flat, EncodeAll, Decode, Rank, TuplesOk, KeysFit, Keeps, FitUpTo;
    out := [];
    var table := new TableScan(blocks, attrs, parse, keys);
    ghost var w := Kept(Flat(blocks), Keeps(attrs, parse, keys));
    ghost var n := FitUpTo(w, bufSize);
    while true
      invariant table.scan.blocks == blocks && table.scan.keep == Keeps(attrs, parse, keys) && table.Valid()
      invariant fresh(table) && fresh(table.scan) && fresh(table.scan.desc)
      invariant table.Wanted() == w && table.Delivered() <= n && out == w[..table.Delivered()]
      decreases |w| - table.Delivered()
    {
      ghost var d := table.Delivered();
      var batch := table.GetNext(bufSize);
      if batch == [] { break; }
      ghost var part := w[d..table.Delivered()];
      RoundTrip(part);
      EncodeSome(part);
      EncodeFits(part, bufSize);
      assert forall i :: 0 <= i < |part| ==> part[i] == w[d + i];
      out := out + Decode(batch).value;
      assert w[..d] + part == w[..table.Delivered()];
    }
    assert w[..|w|] == w;
  }

  lemma {:induction false} EncodeSome(ts: seq<Tuple>)
    ensures EncodeAll(ts) != [] ==> ts != []
  {
  }

  /** Tuples in a batch are not too long for it. */
  lemma {:induction false} EncodeFits(ts: seq<Tuple>, bufSize: nat)
    requires |EncodeAll(ts)| <= bufSize
    ensures forall i :: 0 <= i < |ts| ==> 2 + |ts[i]| <= bufSize
  {
    if ts != [] { EncodeFits(ts[..|ts| - 1], bufSize); }
  }
}
