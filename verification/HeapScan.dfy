/** Sequential scan of a heap relation, forward and backward, one matching tuple per call. */
module HeapScan {
  import opened Common
  import opened AttrCache

  /** A tuple is its stored bytes; a line pointer has 15 bits for its length. */
  type Tuple = t: seq<nat> | |t| < 0x8000

  // ----- (block, line) order

  /** The number of lines in the blocks before b. */
  function Start(blocks: seq<seq<Tuple>>, b: nat): nat
    requires b <= |blocks|
  {
    if b == 0 then 0 else Start(blocks, b - 1) + |blocks[b - 1]|
  }

  /** All tuples, block by block and line by line. */
  function Flat(blocks: seq<seq<Tuple>>): seq<Tuple> {
    if blocks == [] then [] else Flat(blocks[..|blocks| - 1]) + blocks[|blocks| - 1]
  }

  lemma {:induction false} FlatPrefix(blocks: seq<seq<Tuple>>, b: nat)
    requires b <= |blocks|
    ensures |Flat(blocks[..b])| == Start(blocks, b)
    decreases b
  {
    if b > 0 {
      FlatPrefix(blocks, b - 1);
      assert blocks[..b][..b - 1] == blocks[..b - 1];
    }
  }

  lemma {:induction false} FlatAt(blocks: seq<seq<Tuple>>, b: nat, l: nat)
    requires b < |blocks| && l < |blocks[b]|
    ensures Start(blocks, b) + l < |Flat(blocks)| && Flat(blocks)[Start(blocks, b) + l] == blocks[b][l]
    decreases |blocks|
  {
    var n := |blocks| - 1;
    FlatPrefix(blocks, n);
    StartCut(blocks, n, b);
    if b < n { FlatAt(blocks[..n], b, l); }
  }

  lemma {:induction false} StartCut(blocks: seq<seq<Tuple>>, n: nat, b: nat)
    requires b <= n <= |blocks|
    ensures Start(blocks[..n], b) == Start(blocks, b)
    decreases b
  {
    if b > 0 { StartCut(blocks, n, b - 1); }
  }

  lemma {:induction false} FlatLength(blocks: seq<seq<Tuple>>)
    ensures |Flat(blocks)| == Start(blocks, |blocks|)
  {
    FlatPrefix(blocks, |blocks|);
    assert blocks[..|blocks|] == blocks;
  }

  lemma {:induction false} StartStep(blocks: seq<seq<Tuple>>, b: nat)
    requires b < |blocks|
    ensures Start(blocks, b + 1) == Start(blocks, b) + |blocks[b]|
  {
  }

  lemma {:induction false} StartZero(blocks: seq<seq<Tuple>>)
    ensures Start(blocks, 0) == 0
  {
  }

  // ----- the scan

  /** No tuple with index from lo to hi - 1 is kept. */
  ghost predicate NoneKept(s: seq<Tuple>, keep: Tuple -> bool, lo: nat, hi: nat) {
    forall i :: lo <= i < hi && i < |s| ==> !keep(s[i])
  }

  /** The tuples that pass the scan keys, once their header has been read. */
  ghost function Keeps(attrs: seq<Attr>, parse: Tuple -> Tup, keys: seq<HeapKey>): Tuple -> bool {
    (t: Tuple) => Passes(attrs, parse(t), keys)
  }

  ghost predicate TuplesOk(blocks: seq<seq<Tuple>>, attrs: seq<Attr>, parse: Tuple -> Tup) {
    forall b, i :: 0 <= b < |blocks| && 0 <= i < |blocks[b]| ==> TupOk(attrs, parse(blocks[b][i]))
  }

  class Scan {
    const blocks: seq<seq<Tuple>>
    const desc: TupleDesc
    const parse: Tuple -> Tup
    const keys: seq<HeapKey>
    ghost const keep: Tuple -> bool

    var inited: bool
    var cblock: nat
    var posid: nat
    var tuple: Option<Tuple>

    constructor (blocks: seq<seq<Tuple>>, attrs: seq<Attr>, parse: Tuple -> Tup, keys: seq<HeapKey>)
      requires TuplesOk(blocks, attrs, parse) && KeysFit(keys, |attrs|)
      ensures this.blocks == blocks && keep == Keeps(attrs, parse, keys) && Valid() && !inited && fresh(desc)
    {
      hide TuplesOk, KeysFit;
      this.blocks, this.parse, this.keys := blocks, parse, keys;
      desc := new TupleDesc(attrs);
      keep := Keeps(attrs, parse, keys);
      inited, cblock, posid, tuple := false, 0, 0, None;
    }

    /** The descriptor belongs to the relation, and keep says what passes the keys. */
    ghost predicate Set()
      reads desc
    {
      && desc.Valid() && TuplesOk(blocks, desc.attrs, parse) && KeysFit(keys, |desc.attrs|)
      && keep == Keeps(desc.attrs, parse, keys)
    }

    /** Once a tuple has been returned, cblock and posid say where it is. */
    ghost predicate Valid()
      reads this, desc
    {
      && Set()
      && (inited ==> cblock < |blocks| && 1 <= posid <= |blocks[cblock]| && keep(blocks[cblock][posid - 1])
                     && tuple == Some(blocks[cblock][posid - 1]))
    }

    /** The test of a tuple against the keys. */
    method Test(b: nat, i: nat) returns (ok: bool)
      requires Set() && b < |blocks| && i < |blocks[b]|
      modifies desc
      ensures Set() && ok == keep(blocks[b][i])
    {
      hide Passes, desc.Valid, KeysFit, TupOk;
      ok := desc.KeyTest(parse(blocks[b][i]), keys);
    }

    ghost function All(): seq<Tuple> { Flat(blocks) }

    /** The index of the current tuple among all. */
    ghost function Position(): (i: nat)
      reads this, desc
      requires Valid() && inited
      ensures i < |All()| && tuple == Some(All()[i]) && keep(All()[i])
    {
      FlatAt(blocks, cblock, posid - 1);
      Start(blocks, cblock) + posid - 1
    }

    /** heapgettup, forward: the next tuple that is kept; at the end the scan returns to its initial
        state. */
    method GetForward()
      requires Valid()
      modifies this, desc
      ensures Valid() && inited == tuple.Some?
      ensures var from := if old(inited) then old(Position()) + 1 else 0;
              if inited then Position() >= from && NoneKept(All(), keep, from, Position())
              else NoneKept(All(), keep, from, |All()|)
    {
      hide Flat, Start, Set;
      StartZero(blocks);
      ghost var from := if inited then Position() + 1 else 0;
      var page, lineoff;
      if !inited {
        if |blocks| == 0 {
          tuple := None;
          FlatLength(blocks);
          return;
        }
        page := 0;
        cblock := 0;
        lineoff := 1;
        inited := true;
      } else {
        page := cblock;
        lineoff := posid + 1;
      }
      var linesleft: int := |blocks[page]| - lineoff + 1;
      while true
        invariant Set() && page < |blocks| && cblock == page && 1 <= lineoff
                  && linesleft == |blocks[page]| - lineoff + 1 >= 0
        invariant from <= Start(blocks, page) + lineoff - 1
        invariant NoneKept(All(), keep, from, Start(blocks, page) + lineoff - 1)
        decreases |blocks| - page
      {
        while linesleft > 0
          invariant Set() && cblock == page && 1 <= lineoff && linesleft == |blocks[page]| - lineoff + 1 >= 0
          invariant from <= Start(blocks, page) + lineoff - 1
          invariant NoneKept(All(), keep, from, Start(blocks, page) + lineoff - 1)
        {
          FlatAt(blocks, page, lineoff - 1);
          tuple := Some(blocks[page][lineoff - 1]);
          posid := lineoff;
          inited := true;
          var valid := Test(page, lineoff - 1);
          if valid { return; }
          linesleft := linesleft - 1;
          lineoff := lineoff + 1;
        }
        StartStep(blocks, page);
        page := page + 1;
        if page >= |blocks| {
          tuple := None;
          inited := false;
          FlatLength(blocks);
          return;
        }
        cblock := page;
        linesleft := |blocks[page]|;
        lineoff := 1;
      }
    }

    /** heapgettup, backward: the previous tuple that is kept. */
    method GetBackward()
      requires Valid()
      modifies this, desc
      ensures Valid() && inited == tuple.Some?
      ensures var to := if old(inited) then old(Position()) else |All()|;
              if inited then Position() < to && NoneKept(All(), keep, Position() + 1, to)
              else NoneKept(All(), keep, 0, to)
    {
      hide Flat, Start, Set;
      StartZero(blocks);
      ghost var to := if inited then Position() else |All()|;
      var page, lineoff: int;
      if !inited {
        if |blocks| == 0 {
          tuple := None;
          FlatLength(blocks);
          return;
        }
        page := |blocks| - 1;
        StartStep(blocks, page);
        cblock := page;
        lineoff := |blocks[page]|;
        inited := true;
        FlatLength(blocks);
      } else {
        page := cblock;
        lineoff := posid - 1;
      }
      var linesleft: int := lineoff;
      while true
        invariant Set() && 0 <= page < |blocks| && cblock == page && linesleft == lineoff
                  && 0 <= lineoff <= |blocks[page]|
        invariant Start(blocks, page) + lineoff <= to
        invariant NoneKept(All(), keep, Start(blocks, page) + lineoff, to)
        decreases page
      {
        while linesleft > 0
          invariant Set() && cblock == page && linesleft == lineoff && 0 <= lineoff <= |blocks[page]|
          invariant Start(blocks, page) + lineoff <= to
          invariant NoneKept(All(), keep, Start(blocks, page) + lineoff, to)
        {
          FlatAt(blocks, page, lineoff - 1);
          tuple := Some(blocks[page][lineoff - 1]);
          posid := lineoff;
          inited := true;
          var valid := Test(page, lineoff - 1);
          if valid { return; }
          linesleft := linesleft - 1;
          lineoff := lineoff - 1;
        }
        var finished := page == 0;
        if finished {
          tuple := None;
          inited := false;
          return;
        }
        page := page - 1;
        StartStep(blocks, page);
        cblock := page;
        lineoff := |blocks[page]|;
        linesleft := lineoff;
      }
    }
  }

  // ----- matches by rank

  /** The tuples that are kept, in order. */
  function Kept(s: seq<Tuple>, keep: Tuple -> bool): seq<Tuple> {
    if s == [] then [] else Kept(s[..|s| - 1], keep) + if keep(s[|s| - 1]) then [s[|s| - 1]] else []
  }

  /** How many kept tuples come before index i. */
  function Rank(s: seq<Tuple>, keep: Tuple -> bool, i: nat): nat
    requires i <= |s|
  {
    |Kept(s[..i], keep)|
  }

  lemma {:induction false} RankStep(s: seq<Tuple>, keep: Tuple -> bool, i: nat)
    requires i < |s|
    ensures Rank(s, keep, i + 1) == Rank(s, keep, i) + if keep(s[i]) then 1 else 0
  {
    assert s[..i + 1][..i] == s[..i];
  }

  lemma {:induction false} RankSkip(s: seq<Tuple>, keep: Tuple -> bool, lo: nat, hi: nat)
    requires lo <= hi <= |s| && NoneKept(s, keep, lo, hi)
    ensures Rank(s, keep, lo) == Rank(s, keep, hi)
    decreases hi - lo
  {
    if lo < hi {
      RankStep(s, keep, lo);
      RankSkip(s, keep, lo + 1, hi);
    }
  }

  lemma {:induction false} KeptAt(s: seq<Tuple>, keep: Tuple -> bool, i: nat)
    requires i < |s| && keep(s[i])
    ensures Rank(s, keep, i) < |Kept(s, keep)| && Kept(s, keep)[Rank(s, keep, i)] == s[i]
    decreases |s|
  {
    var n := |s| - 1;
    if i == n {
      assert s[..i] == s[..n];
    } else {
      KeptAt(s[..n], keep, i);
      assert s[..n][..i] == s[..i];
    }
  }

  lemma {:induction false} RankAll(s: seq<Tuple>, keep: Tuple -> bool)
    ensures Rank(s, keep, |s|) == |Kept(s, keep)|
  {
    assert s[..|s|] == s;
  }
}
