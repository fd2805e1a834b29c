/** Scan keys, the choice of the starting position, and the scan itself. */
module BTreeScan {
  import opened Common
  import opened BTree

  datatype Strategy = Less | LessEqual | Equal | GreaterEqual | Greater

  datatype ScanKey = ScanKey(attno: nat, strategy: Strategy, arg: int)

  predicate Test(k: ScanKey, v: int) {
    match k.strategy
    case Less => v < k.arg
    case LessEqual => v <= k.arg
    case Equal => v == k.arg
    case GreaterEqual => v >= k.arg
    case Greater => v > k.arg
  }

  ghost predicate KeysOk(keys: seq<ScanKey>, natts: nat) {
    forall i :: 0 <= i < |keys| ==> 1 <= keys[i].attno <= natts
  }

  /** The tuple satisfies every scan key. */
  ghost predicate Matches(keys: seq<ScanKey>, it: Item) {
    forall i :: 0 <= i < |keys| ==> 1 <= keys[i].attno <= |it.atts| && Test(keys[i], it.atts[keys[i].attno - 1])
  }

  /** _bt_checkkeys on a tuple that has all attributes. */
  method CheckKeys(keys: seq<ScanKey>, it: Item, tupnatts: nat) returns (ok: bool)
    requires KeysOk(keys, |it.atts|) && tupnatts == |it.atts|
    ensures ok <==> Matches(keys, it)
  {
    var i := 0;
    while i < |keys|
      invariant 0 <= i <= |keys|
      invariant forall j :: 0 <= j < i ==> Test(keys[j], it.atts[keys[j].attno - 1])
    {
      if keys[i].attno <= tupnatts {
        if !Test(keys[i], it.atts[keys[i].attno - 1]) { return false; }
      }
      i := i + 1;
    }
    return true;
  }

  // ----- the starting position

  predicate Usable(s: Strategy) { s.Equal? || s.GreaterEqual? || s.Greater? }

  /** The chosen keys are scan keys on attributes 1, 2, ..., with a lower bound each; only the last may be
      strict, and then the position is after equal keys. */
  ghost predicate StartOk(keys: seq<ScanKey>, start: seq<ScanKey>, total: Strategy) {
    && (forall j :: 0 <= j < |start| ==> start[j] in keys && start[j].attno == j + 1 && Usable(start[j].strategy))
    && (forall j :: 0 <= j < |start| - 1 ==> !start[j].strategy.Greater?)
    && Usable(total)
    && (total.Greater? <==> start != [] && start[|start| - 1].strategy.Greater?)
  }

  /** No lower bound among the leading keys on the first attribute. */
  ghost predicate NoLowerBound(keys: seq<ScanKey>) {
    forall i :: 0 <= i < |keys| && (forall j :: 0 <= j <= i ==> keys[j].attno == 1) ==> !Usable(keys[i].strategy)
  }

  /** The choice of start keys in _bt_first, for a forward scan. */
  method ChooseStartKeys(keys: seq<ScanKey>) returns (start: seq<ScanKey>, total: Strategy)
    ensures StartOk(keys, start, total)
    ensures start == [] <==> NoLowerBound(keys)
  {
    total := Equal;
    start := [];
    var curattr := 1;
    var chosen: Option<ScanKey> := None;
    var i := 0;
    while true
      invariant 0 <= i <= |keys| && |start| + 1 == curattr
      invariant StartOk(keys, start, total) && !total.Greater?
      invariant chosen.Some? ==> chosen.value in keys && chosen.value.attno == curattr && Usable(chosen.value.strategy)
      invariant start == [] ==> forall j :: 0 <= j < i ==> keys[j].attno == 1
      invariant start == [] && chosen.None? ==> forall j :: 0 <= j < i ==> !Usable(keys[j].strategy)
      invariant start == [] && chosen.Some? ==> exists j :: 0 <= j < i && Usable(keys[j].strategy)
      invariant start != [] ==> !NoLowerBound(keys)
      decreases |keys| - i
    {
      if i >= |keys| || keys[i].attno != curattr {
        if chosen.None? { break; }
        start := start + [chosen.value];
        var strat := chosen.value.strategy;
        if strat != Equal {
          total := strat;
          if strat.Greater? || strat.Less? { break; }
        }
        if i >= |keys| || keys[i].attno != curattr + 1 { break; }
        curattr := keys[i].attno;
        chosen := None;
      }
      match keys[i].strategy {
        case Less =>
        case LessEqual =>
        case Equal => chosen := Some(keys[i]);
        case GreaterEqual => if chosen.None? { chosen := Some(keys[i]); }
        case Greater => if chosen.None? { chosen := Some(keys[i]); }
      }
      i := i + 1;
    }
  }

  ghost function Args(start: seq<ScanKey>): (a: seq<int>)
    ensures |a| == |start|
  {
    seq(|start|, i requires 0 <= i < |start| => start[i].arg)
  }

  lemma {:induction false} LexBelow(a: seq<int>, x: seq<int>, strict: bool)
    requires |a| <= |x| && forall j :: 0 <= j < |a| ==> x[j] >= a[j]
    requires strict ==> a != [] && x[|a| - 1] > a[|a| - 1]
    ensures Lex(a, x) <= 0 && (strict ==> Lex(a, x) < 0)
    decreases |a|
  {
    if a != [] && x[0] == a[0] {
      LexBelow(a[1..], x[1..], strict);
    }
  }

  /** A tuple that satisfies all scan keys is never before the starting position. */
  lemma {:induction false} MatchNotBefore(keys: seq<ScanKey>, start: seq<ScanKey>, total: Strategy, x: Item)
    requires StartOk(keys, start, total) && Matches(keys, x) && |start| <= |x.atts| && x.tid.Some?
    ensures !Before(Key(Args(start), total.Greater?), x)
  {
    var a := Args(start);
    forall j | 0 <= j < |a|
      ensures x.atts[j] >= a[j] && (start[j].strategy.Greater? ==> x.atts[j] > a[j])
    {
      var i :| 0 <= i < |keys| && keys[i] == start[j];
      assert Test(keys[i], x.atts[keys[i].attno - 1]);
    }
    LexBelow(a, x.atts, total.Greater?);
  }

  lemma {:induction false} StartFits(keys: seq<ScanKey>, start: seq<ScanKey>, total: Strategy, natts: nat)
    requires StartOk(keys, start, total) && KeysOk(keys, natts)
    ensures |start| <= natts
  {
    if start != [] {
      var j := |start| - 1;
      var i :| 0 <= i < |keys| && keys[i] == start[j];
    }
  }

  // ----- what a scan returns

  ghost function Filter(keys: seq<ScanKey>, s: seq<Item>): seq<Item> {
    if s == [] then []
    else Filter(keys, s[..|s| - 1]) + if Matches(keys, s[|s| - 1]) then [s[|s| - 1]] else []
  }

  lemma {:induction false} FilterConcat(keys: seq<ScanKey>, a: seq<Item>, b: seq<Item>)
    ensures Filter(keys, a + b) == Filter(keys, a) + Filter(keys, b)
  {
    if b == [] {
      assert a + b == a;
    } else {
      assert (a + b)[..|a + b| - 1] == a + b[..|b| - 1];
      FilterConcat(keys, a, b[..|b| - 1]);
    }
  }

  lemma {:induction false} FilterNone(keys: seq<ScanKey>, s: seq<Item>)
    requires forall i :: 0 <= i < |s| ==> !Matches(keys, s[i])
    ensures Filter(keys, s) == []
  {
    if s != [] { FilterNone(keys, s[..|s| - 1]); }
  }

  /** The matching tuples of leaf pages n and later, in index order. */
  ghost function MatchesFrom(T: Tree, S: Shape, keys: seq<ScanKey>, n: nat): seq<Item>
    requires IsChain(T, S)
    decreases |S.chain| - n
  {
    if n >= |S.chain| then [] else Filter(keys, TuplesAt(T, S, n)) + MatchesFrom(T, S, keys, n + 1)
  }

  lemma {:induction false} NothingBefore(T: Tree, S: Shape, keys: seq<ScanKey>, n: nat, m: nat)
    requires IsChain(T, S) && n <= m <= |S.chain|
    requires forall i, k :: n <= i < m && 0 <= k < |TuplesAt(T, S, i)| ==> !Matches(keys, TuplesAt(T, S, i)[k])
    ensures MatchesFrom(T, S, keys, n) == MatchesFrom(T, S, keys, m)
    decreases m - n
  {
    hide Matches;
    if n < m {
      NothingBefore(T, S, keys, n + 1, m);
      FilterNone(keys, TuplesAt(T, S, n));
    }
  }

  // ----- the order of what it returns

  ghost predicate Ordered(s: seq<Item>) {
    forall i, j :: 0 <= i < j < |s| ==> TupleLe(s[i], s[j])
  }

  lemma {:induction false} OrderedConcat(a: seq<Item>, b: seq<Item>)
    requires Ordered(a) && Ordered(b) && forall x, y :: x in a && y in b ==> TupleLe(x, y)
    ensures Ordered(a + b)
  {
    hide TupleLe;
    var s := a + b;
    forall i, j | 0 <= i < j < |s| ensures TupleLe(s[i], s[j]) {
      if i < |a| && j >= |a| { assert s[i] in a && s[j] in b; }
    }
  }

  lemma {:induction false} FilterOrdered(keys: seq<ScanKey>, s: seq<Item>)
    requires Ordered(s)
    ensures Ordered(Filter(keys, s)) && forall x :: x in Filter(keys, s) ==> x in s
  {
    hide TupleLe, Matches;
    if s != [] {
      var n := |s| - 1;
      FilterOrdered(keys, s[..n]);
      var f := Filter(keys, s[..n]);
      if Matches(keys, s[n]) {
        forall x, y | x in f && y in [s[n]] ensures TupleLe(x, y) {
          var i :| 0 <= i < n && s[..n][i] == x;
          assert s[i] == x;
        }
        OrderedConcat(f, [s[n]]);
      }
    }
  }

  ghost predicate OnPage(T: Tree, S: Shape, i: nat, x: Item)
    requires IsChain(T, S)
  {
    i < |S.chain| && x in TuplesAt(T, S, i)
  }

  lemma {:induction false} PageOrdered(T: Tree, S: Shape, n: nat)
    requires WellFormed(T, S) && n < |S.chain|
    ensures Ordered(TuplesAt(T, S, n))
  {
    hide WellFormed, TupleLe;
    WellFormedChain(T, S);
    WellFormedPage(T, S, S.chain[n]);
  }

  /** The matching tuples come in key order, heap positions breaking ties. */
  lemma {:induction false} MatchesOrdered(T: Tree, S: Shape, keys: seq<ScanKey>, n: nat)
    requires WellFormed(T, S)
    ensures IsChain(T, S) && Ordered(MatchesFrom(T, S, keys, n))
    ensures forall x :: x in MatchesFrom(T, S, keys, n) ==> exists i: nat :: n <= i && OnPage(T, S, i, x)
    decreases |S.chain| - n
  {
    hide WellFormed, Filter, Ordered, TuplesAt;
    WellFormedChain(T, S);
    NoneOrdered();
    if n < |S.chain| {
      var a, b := Filter(keys, TuplesAt(T, S, n)), MatchesFrom(T, S, keys, n + 1);
      MatchesOrdered(T, S, keys, n + 1);
      PageOrdered(T, S, n);
      FilterOrdered(keys, TuplesAt(T, S, n));
      forall x, y | x in a && y in b ensures TupleLe(x, y) {
        var j: nat :| n + 1 <= j && OnPage(T, S, j, y);
        var k: nat :| k < |TuplesAt(T, S, n)| && TuplesAt(T, S, n)[k] == x;
        var l: nat :| l < |TuplesAt(T, S, j)| && TuplesAt(T, S, j)[l] == y;
        PagesInOrder(T, S, n, j, k, l);
      }
      OrderedConcat(a, b);
      forall x | x in MatchesFrom(T, S, keys, n) ensures exists i: nat :: n <= i && OnPage(T, S, i, x) {
        if x in a {
          assert OnPage(T, S, n, x);
        } else {
          var i: nat :| n + 1 <= i && OnPage(T, S, i, x);
        }
      }
    }
  }

  lemma {:induction false} NoneOrdered()
    ensures Ordered([])
  {
  }

  /** Block b is leaf page n of the chain, or there is none and the chain ends at n. */
  ghost predicate IsNext(S: Shape, b: nat, n: nat) {
    if n < |S.chain| then b == S.chain[n] else b == 0 && n == |S.chain|
  }

  lemma {:induction false} NextInChain(T: Tree, S: Shape, n: nat)
    requires WellFormed(T, S) && n < |S.chain|
    ensures IsNext(S, T.pages[S.chain[n]].next, n + 1) && S.chain[n] != 0
  {
    var b := S.chain[n];
    WellFormedPage(T, S, b);
    var p := T.pages[b];
    if p.next != 0 {
      WellFormedPage(T, S, p.next);
    }
  }

  lemma {:induction false} FilterStep(keys: seq<ScanKey>, s: seq<Item>, from: nat, off: nat)
    requires 1 <= from <= off <= |s|
    ensures Filter(keys, s[from - 1..off])
         == Filter(keys, s[from - 1..off - 1]) + if Matches(keys, s[off - 1]) then [s[off - 1]] else []
  {
    hide Matches;
    var x := s[from - 1..off];
    assert x[..|x| - 1] == s[from - 1..off - 1];
  }

  /** The item loop of _bt_readpage. */
  method Collect(keys: seq<ScanKey>, s: seq<Item>, from: nat, natts: nat) returns (found: seq<Item>)
    requires from >= 1 && KeysOk(keys, natts) && forall i :: from - 1 <= i < |s| ==> |s[i].atts| == natts
    ensures found == if from <= |s| then Filter(keys, s[from - 1..]) else []
  {
    hide Matches, Filter;
    var off := from;
    found := [];
    if from <= |s| { FilterNone(keys, s[from - 1..from - 1]); }
    while off <= |s|
      invariant from <= off && (from <= |s| ==> off <= |s| + 1)
      invariant from <= |s| ==> found == Filter(keys, s[from - 1..off - 1])
      invariant from > |s| ==> found == []
    {
      var ok := CheckKeys(keys, s[off - 1], natts);
      FilterStep(keys, s, from, off);
      if ok { found := found + [s[off - 1]]; }
      off := off + 1;
    }
    assert from <= |s| ==> s[from - 1..off - 1] == s[from - 1..];
  }

  /** A scan of the index with the given keys. */
  class Scan {
    const T: Tree
    const keys: seq<ScanKey>
    ghost const S: Shape

    // the matching tuples of the page last read, and where the scan stands in them
    var items: seq<Item>
    var itemIndex: nat
    var nextPage: nat
    var current: Item

    // the leaf page that nextPage names, and how many tuples have been returned
    ghost var nextIndex: nat
    ghost var given: nat

    constructor (T: Tree, keys: seq<ScanKey>, ghost S: Shape)
      requires WellFormed(T, S) && KeysOk(keys, T.natts)
      ensures this.T == T && this.keys == keys && this.S == S && given == 0 && Ready()
    {
      this.T, this.keys, this.S := T, keys, S;
      items, itemIndex, nextPage, nextIndex, given := [], 0, 0, 0, 0;
      current := Item([], None, 0);
    }

    ghost predicate Ready() { WellFormed(T, S) && KeysOk(keys, T.natts) }

    /** All the tuples the scan has to return, in index order. */
    ghost function Wanted(): seq<Item>
      requires Ready()
    {
      MatchesFrom(T, S, keys, 0)
    }

    /** The tuple at itemIndex is the one just returned; after it come the rest of the page and the
        matches of the pages to the right. */
    ghost predicate Positioned()
      reads this
    {
      && Ready() && given >= 1 && itemIndex < |items| && current == items[itemIndex]
      && IsNext(S, nextPage, nextIndex)
      && given <= |Wanted()| && Wanted()[given - 1..] == items[itemIndex..] + MatchesFrom(T, S, keys, nextIndex)
    }

    /** _bt_readpage, forward: the matching tuples from an offset on. */
    method ReadPage(b: nat, offnum: nat, ghost n: nat) returns (found: bool)
      requires Ready() && n < |S.chain| && S.chain[n] == b && !T.pages[b].ignored
      modifies this`items, this`itemIndex, this`nextPage, this`nextIndex
      ensures IsNext(S, nextPage, nextIndex) && nextIndex == n + 1 && itemIndex == 0
      ensures var p := T.pages[b]; var off := if offnum < p.FirstData() then p.FirstData() else offnum;
              items == if off <= |p.items| then Filter(keys, p.items[off - 1..]) else []
      ensures found <==> items != []
    {
      hide WellFormed, Filter, KeysOk;
      WellFormedChain(T, S);
      NextInChain(T, S, n);
      var p := T.pages[b];
      nextPage, nextIndex := p.next, n + 1;
      var off := if offnum < p.FirstData() then p.FirstData() else offnum;
      forall i | off - 1 <= i < |p.items| ensures |p.items[i].atts| == T.natts { LeafTuple(T, S, n, i + 1); }
      items := Collect(keys, p.items, off, T.natts);
      itemIndex := 0;
      found := items != [];
    }

    /** _bt_readnextpage, forward: skip ignored pages and pages without matches. */
    method ReadNextPage(blkno: nat, ghost n: nat) returns (found: bool)
      requires Ready() && IsNext(S, blkno, n)
      modifies this`items, this`itemIndex, this`nextPage, this`nextIndex
      ensures found ==> items != [] && itemIndex == 0 && IsNext(S, nextPage, nextIndex)
      ensures found ==> MatchesFrom(T, S, keys, n) == items + MatchesFrom(T, S, keys, nextIndex)
      ensures !found ==> MatchesFrom(T, S, keys, n) == []
    {
      hide WellFormed, Filter, KeysOk, MatchesFrom, Data;
      WellFormedChain(T, S);
      var b := blkno;
      ghost var i := n;
      while true
        invariant n <= i <= |S.chain| && IsNext(S, b, i)
        invariant MatchesFrom(T, S, keys, n) == MatchesFrom(T, S, keys, i)
        decreases |S.chain| - i
      {
        if b == 0 {
          ChainEnd(T, S, i);
          MatchesStep(T, S, keys, i);
          return false;
        }
        NextInChain(T, S, i);
        var p := T.pages[b];
        var some := false;
        if !p.ignored {
          some := ReadPage(b, p.FirstData(), i);
        }
        PageDone(T, S, keys, i, items, some);
        if some { return true; }
        b := p.next;
        i := i + 1;
      }
    }

    /** _bt_first for a forward scan. */
    method First() returns (aborted: bool, ok: bool)
      requires Ready() && given == 0
      modifies this
      ensures aborted <==> NoLowerBound(keys)
      ensures !aborted && ok ==> Positioned() && given == 1
      ensures !aborted && !ok ==> Wanted() == []
    {
      hide WellFormed, Filter, KeysOk, MatchesFrom, Data, StartOk, NoLowerBound, NotPast, Compare;
      var start, total := ChooseStartKeys(keys);
      if start == [] { return true, false; }
      StartFits(keys, start, total, T.natts);
      var args := BuildArgs(start);
      var key := Key(args, total.Greater?);
      WellFormedChain(T, S);
      var b := Search(T, S, key);
      if b == 0 {
        EmptyIndex(T, S, keys);
        return false, false;
      }
      NotPastPage(T, S, key, b);
      LeafInChain(T, S, b);
      ghost var n := S.first[b];
      var offnum := BinSearch(key, T.pages[b]);
      StartCut(T, S, keys, start, total, b, offnum);
      ok := ReadPage(b, offnum, n);
      if !ok {
        ok := ReadNextPage(nextPage, nextIndex);
      }
      aborted := false;
      if ok {
        current := items[itemIndex];
        given := 1;
        assert Wanted()[0..] == Wanted() && items[0..] == items;
      }
    }

    /** _bt_next for a forward scan that has not ended. */
    method Next() returns (ok: bool)
      requires Positioned()
      modifies this
      ensures ok ==> Positioned() && given == old(given) + 1
      ensures !ok ==> old(given) == |Wanted()|
    {
      hide WellFormed, KeysOk, MatchesFrom;
      WellFormedChain(T, S);
      ghost var w, rest := Wanted(), MatchesFrom(T, S, keys, nextIndex);
      ghost var tail := items[itemIndex..] + rest;
      assert w[given - 1..][1..] == w[given..];
      assert tail[1..] == items[itemIndex + 1..] + rest;
      itemIndex := itemIndex + 1;
      if itemIndex > |items| - 1 {
        assert tail[1..] == rest;
        var some := ReadNextPage(nextPage, nextIndex);
        if !some { return false; }
        assert items[0..] == items;
      }
      current := items[itemIndex];
      given := given + 1;
      ok := true;
    }
  }

  lemma {:induction false} ChainEnd(T: Tree, S: Shape, i: nat)
    requires WellFormed(T, S) && IsNext(S, 0, i)
    ensures i == |S.chain|
  {
    if i < |S.chain| { WellFormedPage(T, S, S.chain[i]); }
  }

  lemma {:induction false} LeafTuple(T: Tree, S: Shape, n: nat, off: nat)
    requires WellFormed(T, S) && n < |S.chain|
    requires var p := T.pages[S.chain[n]]; !p.ignored && p.FirstData() <= off <= |p.items|
    ensures |T.pages[S.chain[n]].items[off - 1].atts| == T.natts && T.pages[S.chain[n]].items[off - 1].tid.Some?
  {
    var p := T.pages[S.chain[n]];
    TupleShape(T, S, n, off - p.FirstData());
  }

  /** The matches from page n on: those of the page, then the rest. */
  lemma {:induction false} MatchesStep(T: Tree, S: Shape, keys: seq<ScanKey>, n: nat)
    requires IsChain(T, S)
    ensures n >= |S.chain| ==> MatchesFrom(T, S, keys, n) == []
    ensures n < |S.chain| ==> var p := T.pages[S.chain[n]];
              MatchesFrom(T, S, keys, n)
              == (if !p.ignored && p.FirstData() <= |p.items| then Filter(keys, p.items[p.FirstData() - 1..]) else [])
                 + MatchesFrom(T, S, keys, n + 1)
  {
    hide Matches;
  }

  lemma {:induction false} PageDone(T: Tree, S: Shape, keys: seq<ScanKey>, n: nat, items: seq<Item>, some: bool)
    requires IsChain(T, S) && n < |S.chain|
    requires var p := T.pages[S.chain[n]];
             && (!p.ignored ==> items == (if p.FirstData() <= |p.items|
                  then Filter(keys, p.items[p.FirstData() - 1..]) else []))
             && (some <==> !p.ignored && items != [])
    ensures some ==> MatchesFrom(T, S, keys, n) == items + MatchesFrom(T, S, keys, n + 1)
    ensures !some ==> MatchesFrom(T, S, keys, n) == MatchesFrom(T, S, keys, n + 1)
  {
    hide Filter, MatchesFrom;
    MatchesStep(T, S, keys, n);
  }

  method BuildArgs(start: seq<ScanKey>) returns (args: seq<int>)
    ensures args == Args(start)
  {
    args := [];
    for i := 0 to |start|
      invariant args == Args(start[..i])
    {
      assert start[..i + 1] == start[..i] + [start[i]];
      args := args + [start[i].arg];
    }
    assert start[..|start|] == start;
  }

  lemma {:induction false} EmptyIndex(T: Tree, S: Shape, keys: seq<ScanKey>)
    requires WellFormed(T, S) && !T.hasRoot
    ensures MatchesFrom(T, S, keys, 0) == []
  {
  }

  lemma {:induction false} LeafInChain(T: Tree, S: Shape, b: nat)
    requires WellFormed(T, S) && b in T.pages && T.pages[b].leaf
    ensures b in S.first && S.first[b] < |S.chain| && S.chain[S.first[b]] == b
  {
    WellFormedPage(T, S, b);
  }

  /** Tuples up to one that lies before the position lie before it. */
  lemma {:induction false} EarlierBefore(key: Key, x: Item, y: Item)
    requires |key.args| <= |x.atts| == |y.atts| && x.tid.Some? && y.tid.Some? && TupleLe(x, y) && Before(key, y)
    ensures Before(key, x)
  {
    LexPivot(key.args, x.atts, y.atts);
  }

  lemma {:induction false} EarlierOnPage(T: Tree, S: Shape, key: Key, b: nat, off: nat, j: nat)
    requires WellFormed(T, S) && b in T.pages && T.pages[b].leaf && !T.pages[b].ignored && |key.args| <= T.natts
    requires var p := T.pages[b];
             p.FirstData() <= j < off <= |p.items| + 1
             && Compare(key.args, p, off - 1) >= key.Threshold()
    ensures Before(key, T.pages[b].items[j - 1])
  {
    hide WellFormed, Before, CompareItem, TupleLe;
    WellFormedPage(T, S, b);
    var p := T.pages[b];
    var f := p.FirstData();
    var d := Data(p);
    assert d[j - f] == p.items[j - 1] && d[off - 1 - f] == p.items[off - 2];
    assert Before(key, p.items[off - 2]) by { BeforeDef(key, p, off - 1); }
    if j < off - 1 {
      assert TupleLe(d[j - f], d[off - 1 - f]);
      EarlierBefore(key, d[j - f], d[off - 1 - f]);
    }
  }

  lemma {:induction false} BeforeDef(key: Key, p: Page, off: nat)
    requires p.leaf && 1 <= off <= |p.items| && Compare(key.args, p, off) >= key.Threshold()
    ensures Before(key, p.items[off - 1])
  {
  }

  /** Everything before the offset found on the leaf page, and on the pages to its left, fails some key. */
  lemma {:induction false} StartCut(T: Tree, S: Shape, keys: seq<ScanKey>, start: seq<ScanKey>, total: Strategy,
                                    b: nat, off: nat)
    requires WellFormed(T, S) && KeysOk(keys, T.natts) && StartOk(keys, start, total)
    requires b in T.pages && T.pages[b].leaf && !T.pages[b].ignored
    requires var key, p := Key(Args(start), total.Greater?), T.pages[b];
             && NotPast(T, S, key, b) && p.FirstData() <= off && (off <= |p.items| + 1 || off == p.FirstData())
             && (off > p.FirstData() ==> Compare(key.args, p, off - 1) >= key.Threshold())
    ensures MatchesFrom(T, S, keys, 0)
         == (if off <= |T.pages[b].items| then Filter(keys, T.pages[b].items[off - 1..]) else [])
            + MatchesFrom(T, S, keys, S.first[b] + 1)
  {
    hide WellFormed, KeysOk, StartOk, Matches, Filter, MatchesFrom, Before, Compare;
    var key, p, n := Key(Args(start), total.Greater?), T.pages[b], S.first[b];
    WellFormedChain(T, S);
    StartFits(keys, start, total, T.natts);
    LeafInChain(T, S, b);
    forall i, k | 0 <= i < n && 0 <= k < |TuplesAt(T, S, i)| ensures !Matches(keys, TuplesAt(T, S, i)[k]) {
      TupleShape(T, S, i, k);
      NoMatchBefore(keys, start, total, TuplesAt(T, S, i)[k]);
    }
    NothingBefore(T, S, keys, 0, n);
    MatchesStep(T, S, keys, n);
    var f := p.FirstData();
    if f < off {
      var x, y := p.items[f - 1..off - 1], p.items[off - 1..];
      assert p.items[f - 1..] == x + y;
      FilterConcat(keys, x, y);
      forall i | 0 <= i < |x| ensures !Matches(keys, x[i]) {
        LeafTuple(T, S, n, f + i);
        EarlierOnPage(T, S, key, b, off, f + i);
        NoMatchBefore(keys, start, total, x[i]);
      }
      FilterNone(keys, x);
      if off > |p.items| { FilterNone(keys, y); }
    }
  }

  lemma {:induction false} NoMatchBefore(keys: seq<ScanKey>, start: seq<ScanKey>, total: Strategy, x: Item)
    requires StartOk(keys, start, total) && |start| <= |x.atts| && x.tid.Some?
             && Before(Key(Args(start), total.Greater?), x)
    ensures !Matches(keys, x)
  {
    hide Before, StartOk;
    if Matches(keys, x) { MatchNotBefore(keys, start, total, x); }
  }

  /** A whole run: the first call and then calls until the scan ends return every matching tuple of the
      leaf pages once, in key order with heap positions breaking ties. */
  method ScanAll(T: Tree, keys: seq<ScanKey>, ghost S: Shape) returns (aborted: bool, out: seq<Item>)
    requires WellFormed(T, S) && KeysOk(keys, T.natts)
    ensures IsChain(T, S)
    ensures aborted <==> NoLowerBound(keys)
    ensures !aborted ==> out == MatchesFrom(T, S, keys, 0) && Ordered(out)
  {
    hide WellFormed, KeysOk, MatchesFrom, NoLowerBound, Ordered;
    WellFormedChain(T, S);
    MatchesOrdered(T, S, keys, 0);
    out := [];
    var scan := new Scan(T, keys, S);
    var ok;
    aborted, ok := scan.First();
    if aborted { return; }
    while ok
      invariant scan.T == T && scan.keys == keys && scan.S == S && scan.Ready()
      invariant ok ==> scan.Positioned() && scan.given == |out| + 1
      invariant !ok ==> |out| == |scan.Wanted()|
      invariant |out| <= |scan.Wanted()| && out == scan.Wanted()[..|out|]
      decreases |scan.Wanted()| - |out|, ok
    {
      ghost var w := scan.Wanted();
      assert w[scan.given - 1..][0] == scan.current;
      out := out + [scan.current];
      assert w[..|out|] == out;
      ok := scan.Next();
    }
  }
}
