/** Forward scan of a Lehman-Yao B-tree: descent by truncated pivots and high keys, then a walk along
    the leaf pages. */
module BTree {
  import opened Common

  /** An index item. Attribute values are integers, standing for any totally ordered type. A leaf tuple
      has all attributes and a heap position; a pivot may lack trailing attributes and the position, which
      count as minus infinity, and has a downlink on an internal page. */
  datatype Item = Item(atts: seq<int>, tid: Option<int>, down: nat)

  /** A page. The items are at offsets 1, 2, ...; if the page has a right sibling its first item is the
      high key. Deleted and half-dead pages are ignored. */
  datatype Page = Page(leaf: bool, ignored: bool, next: nat, items: seq<Item>) {
    function FirstData(): nat { if next == 0 then 1 else 2 }
  }

  /** Block 0 is the meta page and names no sibling. */
  datatype Tree = Tree(pages: map<nat, Page>, natts: nat, hasRoot: bool, fastRoot: nat)

  // ----- comparison

  function Sign(a: int, b: int): int { if a < b then -1 else if a > b then 1 else 0 }

  /** Lexicographic comparison over the shorter length. */
  function Lex(a: seq<int>, b: seq<int>): (c: int)
    ensures -1 <= c <= 1
  {
    if a == [] || b == [] then 0
    else if a[0] != b[0] then Sign(a[0], b[0])
    else Lex(a[1..], b[1..])
  }

  /** How a search key without a heap position compares with an item. */
  function CompareItem(args: seq<int>, it: Item): (c: int)
    ensures -1 <= c <= 1
  {
    var c := Lex(args, it.atts);
    if c != 0 then c
    else if |args| > |it.atts| then 1
    else if |args| == |it.atts| && it.tid.None? then 1
    else 0
  }

  function Compare(args: seq<int>, p: Page, off: nat): (c: int)
    requires 1 <= off <= |p.items|
    ensures -1 <= c <= 1
  {
    if !p.leaf && off == p.FirstData() then 1 else CompareItem(args, p.items[off - 1])
  }

  lemma {:induction false} LexAt(a: seq<int>, b: seq<int>, i: nat)
    requires i <= |a| && i <= |b| && a[..i] == b[..i]
    ensures Lex(a, b) == Lex(a[i..], b[i..])
  {
    if i > 0 {
      assert a[0] == a[..i][0] == b[..i][0] == b[0];
      assert a[1..][..i - 1] == a[..i][1..] == b[..i][1..] == b[1..][..i - 1];
      LexAt(a[1..], b[1..], i - 1);
      assert a[1..][i - 1..] == a[i..] && b[1..][i - 1..] == b[i..];
    } else {
      assert a[0..] == a && b[0..] == b;
    }
  }

  /** _bt_compare. */
  method CompareAt(args: seq<int>, p: Page, off: nat) returns (c: int)
    requires 1 <= off <= |p.items|
    ensures c == Compare(args, p, off)
  {
    if !p.leaf && off == p.FirstData() { return 1; }
    var it := p.items[off - 1];
    var n := if |args| > |it.atts| then |it.atts| else |args|;
    var i := 0;
    while i < n
      invariant 0 <= i <= n && args[..i] == it.atts[..i]
    {
      c := -Sign(it.atts[i], args[i]);
      LexAt(args, it.atts, i);
      if c != 0 { return; }
      i := i + 1;
    }
    LexAt(args, it.atts, n);
    if |args| > |it.atts| { return 1; }
    if |args| == |it.atts| && it.tid.None? { return 1; }
    return 0;
  }

  // ----- positions in the index

  datatype Key = Key(args: seq<int>, nextkey: bool) {
    function Threshold(): int { if nextkey then 0 else 1 }
  }

  /** The item lies before the position the key stands for. */
  predicate Before(key: Key, it: Item) {
    CompareItem(key.args, it) >= key.Threshold()
  }

  /** The tuple x is not above the pivot: smaller, or equal in all attributes with a heap position that is not
      greater. */
  predicate Below(x: Item, pivot: Item) {
    || Lex(x.atts, pivot.atts) < 0
    || (x.atts == pivot.atts && x.tid.Some? && pivot.tid.Some? && x.tid.value <= pivot.tid.value)
  }

  /** The tuple y is not below the pivot: what the pivot lacks is below everything. */
  predicate Above(y: Item, pivot: Item) {
    || Lex(y.atts, pivot.atts) > 0
    || (Lex(y.atts, pivot.atts) == 0
        && (|pivot.atts| < |y.atts| || pivot.tid.None? || (y.tid.Some? && pivot.tid.value <= y.tid.value)))
  }

  lemma {:induction false} LexBetween(x: seq<int>, p: seq<int>, y: seq<int>)
    requires |p| <= |x| == |y|
    ensures Lex(x, p) < 0 && Lex(y, p) >= 0 ==> Lex(x, y) < 0
    ensures Lex(x, y) == -Lex(y, x)
    decreases |x|
  {
    if x != [] && x[0] == y[0] { LexBetween(x[1..], if p == [] then [] else p[1..], y[1..]); }
  }

  /** A pivot separates the tuples on its two sides. */
  lemma {:induction false} PivotSeparates(x: Item, pivot: Item, y: Item)
    requires |pivot.atts| <= |x.atts| == |y.atts| && Below(x, pivot) && Above(y, pivot)
    ensures TupleLe(x, y)
  {
    LexBetween(x.atts, pivot.atts, y.atts);
  }

  lemma {:induction false} LexPivot(args: seq<int>, x: seq<int>, p: seq<int>)
    requires |args| <= |x| && |p| <= |x|
    ensures Lex(args, p) > 0 && Lex(x, p) <= 0 ==> Lex(args, x) > 0
    ensures Lex(args, p) == 0 && |args| <= |p| && Lex(x, p) <= 0 ==> Lex(args, x) >= 0
    ensures Lex(args, p) == 0 && |args| >= |p| && Lex(x, p) < 0 ==> Lex(args, x) > 0
    decreases |args|
  {
    if args != [] && p != [] && args[0] == p[0] == x[0] {
      LexPivot(args[1..], x[1..], p[1..]);
    }
  }

  /** A key beyond a pivot is beyond every tuple that is not above the pivot. */
  lemma {:induction false} PivotPasses(key: Key, x: Item, p: Item)
    requires |key.args| <= |x.atts| && |p.atts| <= |x.atts| && x.tid.Some?
    requires Below(x, p) && Before(key, p)
    ensures Before(key, x)
  {
    LexPivot(key.args, x.atts, p.atts);
    LexSelf(x.atts);
  }

  lemma {:induction false} LexSelf(a: seq<int>)
    ensures Lex(a, a) == 0
  {
    if a != [] { LexSelf(a[1..]); }
  }

  // ----- well-formed trees

  /** Leaf tuples in key order, heap positions breaking ties. */
  predicate TupleLe(x: Item, y: Item) {
    || Lex(x.atts, y.atts) < 0
    || (Lex(x.atts, y.atts) == 0 && x.tid.Some? && y.tid.Some? && x.tid.value <= y.tid.value)
  }

  function Data(p: Page): seq<Item> {
    if p.ignored || |p.items| < p.FirstData() then [] else p.items[p.FirstData() - 1..]
  }

  /** A witness of the shape of a tree: the leaf pages from left to right; for every page the index of the
      first leaf page below it, its level and its distance from the right end of its level. */
  datatype Shape = Shape(chain: seq<nat>, first: map<nat, nat>, level: map<nat, nat>, rank: map<nat, nat>)

  ghost predicate IsChain(T: Tree, S: Shape) {
    forall i :: 0 <= i < |S.chain| ==> S.chain[i] in T.pages && T.pages[S.chain[i]].leaf
  }

  /** The tuples of leaf page i. */
  ghost function TuplesAt(T: Tree, S: Shape, i: nat): seq<Item>
    requires IsChain(T, S) && i < |S.chain|
  {
    Data(T.pages[S.chain[i]])
  }

  /** Every tuple left of leaf page n is not above the pivot. */
  ghost predicate Bound(T: Tree, S: Shape, pivot: Item, n: nat)
    requires IsChain(T, S)
  {
    && |pivot.atts| <= T.natts
    && forall i, k :: 0 <= i < |S.chain| && i < n && 0 <= k < |TuplesAt(T, S, i)| ==> Below(TuplesAt(T, S, i)[k], pivot)
  }

  /** No tuple from leaf page n on is below the pivot. */
  ghost predicate Floor(T: Tree, S: Shape, pivot: Item, n: nat)
    requires IsChain(T, S)
  {
    forall i, k :: n <= i < |S.chain| && 0 <= k < |TuplesAt(T, S, i)| ==> Above(TuplesAt(T, S, i)[k], pivot)
  }

  ghost predicate SiblingOk(T: Tree, S: Shape, b: nat)
    requires IsChain(T, S) && b in T.pages && b in S.first && b in S.level && b in S.rank
  {
    var p := T.pages[b];
    && p.next in T.pages && p.next in S.first && p.next in S.level && p.next in S.rank
    && S.level[p.next] == S.level[b] && S.rank[p.next] < S.rank[b] && T.pages[p.next].leaf == p.leaf
    && (p.leaf ==> S.first[p.next] == S.first[b] + 1)
    && (!p.ignored ==> |p.items| >= 1 && Bound(T, S, p.items[0], S.first[p.next])
                       && Floor(T, S, p.items[0], S.first[p.next]))
    && (p.ignored ==> forall i :: S.first[b] <= i < S.first[p.next] && i < |S.chain| ==> TuplesAt(T, S, i) == [])
  }

  ghost predicate DownlinksOk(T: Tree, S: Shape, b: nat)
    requires IsChain(T, S) && b in T.pages && b in S.first && b in S.level
  {
    var p := T.pages[b];
    && |p.items| >= p.FirstData()
    && forall k :: p.FirstData() - 1 <= k < |p.items| ==>
         var c := p.items[k].down;
         && c in T.pages && c in S.first && c in S.level && c in S.rank && S.level[c] < S.level[b]
         && (if k == p.FirstData() - 1 then S.first[c] <= S.first[b]
            else Bound(T, S, p.items[k], S.first[c]) && Floor(T, S, p.items[k], S.first[c]))
  }

  ghost predicate PageOk(T: Tree, S: Shape, b: nat)
    requires IsChain(T, S) && b in T.pages
  {
    var p := T.pages[b];
    && b != 0 && b in S.first && b in S.level && b in S.rank
    && (p.leaf ==> S.first[b] < |S.chain| && S.chain[S.first[b]] == b)
    && (p.next == 0 ==> !p.ignored && (p.leaf ==> S.first[b] == |S.chain| - 1))
    && (p.next != 0 ==> SiblingOk(T, S, b))
    && (!p.leaf && !p.ignored ==> DownlinksOk(T, S, b))
    && (p.leaf ==> forall k :: 0 <= k < |Data(p)| ==> Data(p)[k].tid.Some? && |Data(p)[k].atts| == T.natts)
    && (p.leaf ==> forall j, k :: 0 <= j < k < |Data(p)| ==> TupleLe(Data(p)[j], Data(p)[k]))
  }

  /** The tree has the given shape: siblings are linked left to right with high keys that separate what is
      left of the next page from the rest, pivots separate what is left of their child from the rest, the first
      pivot of a page counts as minus infinity, and ignored pages hide no tuples. */
  ghost predicate WellFormed(T: Tree, S: Shape) {
    && IsChain(T, S)
    && (forall b :: b in T.pages ==> PageOk(T, S, b))
    && (T.hasRoot ==> T.fastRoot in T.pages && S.first[T.fastRoot] == 0)
    && (!T.hasRoot ==> S.chain == [])
    && (S.chain != [] ==> T.pages[S.chain[|S.chain| - 1]].next == 0)
    && (forall i :: 0 <= i < |S.chain| ==> S.chain[i] in S.first && S.first[S.chain[i]] == i)
  }

  /** Tuples of different leaf pages are in order. */
  lemma {:induction false} PagesInOrder(T: Tree, S: Shape, i: nat, j: nat, k: nat, l: nat)
    requires WellFormed(T, S) && i < j < |S.chain| && k < |TuplesAt(T, S, i)| && l < |TuplesAt(T, S, j)|
    ensures TupleLe(TuplesAt(T, S, i)[k], TuplesAt(T, S, j)[l])
  {
    hide WellFormed, TupleLe, Above, Below;
    WellFormedChain(T, S);
    TupleShape(T, S, i, k);
    TupleShape(T, S, j, l);
    WellFormedPage(T, S, S.chain[i]);
    ChainPage(T, S, i);
    var p := T.pages[S.chain[i]];
    PivotSeparates(TuplesAt(T, S, i)[k], p.items[0], TuplesAt(T, S, j)[l]);
  }

  lemma {:induction false} ChainPage(T: Tree, S: Shape, i: nat)
    requires WellFormed(T, S) && i < |S.chain|
    ensures S.chain[i] in S.first && S.first[S.chain[i]] == i
  {
  }

  // ----- descent

  /** Every tuple left of leaf page n lies before the position. */
  ghost predicate AllBefore(T: Tree, S: Shape, key: Key, n: nat)
    requires IsChain(T, S)
  {
    forall i, k :: 0 <= i < |S.chain| && i < n && 0 <= k < |TuplesAt(T, S, i)| ==> Before(key, TuplesAt(T, S, i)[k])
  }

  lemma {:induction false} TupleShape(T: Tree, S: Shape, i: nat, k: nat)
    requires WellFormed(T, S) && i < |S.chain| && k < |TuplesAt(T, S, i)|
    ensures var x := TuplesAt(T, S, i)[k]; x.tid.Some? && |x.atts| == T.natts
  {
    assert PageOk(T, S, S.chain[i]);
  }

  lemma {:induction false} BoundPasses(T: Tree, S: Shape, key: Key, pivot: Item, n: nat)
    requires WellFormed(T, S) && Bound(T, S, pivot, n) && Before(key, pivot) && |key.args| <= T.natts
    ensures AllBefore(T, S, key, n)
  {
    hide WellFormed, Below, Before;
    WellFormedChain(T, S);
    forall i, k | 0 <= i < |S.chain| && i < n && 0 <= k < |TuplesAt(T, S, i)|
      ensures Before(key, TuplesAt(T, S, i)[k])
    {
      TupleShape(T, S, i, k);
      PivotPasses(key, TuplesAt(T, S, i)[k], pivot);
    }
  }

  lemma {:induction false} WellFormedChain(T: Tree, S: Shape)
    requires WellFormed(T, S)
    ensures IsChain(T, S)
  {
  }

  lemma {:induction false} WellFormedPage(T: Tree, S: Shape, b: nat)
    requires WellFormed(T, S) && b in T.pages
    ensures IsChain(T, S) && PageOk(T, S, b)
  {
  }

  /** The descent stands at block b and has not gone past the position. */
  ghost predicate NotPast(T: Tree, S: Shape, key: Key, b: nat)
    requires IsChain(T, S)
  {
    b in T.pages && b in S.first && b in S.level && b in S.rank && AllBefore(T, S, key, S.first[b])
  }

  lemma {:induction false} StepRight(T: Tree, S: Shape, key: Key, b: nat)
    requires WellFormed(T, S) && NotPast(T, S, key, b) && |key.args| <= T.natts && T.pages[b].next != 0
    requires T.pages[b].ignored || (|T.pages[b].items| >= 1 && Before(key, T.pages[b].items[0]))
    ensures NotPast(T, S, key, T.pages[b].next)
    ensures S.rank[T.pages[b].next] < S.rank[b] && S.level[T.pages[b].next] == S.level[b]
  {
    hide WellFormed, Before, Bound, Floor;
    WellFormedPage(T, S, b);
    var p := T.pages[b];
    if !p.ignored {
      BoundPasses(T, S, key, p.items[0], S.first[p.next]);
    }
  }

  lemma {:induction false} StepDown(T: Tree, S: Shape, key: Key, b: nat, off: nat)
    requires WellFormed(T, S) && NotPast(T, S, key, b) && |key.args| <= T.natts
    requires !T.pages[b].leaf && !T.pages[b].ignored && T.pages[b].FirstData() <= off <= |T.pages[b].items|
    requires Compare(key.args, T.pages[b], off) >= key.Threshold()
    ensures NotPast(T, S, key, T.pages[b].items[off - 1].down)
    ensures S.level[T.pages[b].items[off - 1].down] < S.level[b]
  {
    hide WellFormed, Bound, Floor, CompareItem;
    WellFormedPage(T, S, b);
    var p := T.pages[b];
    var it := p.items[off - 1];
    if off != p.FirstData() {
      BoundPasses(T, S, key, it, S.first[it.down]);
    }
  }

  /** _bt_getroot without a cached meta page; block 0 means that the index is empty. */
  method GetRoot(T: Tree, ghost S: Shape, ghost key: Key) returns (b: nat)
    requires WellFormed(T, S) && |key.args| <= T.natts
    ensures b == 0 <==> !T.hasRoot
    ensures b != 0 ==> NotPast(T, S, key, b)
  {
    if !T.hasRoot { return 0; }
    b := T.fastRoot;
    WellFormedPage(T, S, b);
    while true
      invariant NotPast(T, S, key, b) && b != 0
      decreases S.rank[b]
    {
      WellFormedPage(T, S, b);
      if !T.pages[b].ignored { break; }
      StepRight(T, S, key, b);
      b := T.pages[b].next;
      WellFormedPage(T, S, b);
    }
  }

  /** _bt_moveright. */
  method MoveRight(T: Tree, ghost S: Shape, key: Key, start: nat) returns (b: nat)
    requires WellFormed(T, S) && NotPast(T, S, key, start) && |key.args| <= T.natts
    ensures NotPast(T, S, key, b) && !T.pages[b].ignored && S.level[b] == S.level[start]
  {
    hide Before;
    b := start;
    while true
      invariant NotPast(T, S, key, b) && S.level[b] == S.level[start]
      decreases S.rank[b]
    {
      WellFormedPage(T, S, b);
      var p := T.pages[b];
      if p.next == 0 { break; }
      if !p.ignored {
        var c := CompareHigh(key, p);
        if c < key.Threshold() { break; }
      }
      StepRight(T, S, key, b);
      b := p.next;
    }
  }

  method CompareHigh(key: Key, p: Page) returns (c: int)
    requires p.next != 0 && |p.items| >= 1
    ensures c >= key.Threshold() <==> Before(key, p.items[0])
  {
    c := CompareAt(key.args, p, 1);
  }

  /** _bt_binsrch: on a leaf the first offset not before the position, on an internal page the last item
      before it. */
  method BinSearch(key: Key, p: Page) returns (off: nat)
    requires p.leaf || |p.items| >= p.FirstData()
    ensures p.leaf ==> p.FirstData() <= off && (off <= |p.items| + 1 || off == p.FirstData())
    ensures p.leaf && off > p.FirstData() ==> Compare(key.args, p, off - 1) >= key.Threshold()
    ensures p.leaf && off <= |p.items| ==> Compare(key.args, p, off) < key.Threshold()
    ensures !p.leaf ==> p.FirstData() <= off <= |p.items| && Compare(key.args, p, off) >= key.Threshold()
    ensures !p.leaf && off < |p.items| ==> Compare(key.args, p, off + 1) < key.Threshold()
  {
    var low, high := p.FirstData(), |p.items|;
    if high < low { return low; }
    high := high + 1;
    while high > low
      invariant p.FirstData() <= low <= high <= |p.items| + 1
      invariant low > p.FirstData() ==> Compare(key.args, p, low - 1) >= key.Threshold()
      invariant high <= |p.items| ==> Compare(key.args, p, high) < key.Threshold()
      invariant !p.leaf ==> high > p.FirstData()
    {
      var mid := low + (high - low) / 2;
      var result := CompareAt(key.args, p, mid);
      if result >= key.Threshold() { low := mid + 1; } else { high := mid; }
    }
    off := if p.leaf then low else low - 1;
  }

  /** _bt_search. */
  method Search(T: Tree, ghost S: Shape, key: Key) returns (b: nat)
    requires WellFormed(T, S) && |key.args| <= T.natts
    ensures b == 0 <==> !T.hasRoot
    ensures b != 0 ==> NotPast(T, S, key, b) && T.pages[b].leaf && !T.pages[b].ignored
  {
    hide WellFormed, NotPast, Compare;
    b := GetRoot(T, S, key);
    if b == 0 { return; }
    WellFormedChain(T, S);
    NotPastPage(T, S, key, b);
    while true
      invariant NotPast(T, S, key, b) && b in T.pages && b in S.level && b != 0
      decreases S.level[b]
    {
      b := MoveRight(T, S, key, b);
      NotPastPage(T, S, key, b);
      WellFormedPage(T, S, b);
      var p := T.pages[b];
      if p.leaf { break; }
      var off := BinSearch(key, p);
      StepDown(T, S, key, b, off);
      b := p.items[off - 1].down;
      NotPastPage(T, S, key, b);
      WellFormedPage(T, S, b);
    }
  }

  lemma {:induction false} NotPastPage(T: Tree, S: Shape, key: Key, b: nat)
    requires IsChain(T, S) && NotPast(T, S, key, b)
    ensures b in T.pages && b in S.first && b in S.level && b in S.rank
  {
  }
}
