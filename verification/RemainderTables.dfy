/** The construction of the four remainder tables from the words of the generator polynomial. */
module RemainderTables {
  import opened Arithmetic
  import opened Gf2
  import opened FieldLaws
  import opened Words
  import opened Encoder

  /** The words hold the generator g of degree e, left-justified: its leading bit is bit 31 of g[0]. */
  ghost predicate GenWords(words: seq<nat>, g: nat, e: nat) {
    && IsDivisor(g, e) && |words| == e / 32 + 1 && AreWords(words)
    && WordsVal(words) == Shl(g, 32 * |words| - (e + 1))
  }

  lemma {:induction false} LeadingBit(words: seq<nat>, g: nat, e: nat)
    requires GenWords(words, g, e)
    ensures words[0] >= 0x8000_0000
  {
    hide Digits, Shl;
    var n := |words| - 1;
    var k := 32 * |words| - (e + 1);
    assert words == [words[0]] + words[1..];
    DigitsCons(words[0], words[1..], 32);
    WordsBound(words[1..]);
    if words[0] < 0x8000_0000 {
      Pow2Values();
      assert words[0] < Pow2(31);
      MulStep(words[0], Pow2(31), Pow2(32 * n), WordsVal(words[1..]));
      Pow2Add(31, 32 * n);
      Pow2Add(e, k);
      hide Pow2;
      ShlDef(g, k);
      MulMono(Pow2(e), g, Pow2(k));
      assert false;
    }
  }

  /** The generator with one more word of zeros, when its last word is exactly full. */
  ghost function Framed(words: seq<nat>, n: nat): (s: seq<nat>)
    requires n <= |words| <= n + 1
    ensures |s| == n + 1
  {
    if |words| == n then words + [0] else words
  }

  lemma {:induction false} ModFactor(x: nat, p: nat, q: nat, w: nat)
    requires p > 0 && q > 0 && p * q == w
    ensures w > 0 && (x * q) % w == (x % p) * q
  {
    var h, lo := x / p, x % p;
    assert x == h * p + lo;
    Distribute(h, p, lo, q);
    MulStep(lo, p, q, 0);
    DivModUnique(x * q, w, h, lo * q);
  }

  lemma {:induction false} HighPart(x: nat, d: nat)
    requires x < W && d < 32
    ensures Pow2(d + 1) > 0 && (x * Pow2(d + 1)) % W == Shl(Low(x, 31 - d), d + 1)
  {
    Pow2Values();
    Pow2Add(31 - d, d + 1);
    hide Pow2;
    ModFactor(x, Pow2(31 - d), Pow2(d + 1), W);
  }

  lemma {:induction false} NoLow(n: nat)
    ensures Low(n, 0) == 0
  {
  }

  /** Add X^d g(X), below the part that goes to data, to the table words at off, in place. */
  method AddShifted(tab: array<nat>, off: nat, ecclen: nat, g: seq<nat>, d: nat)
    requires off + ecclen <= tab.Length && ecclen <= |g| <= ecclen + 1 && d < 32 && AreWords(g)
    modifies tab
    ensures tab[off..off + ecclen] == XorSeq(old(tab[off..off + ecclen]), Across(Framed(g, ecclen), 31 - d))
    ensures forall x :: 0 <= x < tab.Length && !(off <= x < off + ecclen) ==> tab[x] == old(tab[x])
  {
    hide Xor, Pow2, Shl, Shr, Low;
    ghost var f := Framed(g, ecclen);
    var j := 0;
    while j < ecclen
      invariant 0 <= j <= ecclen
      invariant forall k :: 0 <= k < j ==> tab[off + k] == Xor(old(tab[off + k]), AcrossWord(f[k], f[k + 1], 31 - d))
      invariant forall x :: 0 <= x < tab.Length && !(off <= x < off + j) ==> tab[x] == old(tab[x])
    {
      HighPart(g[j], d);
      var hi := if d < 31 then (g[j] * Pow2(d + 1)) % W else 0;
      if d == 31 { NoLow(g[j]); ShlNothing(d + 1); }
      var lo := if j + 1 < |g| then g[j + 1] / Pow2(31 - d) else 0;
      ShrDef(f[j + 1], 31 - d);
      ShrNothing(31 - d);
      tab[off + j] := Xor(tab[off + j], hi + lo);
      j := j + 1;
    }
  }

  lemma {:induction false} ShlNothing(k: nat)
    ensures Shl(0, k) == 0
  {
  }

  lemma {:induction false} ShrDef(x: nat, k: nat)
    ensures Shr(x, k) == x / Pow2(k)
  {
  }

  lemma {:induction false} ShrNothing(k: nat)
    ensures Shr(0, k) == 0
  {
  }

  /** What the table words and the word they extend gain: X^d times the generator. */
  lemma {:induction false} ShiftedGenerator(words: seq<nat>, g: nat, e: nat, n: nat, d: nat)
    requires GenWords(words, g, e) && n == (e + 31) / 32 && d < 32
    ensures AreWords(Framed(words, n)) && AreWords(Across(Framed(words, n), 31 - d))
    ensures Shl(Shr(words[0], 31 - d), 32 * n) + WordsVal(Across(Framed(words, n), 31 - d))
            == Shl(Shl(g, d), 32 * n - e)
  {
    hide Digits, Pow2, Shl, Shr, Low, Across;
    var f := Framed(words, n);
    FramedValue(words, g, e, n);
    ShiftRight(f, 31 - d);
    AcrossWords(f, 31 - d);
    var q := 31 - d;
    var z := Shl(Shr(f[0], q), 32 * n) + WordsVal(Across(f, q));
    ShlShl(g, d, 32 * n - e);
    ShlShl(g, d + (32 * n - e), q);
    assert d + (32 * n - e) + q == 32 * (n + 1) - (e + 1);
    ShlDef(z, q);
    MulCommutes(Pow2(q), z);
    ShlUnique(q, z, Low(f[n], q), Shl(g, d + (32 * n - e)), 0);
  }

  lemma {:induction false} MulCommutes(a: nat, b: nat)
    ensures a * b == b * a
  {
  }

  lemma {:induction false} FramedValue(words: seq<nat>, g: nat, e: nat, n: nat)
    requires GenWords(words, g, e) && n == (e + 31) / 32
    ensures AreWords(Framed(words, n)) && Framed(words, n)[0] == words[0]
    ensures WordsVal(Framed(words, n)) == Shl(g, 32 * (n + 1) - (e + 1))
  {
    hide Digits, Pow2, Shl;
    if |words| == n {
      DigitsConcat(words, [0], 32);
      DigitsOne(0, 32);
      ShlDef(WordsVal(words), 32);
      ShlShl(g, 32 * n - (e + 1), 32);
    }
  }

  lemma {:induction false} EntryStep(g: nat, e: nat, n: nat, d: nat, data: nat, v: nat, c: nat, g0: nat, vg: nat)
    requires IsDivisor(g, e) && e <= n && v < Pow2(n) && vg < Pow2(n)
    requires Shl(data, n) + v == Shl(c, n - e)
    requires Shl(g0, n) + vg == Shl(Shl(g, d), n - e)
    ensures Shl(Xor(data, g0), n) + Xor(v, vg) == Shl(Xor(c, Shl(g, d)), n - e)
    ensures Mod(g, e, Xor(c, Shl(g, d))) == Mod(g, e, c)
  {
    hide Xor, Pow2, Shl, Mod;
    ShlDef(data, n);
    ShlDef(g0, n);
    ShlDef(Xor(data, g0), n);
    XorSplit(data, v, g0, vg, n);
    ShlXor(c, Shl(g, d), n - e);
    ModLinear(g, e, c, Shl(g, d));
    ModSelf(g, e);
    ModShl(g, e, g, d);
    ShlNothing(d);
    ModSmall(g, e, 0);
    XorZero(Mod(g, e, c));
  }

  lemma {:induction false} DivRange(x: nat, a: nat, b: nat, q: nat)
    requires q > 0 && a * q <= x < b * q
    ensures a <= x / q < b
  {
    var h := x / q;
    assert x == h * q + x % q;
    assert (h + 1) * q == h * q + q;
    if h < a { MulMono(h + 1, a, q); }
    if h >= b { MulMono(b, h, q); }
  }

  lemma {:induction false} LeadingCancels(data: nat, d: nat, g0: nat)
    requires data > 0 && d == Deg(data) && d < 32 && 0x8000_0000 <= g0 < W
    ensures Xor(data, Shr(g0, 31 - d)) < Pow2(d) <= data
  {
    hide Xor;
    var q := 31 - d;
    Pow2Values();
    Pow2Add(d, q);
    Pow2Add(d + 1, q);
    assert Pow2(31) == 0x8000_0000;
    hide Pow2;
    DivRange(g0, Pow2(d), Pow2(d + 1), Pow2(q));
    XorTop(data, g0 / Pow2(q), d);
  }

  lemma {:induction false} EntryDone(g: nat, e: nat, l: nat, n: nat, data0: nat, c: nat, s: seq<nat>, z: seq<nat>)
    requires IsDivisor(g, e) && n == (e + 31) / 32 && n <= l && |s| == n && |z| == l - n && AreWords(s)
    requires forall i :: 0 <= i < |z| ==> z[i] == 0
    requires WordsVal(s) == Shl(c, 32 * n - e) && Mod(g, e, c) == Mod(g, e, Shl(data0, e))
    ensures Holds(s + z, e, Mod(g, e, Shl(data0, e)))
  {
    hide Pow2, Shl, Mod, Digits;
    WordsBound(s);
    if c >= Pow2(e) {
      Pow2Add(e, 32 * n - e);
      ShlDef(c, 32 * n - e);
      MulMono(Pow2(e), c, Pow2(32 * n - e));
      assert false;
    }
    ModSmall(g, e, c);
    DigitsConcat(s, z, 32);
    ZeroDigits(z, 32);
    ShlDef(WordsVal(s), 32 * |z|);
    ShlShl(c, 32 * n - e, 32 * |z|);
  }

  method FillEntry(tab: array<nat>, off: nat, l: nat, g: seq<nat>, eccBits: nat, data0: nat, ghost gn: nat)
    requires GenWords(g, gn, eccBits) && (eccBits + 31) / 32 <= l && off + l <= tab.Length && data0 < W
    requires forall x :: off <= x < off + l ==> tab[x] == 0
    modifies tab
    ensures Holds(tab[off..off + l], eccBits, Mod(gn, eccBits, Shl(data0, eccBits)))
    ensures forall x :: 0 <= x < tab.Length && !(off <= x < off + l) ==> tab[x] == old(tab[x])
  {
    hide Xor, Pow2, Shl, Shr, Mod, Digits, Across, Framed;
    var n := (eccBits + 31) / 32;
    var data: nat := data0;
    ghost var c := Shl(data0, eccBits);
    ghost var s := tab[off..off + n];
    LeadingBit(g, gn, eccBits);
    ZeroDigits(s, 32);
    ShlShl(data0, eccBits, 32 * n - eccBits);
    while data != 0
      invariant data < W && s == tab[off..off + n] && AreWords(s)
      invariant Shl(data, 32 * n) + WordsVal(s) == Shl(c, 32 * n - eccBits)
      invariant Mod(gn, eccBits, c) == Mod(gn, eccBits, Shl(data0, eccBits))
      invariant forall x :: off + n <= x < off + l ==> tab[x] == 0
      invariant forall x :: 0 <= x < tab.Length && !(off <= x < off + l) ==> tab[x] == old(tab[x])
      decreases data
    {
      var d := Deg(data);
      DegBound(data, d);
      LeadingCancels(data, d, g[0]);
      ShiftedGenerator(g, gn, eccBits, n, d);
      ghost var across := Across(Framed(g, n), 31 - d);
      WordsBound(s);
      WordsBound(across);
      EntryStep(gn, eccBits, 32 * n, d, data, WordsVal(s), c, Shr(g[0], 31 - d), WordsVal(across));
      XorWords(s, across);
      ShrDef(g[0], 31 - d);
      data := Xor(data, g[0] / Pow2(31 - d));
      AddShifted(tab, off, n, g, d);
      c := Xor(c, Shl(gn, d));
      s := XorSeq(s, across);
    }
    ShlNothing(32 * n);
    ghost var z := tab[off + n..off + l];
    assert tab[off..off + l] == s + z;
    EntryDone(gn, eccBits, l, n, data0, c, s, z);
  }

  lemma {:induction false} DegBound(x: nat, d: nat)
    requires 0 < x < W && d == Deg(x)
    ensures d < 32
  {
    Pow2Values();
    if d >= 32 { Pow2Mono(32, d); }
  }

  /** The k-th row of a flat table of rows of l words. */
  ghost function Row(s: seq<nat>, l: nat, k: nat): seq<nat>
    requires |s| == 1024 * l && k < 1024
  {
    EntryRange(l, k);
    s[k * l..k * l + l]
  }

  ghost predicate RowOk(s: seq<nat>, l: nat, g: nat, e: nat, k: nat)
    requires |s| == 1024 * l && k < 1024 && IsDivisor(g, e)
  {
    Holds(Row(s, l, k), e, Mod(g, e, Shl(Shl(k % 256, 8 * (k / 256)), e)))
  }

  ghost predicate RowZero(s: seq<nat>, l: nat, k: nat)
    requires |s| == 1024 * l && k < 1024
  {
    forall j :: 0 <= j < l ==> Row(s, l, k)[j] == 0
  }

  lemma {:induction false} RowsApart(l: nat, k: nat, k': nat)
    requires k < k'
    ensures k * l + l <= k' * l
  {
    MulMono(k + 1, k', l);
    assert (k + 1) * l == k * l + l;
  }

  lemma {:induction false} RowUnchanged(s: seq<nat>, t: seq<nat>, l: nat, k: nat, k': nat)
    requires |s| == |t| == 1024 * l && k < 1024 && k' < 1024 && k != k'
    requires forall x :: 0 <= x < |s| && !(k * l <= x < k * l + l) ==> s[x] == t[x]
    ensures Row(s, l, k') == Row(t, l, k')
  {
    EntryRange(l, k');
    if k < k' { RowsApart(l, k, k'); } else { RowsApart(l, k', k); }
  }

  lemma {:induction false} ByteShiftBound(i: nat, b: nat)
    requires i < 256 && b < 4
    ensures Shl(i, 8 * b) < W
  {
    Pow2Values();
    if b == 0 { assert Pow2(0) == 1; }
  }

  ghost predicate Progress(s: seq<nat>, l: nat, g: nat, e: nat, i: nat, b: nat)
    requires |s| == 1024 * l && IsDivisor(g, e)
  {
    forall k :: 0 <= k < 1024 ==>
      if k % 256 < i || (k % 256 == i && k / 256 < b) then RowOk(s, l, g, e, k) else RowZero(s, l, k)
  }

  lemma {:induction false} ProgressStep(s: seq<nat>, t: seq<nat>, l: nat, g: nat, e: nat, i: nat, b: nat)
    requires |s| == |t| == 1024 * l && IsDivisor(g, e) && i < 256 && b < 4
    requires Progress(s, l, g, e, i, b)
    requires var k := 256 * b + i;
             RowOk(t, l, g, e, k) && forall x :: 0 <= x < |s| && !(k * l <= x < k * l + l) ==> s[x] == t[x]
    ensures Progress(t, l, g, e, i, b + 1)
  {
    hide Row, Holds, Mod, Shl;
    var k := 256 * b + i;
    forall k' | 0 <= k' < 1024
      ensures if k' % 256 < i || (k' % 256 == i && k' / 256 < b + 1) then RowOk(t, l, g, e, k') else RowZero(t, l, k')
    {
      if k' != k {
        RowUnchanged(s, t, l, k, k');
        if k' % 256 < i || (k' % 256 == i && k' / 256 < b) {
          assert RowOk(s, l, g, e, k');
        } else {
          assert RowZero(s, l, k');
        }
      }
    }
  }

  lemma {:induction false} ProgressDone(s: seq<nat>, l: nat, g: nat, e: nat)
    requires |s| == 1024 * l && IsDivisor(g, e) && l > 0 && e <= 32 * l && AreWords(s)
    requires Progress(s, l, g, e, 256, 0)
    ensures TableOk(s, l, g, e)
  {
    hide Mod, Shl, Digits;
    forall b, i | 0 <= b < 4 && 0 <= i < 256 ensures EntryOk(s, l, g, e, b, i) {
      var k := 256 * b + i;
      assert k % 256 == i && k / 256 == b;
      assert RowOk(s, l, g, e, k);
      assert Row(s, l, k) == Entry(s, l, k);
    }
  }

  /** Entry i of table b. */
  method FillOne(tab: array<nat>, l: nat, g: seq<nat>, eccBits: nat, i: nat, b: nat, ghost gn: nat)
    requires GenWords(g, gn, eccBits) && l > 0 && (eccBits + 31) / 32 <= l && i < 256 && b < 4
    requires tab.Length == 1024 * l && AreWords(tab[..]) && Progress(tab[..], l, gn, eccBits, i, b)
    modifies tab
    ensures AreWords(tab[..]) && Progress(tab[..], l, gn, eccBits, i, b + 1)
  {
    hide Mod, Shl, Digits, Pow2, Progress;
    var k := 256 * b + i;
    ghost var s := tab[..];
    EntryRange(l, k);
    ByteShiftBound(i, b);
    ProgressZero(s, l, gn, eccBits, i, b);
    FillEntry(tab, k * l, l, g, eccBits, Shl(i, 8 * b), gn);
    ghost var row := tab[k * l..k * l + l];
    forall x | 0 <= x < tab.Length ensures tab[x] < W {
      if k * l <= x < k * l + l { assert tab[x] == row[x - k * l]; } else { assert tab[x] == s[x]; }
    }
    assert row == Row(tab[..], l, k);
    ProgressStep(s, tab[..], l, gn, eccBits, i, b);
  }

  method BuildMod8Tables(l: nat, g: seq<nat>, eccBits: nat, ghost gn: nat) returns (tab: array<nat>)
    requires GenWords(g, gn, eccBits) && l > 0 && (eccBits + 31) / 32 <= l
    ensures fresh(tab) && TableOk(tab[..], l, gn, eccBits)
  {
    hide Mod, Shl, Digits, Pow2, Progress;
    tab := new nat[1024 * l](_ => 0);
    ProgressStart(tab[..], l, gn, eccBits);
    var i := 0;
    while i < 256
      invariant 0 <= i <= 256 && AreWords(tab[..])
      invariant Progress(tab[..], l, gn, eccBits, i, 0)
    {
      var b := 0;
      while b < 4
        invariant 0 <= b <= 4 && AreWords(tab[..])
        invariant Progress(tab[..], l, gn, eccBits, i, b)
      {
        FillOne(tab, l, g, eccBits, i, b, gn);
        b := b + 1;
      }
      ProgressNext(tab[..], l, gn, eccBits, i);
      i := i + 1;
    }
    ProgressDone(tab[..], l, gn, eccBits);
  }

  lemma {:induction false} ProgressStart(s: seq<nat>, l: nat, g: nat, e: nat)
    requires |s| == 1024 * l && IsDivisor(g, e) && forall x :: 0 <= x < |s| ==> s[x] == 0
    ensures Progress(s, l, g, e, 0, 0)
  {
    forall k | 0 <= k < 1024 ensures RowZero(s, l, k) { EntryRange(l, k); }
  }

  lemma {:induction false} ProgressZero(s: seq<nat>, l: nat, g: nat, e: nat, i: nat, b: nat)
    requires |s| == 1024 * l && IsDivisor(g, e) && i < 256 && b < 4 && Progress(s, l, g, e, i, b)
    ensures var k := 256 * b + i; 0 <= k * l <= k * l + l <= |s| && forall x :: k * l <= x < k * l + l ==> s[x] == 0
  {
    hide RowOk;
    var k := 256 * b + i;
    EntryRange(l, k);
    assert k % 256 == i && k / 256 == b;
    assert RowZero(s, l, k);
    forall x | k * l <= x < k * l + l ensures s[x] == 0 { assert s[x] == Row(s, l, k)[x - k * l]; }
  }

  lemma {:induction false} ProgressNext(s: seq<nat>, l: nat, g: nat, e: nat, i: nat)
    requires |s| == 1024 * l && IsDivisor(g, e) && i < 256 && Progress(s, l, g, e, i, 4)
    ensures Progress(s, l, g, e, i + 1, 0)
  {
  }
}
