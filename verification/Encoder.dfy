/** The systematic encoder: remainder tables, the byte-at-a-time and the word-at-a-time loop, and the
    proof that both are long division by the generator polynomial. */
module Encoder {
  import opened Arithmetic
  import opened Gf2
  import opened FieldLaws
  import opened Words

  // ----- what encoding computes

  /** The parity r after k more message bits d: the remainder of r X^k + d X^e by g. */
  ghost function Absorb(g: nat, e: nat, r: nat, d: nat, k: nat): (s: nat)
    requires IsDivisor(g, e)
    ensures s < Pow2(e)
  {
    Mod(g, e, Xor(Shl(r, k), Shl(d, e)))
  }

  lemma {:induction false} ShlShl(x: nat, i: nat, k: nat)
    ensures Shl(Shl(x, i), k) == Shl(x, i + k)
  {
    Pow2Add(i, k);
    hide Pow2;
    assert x * Pow2(i) * Pow2(k) == x * (Pow2(i) * Pow2(k));
  }

  lemma {:induction false} ShlXor(x: nat, y: nat, k: nat)
    ensures Shl(Xor(x, y), k) == Xor(Shl(x, k), Shl(y, k))
  {
    XorScale(x, y, k);
  }

  lemma {:induction false} XorOntoLow(x: nat, y: nat, k: nat)
    requires y < Pow2(k)
    ensures Xor(Shl(x, k), y) == Shl(x, k) + y
  {
    XorDisjoint(x, y, k);
  }

  lemma {:induction false} ModShl(g: nat, e: nat, a: nat, k: nat)
    requires IsDivisor(g, e)
    ensures Mod(g, e, Shl(Mod(g, e, a), k)) == Mod(g, e, Shl(a, k))
  {
    ModShift(g, e, a, k);
  }

  /** Absorbing d1 and then d2 is absorbing their concatenation: encoding may be split into
      successive calls anywhere. */
  lemma {:induction false} AbsorbTwice(g: nat, e: nat, r: nat, d1: nat, k1: nat, d2: nat, k2: nat)
    requires IsDivisor(g, e) && d2 < Pow2(k2)
    ensures Absorb(g, e, Absorb(g, e, r, d1, k1), d2, k2) == Absorb(g, e, r, Shl(d1, k2) + d2, k1 + k2)
  {
    hide Xor, Mod, Pow2, Shl;
    var a := Xor(Shl(r, k1), Shl(d1, e));
    calc {
      Mod(g, e, Xor(Shl(Mod(g, e, a), k2), Shl(d2, e)));
      { ModLinear(g, e, Shl(Mod(g, e, a), k2), Shl(d2, e)); ModShl(g, e, a, k2); ModLinear(g, e, Shl(a, k2),
        Shl(d2, e)); }
      Mod(g, e, Xor(Shl(a, k2), Shl(d2, e)));
      { ShlXor(Shl(r, k1), Shl(d1, e), k2); ShlShl(r, k1, k2); ShlShl(d1, e, k2); ShlShl(d1, k2, e); }
      Mod(g, e, Xor(Xor(Shl(r, k1 + k2), Shl(Shl(d1, k2), e)), Shl(d2, e)));
      { XorAssoc(Shl(r, k1 + k2), Shl(Shl(d1, k2), e), Shl(d2, e)); ShlXor(Shl(d1, k2), d2, e); }
      Mod(g, e, Xor(Shl(r, k1 + k2), Shl(Xor(Shl(d1, k2), d2), e)));
      { XorOntoLow(d1, d2, k2); }
      Mod(g, e, Xor(Shl(r, k1 + k2), Shl(Shl(d1, k2) + d2, e)));
    }
  }

  lemma {:induction false} AbsorbNothing(g: nat, e: nat, r: nat)
    requires IsDivisor(g, e) && r < Pow2(e)
    ensures Absorb(g, e, r, 0, 0) == r
  {
    XorZero(r);
    ModSmall(g, e, r);
  }

  /** Encoding is linear: parity and message may be added separately. */
  lemma {:induction false} AbsorbLinear(g: nat, e: nat, r: nat, d: nat, r': nat, d': nat, k: nat)
    requires IsDivisor(g, e)
    ensures Absorb(g, e, Xor(r, r'), Xor(d, d'), k) == Xor(Absorb(g, e, r, d, k), Absorb(g, e, r', d', k))
  {
    hide Xor, Mod, Pow2, Shl;
    ShlXor(r, r', k);
    ShlXor(d, d', e);
    XorSwap4(Shl(r, k), Shl(r', k), Shl(d, e), Shl(d', e));
    ModLinear(g, e, Xor(Shl(r, k), Shl(d, e)), Xor(Shl(r', k), Shl(d', e)));
  }

  /** Encoding a message from parity zero makes message and parity together a multiple of g. */
  lemma {:induction false} CodewordIsMultiple(g: nat, e: nat, d: nat, k: nat)
    requires IsDivisor(g, e)
    ensures Mod(g, e, Xor(Shl(d, e), Absorb(g, e, 0, d, k))) == 0
  {
    hide Xor, Mod, Pow2;
    var v := Shl(d, e);
    assert Shl(0, k) == 0;
    XorZero(v);
    ModLinear(g, e, v, Mod(g, e, v));
    ModSmall(g, e, Mod(g, e, v));
    XorSelf(Mod(g, e, v));
  }

  // ----- left-justified parity in words

  /** The words hold parity r, left-justified. */
  ghost predicate Holds(words: seq<nat>, e: nat, r: nat) {
    && AreWords(words) && e <= 32 * |words| && r < Pow2(e)
    && WordsVal(words) == Shl(r, 32 * |words| - e)
  }

  /** One table-driven step over k message bits d, on parity left-justified in n bits: top is what
      the shift by k pushes out, low is what stays. */
  lemma {:induction false} StepBits(g: nat, e: nat, n: nat, k: nat, r: nat, d: nat, top: nat, low: nat)
    requires IsDivisor(g, e) && r < Pow2(e) && e <= n && d < Pow2(k)
    requires Shl(Shl(r, n - e), k) == Shl(top, n) + low && low < Pow2(n)
    ensures Xor(low, Shl(Mod(g, e, Shl(Xor(top, d), e)), n - e)) == Shl(Absorb(g, e, r, d, k), n - e)
  {
    hide Xor, Mod, Pow2, Shl, Shr, Low;
    var rk := Shl(r, k);
    var lo := Low(rk, e);
    TopAndLow(e, n, k, r, top, low);
    XorOntoHigh(top, d, lo, e);
    ModLinear(g, e, Shl(Xor(top, d), e), lo);
    ModSmall(g, e, lo);
    var q := Mod(g, e, Shl(Xor(top, d), e));
    assert Absorb(g, e, r, d, k) == Xor(q, lo);
    ShlXor(q, lo, n - e);
    XorComm(low, Shl(q, n - e));
  }

  lemma {:induction false} XorOntoHigh(x: nat, y: nat, lo: nat, e: nat)
    requires lo < Pow2(e)
    ensures Xor(Shl(x, e) + lo, Shl(y, e)) == Xor(Shl(Xor(x, y), e), lo)
  {
    hide Xor, Pow2;
    XorSplit(x, lo, y, 0, e);
    XorZero(lo);
    XorDisjoint(Xor(x, y), lo, e);
  }

  lemma {:induction false} SplitAt(x: nat, e: nat)
    ensures x == Shl(Shr(x, e), e) + Low(x, e)
  {
  }

  lemma {:induction false} ShlSum(h: nat, e: nat, lo: nat, k: nat)
    ensures Shl(Shl(h, e) + lo, k) == Shl(h, e + k) + Shl(lo, k)
  {
    Pow2Add(e, k);
    hide Pow2;
    Distribute(h, Pow2(e), lo, Pow2(k));
  }

  lemma {:induction false} ShlBound(x: nat, e: nat, k: nat)
    requires x < Pow2(e)
    ensures Shl(x, k) < Pow2(e + k)
  {
    Pow2Add(e, k);
    hide Pow2;
    MulStep(x, Pow2(e), Pow2(k), 0);
  }

  lemma {:induction false} ShlUnique(n: nat, top: nat, low: nat, top': nat, low': nat)
    requires low < Pow2(n) && low' < Pow2(n) && Shl(top, n) + low == Shl(top', n) + low'
    ensures top == top' && low == low'
  {
    hide Pow2;
    var p := Pow2(n);
    DivModUnique(top * p + low, p, top, low);
    DivModUnique(top * p + low, p, top', low');
  }

  lemma {:induction false} TopAndLow(e: nat, n: nat, k: nat, r: nat, top: nat, low: nat)
    requires e <= n
    requires Shl(Shl(r, n - e), k) == Shl(top, n) + low && low < Pow2(n)
    ensures var rk := Shl(r, k); low == Shl(Low(rk, e), n - e) && rk == Shl(top, e) + Low(rk, e)
  {
    hide Pow2, Shl, Shr, Low;
    var rk := Shl(r, k);
    var hi, lo := Shr(rk, e), Low(rk, e);
    ShlShl(r, n - e, k);
    ShlShl(r, k, n - e);
    SplitAt(rk, e);
    ShlSum(hi, e, lo, n - e);
    ShlBound(lo, e, n - e);
    ShlUnique(n, top, low, hi, Shl(lo, n - e));
  }

  // ----- the remainder tables

  ghost predicate TableShape(tab: seq<nat>, l: nat) {
    |tab| == 1024 * l && AreWords(tab)
  }

  lemma {:induction false} EntryRange(l: nat, k: nat)
    requires k < 1024
    ensures 0 <= k * l <= k * l + l <= 1024 * l
  {
    MulMono(k + 1, 1024, l);
    assert (k + 1) * l == k * l + l;
  }

  ghost function Entry(tab: seq<nat>, l: nat, k: nat): (s: seq<nat>)
    requires TableShape(tab, l) && k < 1024
    ensures |s| == l && AreWords(s)
  {
    EntryRange(l, k);
    tab[k * l..k * l + l]
  }

  /** Entry i of table b holds i X^(8b+e) mod g, left-justified. */
  ghost predicate EntryOk(tab: seq<nat>, l: nat, g: nat, e: nat, b: nat, i: nat)
    requires TableShape(tab, l) && IsDivisor(g, e) && b < 4 && i < 256
  {
    Holds(Entry(tab, l, 256 * b + i), e, Mod(g, e, Shl(Shl(i, 8 * b), e)))
  }

  ghost predicate TableOk(tab: seq<nat>, l: nat, g: nat, e: nat) {
    && l > 0 && TableShape(tab, l) && IsDivisor(g, e) && e <= 32 * l
    && forall b, i :: 0 <= b < 4 && 0 <= i < 256 ==> EntryOk(tab, l, g, e, b, i)
  }

  // ----- one byte

  lemma {:induction false} ShiftOr(x: nat, y: nat)
    requires x < W && y < W
    ensures (x * 256) % W + y / 0x100_0000 == AcrossWord(x, y, 24)
  {
    Pow2Values();
    hide Pow2;
    assert (x * 256) % W == (x % 0x100_0000) * 256;
  }

  lemma {:induction false} ByteShift(s: seq<nat>)
    requires |s| > 0 && AreWords(s)
    ensures AreWords(s + [0]) && AreWords(Across(s + [0], 24))
    ensures Shl(WordsVal(s), 8) == Shl(Shr(s[0], 24), 32 * |s|) + WordsVal(Across(s + [0], 24))
    ensures WordsVal(Across(s + [0], 24)) < Pow2(32 * |s|)
  {
    hide Pow2, Digits, Across, Shl, Shr, Low;
    var s0 := s + [0];
    ShiftRight(s0, 24);
    AcrossWords(s0, 24);
    WordsBound(Across(s0, 24));
    DigitsConcat(s, [0], 32);
    DigitsOne(0, 32);
    Pow2Values();
    assert s0[|s0| - 1] == 0;
    LowZero(24);
    ShlByte(WordsVal(s));
    DivideOut(WordsVal(s), Shl(Shr(s[0], 24), 32 * |s|) + WordsVal(Across(s0, 24)));
  }

  lemma {:induction false} DivideOut(v: nat, x: nat)
    requires v * W == 0x100_0000 * x
    ensures v * 256 == x
  {
  }

  lemma {:induction false} LowZero(k: nat)
    ensures Low(0, k) == 0
  {
  }

  lemma {:induction false} ShlByte(x: nat)
    ensures Shl(x, 8) == x * 256
  {
    Pow2Values();
  }

  /** Shift the parity words left by one byte and add the table words at p, in place. */
  method ShiftAndAdd(tab: seq<nat>, p: nat, ecc: array<nat>)
    requires ecc.Length > 0 && p + ecc.Length <= |tab| && AreWords(ecc[..])
    modifies ecc
    ensures ecc[..] == XorSeq(Across(old(ecc[..]) + [0], 24), tab[p..p + ecc.Length])
  {
    hide Xor, Pow2, Shl, Shr, Low, AcrossWord;
    var l := ecc.Length;
    ghost var s := ecc[..];
    var i := 0;
    while i < l - 1
      invariant 0 <= i <= l - 1
      invariant forall k :: 0 <= k < i ==> ecc[k] == Xor(AcrossWord(s[k], s[k + 1], 24), tab[p + k])
      invariant forall k :: i <= k < l ==> ecc[k] == s[k]
    {
      ShiftOr(s[i], s[i + 1]);
      ecc[i] := Xor((ecc[i] * 256) % W + ecc[i + 1] / 0x100_0000, tab[p + i]);
      i := i + 1;
    }
    ShiftOr(s[l - 1], 0);
    ecc[l - 1] := Xor((ecc[l - 1] * 256) % W, tab[p + (l - 1)]);
  }

  lemma {:induction false} ByteValue(l: nat, tab: seq<nat>, g: nat, e: nat, s: seq<nat>, r: nat, tmp: nat, idx: nat)
    requires TableOk(tab, l, g, e) && |s| == l && tmp < 256 && Holds(s, e, r)
    requires idx < 256 && idx == Xor(Shr(s[0], 24), tmp)
    ensures Holds(XorSeq(Across(s + [0], 24), Entry(tab, l, idx)), e, Absorb(g, e, r, tmp, 8))
  {
    hide Xor, Mod, Pow2, Shl, Shr, Low, Digits, Across, Entry, XorSeq;
    var entry, shifted := Entry(tab, l, idx), Across(s + [0], 24);
    assert EntryOk(tab, l, g, e, 0, idx);
    ByteShift(s);
    XorWords(shifted, entry);
    ShiftedZero(idx);
    Pow2Values();
    StepBits(g, e, 32 * l, 8, r, tmp, Shr(s[0], 24), WordsVal(shifted));
  }

  method EncodeByte(l: nat, tab: seq<nat>, tmp: nat, ecc: array<nat>, ghost g: nat, ghost e: nat, ghost r: nat)
    requires TableOk(tab, l, g, e) && ecc.Length == l && tmp < 256 && Holds(ecc[..], e, r)
    modifies ecc
    ensures Holds(ecc[..], e, Absorb(g, e, r, tmp, 8))
  {
    hide Xor, Mod, Pow2, Shl, Low, Digits, Across, XorSeq, Absorb;
    Pow2Values();
    ghost var s := ecc[..];
    assert Shr(s[0], 24) == ecc[0] / 0x100_0000;
    XorBound(ecc[0] / 0x100_0000, tmp, 8);
    var idx := Xor(ecc[0] / 0x100_0000, tmp);
    EntryRange(l, idx);
    ByteValue(l, tab, g, e, s, r, tmp, idx);
    ShiftAndAdd(tab, idx * l, ecc);
  }

  lemma {:induction false} ShiftedZero(x: nat)
    ensures Shl(x, 8 * 0) == x
  {
  }

  // ----- one word

  lemma {:induction false} WordShift(s: seq<nat>)
    requires |s| > 0 && AreWords(s)
    ensures AreWords(s[1..] + [0])
    ensures Shl(WordsVal(s), 32) == Shl(s[0], 32 * |s|) + WordsVal(s[1..] + [0])
    ensures WordsVal(s[1..] + [0]) < Pow2(32 * |s|)
  {
    hide Pow2, Digits, Shl;
    assert s == [s[0]] + s[1..];
    DigitsCons(s[0], s[1..] , 32);
    DigitsConcat(s[1..], [0], 32);
    DigitsOne(0, 32);
    WordsBound(s[1..] + [0]);
    ShlDef(s[0], 32 * (|s| - 1));
    ShlDef(WordsVal(s[1..]), 32);
    ShlSum(s[0], 32 * (|s| - 1), WordsVal(s[1..]), 32);
  }

  lemma {:induction false} ShlDef(x: nat, k: nat)
    ensures Shl(x, k) == x * Pow2(k)
  {
  }

  /** A table contribution is additive in the bits it stands for. */
  lemma {:induction false} ContributionXor(g: nat, e: nat, pad: nat, x: nat, y: nat)
    requires IsDivisor(g, e)
    ensures Shl(Mod(g, e, Shl(Xor(x, y), e)), pad)
            == Xor(Shl(Mod(g, e, Shl(x, e)), pad), Shl(Mod(g, e, Shl(y, e)), pad))
  {
    hide Xor, Mod, Pow2, Shl;
    ShlXor(x, y, e);
    ModLinear(g, e, Shl(x, e), Shl(y, e));
    ShlXor(Mod(g, e, Shl(x, e)), Mod(g, e, Shl(y, e)), pad);
  }

  lemma {:induction false} FourBytes(w: nat)
    requires w < W
    ensures w == w % 256 + (w / 256 % 256) * 256 + (w / 0x1_0000 % 256) * 0x1_0000 + (w / 0x100_0000) * 0x100_0000
    ensures w / 0x100_0000 < 256
  {
    var w1 := w / 256;
    var w2 := w1 / 256;
    var w3 := w2 / 256;
    assert w == w1 * 256 + w % 256 && w1 == w2 * 256 + w1 % 256 && w2 == w3 * 256 + w2 % 256;
    assert w2 == w / 0x1_0000 && w3 == w / 0x100_0000;
  }

  lemma {:induction false} JoinBytes(b0: nat, b1: nat, b2: nat, b3: nat)
    requires b0 < 256 && b1 < 256 && b2 < 256 && b3 < 256
    ensures b0 + b1 * 256 + b2 * 0x1_0000 + b3 * 0x100_0000
            == Xor(Xor(Xor(Shl(b0, 0), Shl(b1, 8)), Shl(b2, 16)), Shl(b3, 24))
  {
    hide Xor, Pow2, Shl;
    ShlValues(b0, b1, b2, b3);
    var x := b1 * 256 + b0;
    var y := b2 * 0x1_0000 + x;
    XorComm(b0, Shl(b1, 8));
    XorOntoLow(b1, b0, 8);
    XorComm(x, Shl(b2, 16));
    XorOntoLow(b2, x, 16);
    XorComm(y, Shl(b3, 24));
    XorOntoLow(b3, y, 24);
  }

  lemma {:induction false} ShlValues(b0: nat, b1: nat, b2: nat, b3: nat)
    ensures Shl(b0, 0) == b0 && Shl(b1, 8) == b1 * 256 && Shl(b2, 16) == b2 * 0x1_0000 && Shl(b3, 24) == b3 * 0x100_0000
    ensures Pow2(8) == 0x100 && Pow2(16) == 0x1_0000 && Pow2(24) == 0x100_0000
  {
    Pow2Values();
    Pow2Zero();
    hide Pow2;
  }

  lemma {:induction false} WordParts(w: nat)
    requires w < W
    ensures w == Xor(Xor(Xor(Shl(w % 256, 0), Shl(w / 256 % 256, 8)), Shl(w / 0x1_0000 % 256, 16)),
            Shl(w / 0x100_0000, 24))
  {
    hide Xor, Shl;
    FourBytes(w);
    JoinBytes(w % 256, w / 256 % 256, w / 0x1_0000 % 256, w / 0x100_0000);
  }

  /** The four table entries selected by the bytes of w add up to w X^e mod g. */
  lemma {:induction false} FourTables(g: nat, e: nat, pad: nat, w: nat)
    requires IsDivisor(g, e) && w < W
    ensures var c := (b: nat, i: nat) => Shl(Mod(g, e, Shl(Shl(i, 8 * b), e)), pad);
            Xor(Xor(Xor(c(0, w % 256), c(1, w / 256 % 256)), c(2, w / 0x1_0000 % 256)), c(3, w / 0x100_0000))
            == Shl(Mod(g, e, Shl(w, e)), pad)
  {
    hide Xor, Mod, Pow2, Shl;
    var x0, x1, x2, x3 := Shl(w % 256, 0), Shl(w / 256 % 256, 8), Shl(w / 0x1_0000 % 256, 16), Shl(w / 0x100_0000, 24);
    WordParts(w);
    ContributionXor(g, e, pad, Xor(Xor(x0, x1), x2), x3);
    ContributionXor(g, e, pad, Xor(x0, x1), x2);
    ContributionXor(g, e, pad, x0, x1);
  }

  ghost function AddFour(s: seq<nat>, t0: seq<nat>, t1: seq<nat>, t2: seq<nat>, t3: seq<nat>): (r: seq<nat>)
    requires |s| == |t0| == |t1| == |t2| == |t3|
    ensures |r| == |s|
  {
    XorSeq(XorSeq(XorSeq(XorSeq(s, t0), t1), t2), t3)
  }

  lemma {:induction false} AddFourValue(s: seq<nat>, t0: seq<nat>, t1: seq<nat>, t2: seq<nat>, t3: seq<nat>)
    requires |s| == |t0| == |t1| == |t2| == |t3|
    requires AreWords(s) && AreWords(t0) && AreWords(t1) && AreWords(t2) && AreWords(t3)
    ensures AreWords(AddFour(s, t0, t1, t2, t3))
    ensures WordsVal(AddFour(s, t0, t1, t2, t3))
         == Xor(WordsVal(s), Xor(Xor(Xor(WordsVal(t0), WordsVal(t1)), WordsVal(t2)), WordsVal(t3)))
  {
    hide Xor, Digits, XorSeq;
    XorWords(s, t0);
    XorWords(XorSeq(s, t0), t1);
    XorWords(XorSeq(XorSeq(s, t0), t1), t2);
    XorWords(XorSeq(XorSeq(XorSeq(s, t0), t1), t2), t3);
    var v, a, b, c, d := WordsVal(s), WordsVal(t0), WordsVal(t1), WordsVal(t2), WordsVal(t3);
    XorAssoc(v, a, b);
    XorAssoc(v, Xor(a, b), c);
    XorAssoc(v, Xor(Xor(a, b), c), d);
  }

  function AddFive(v: nat, a: nat, b: nat, c: nat, d: nat): nat {
    Xor(Xor(Xor(Xor(v, a), b), c), d)
  }

  /** Drop the first parity word and add the four table rows at p0..p3, in place. */
  method ShiftWordAndAdd(tab: seq<nat>, p0: nat, p1: nat, p2: nat, p3: nat, r: array<nat>)
    requires r.Length > 0
    requires p0 + r.Length <= |tab| && p1 + r.Length <= |tab| && p2 + r.Length <= |tab| && p3 + r.Length <= |tab|
    modifies r
    ensures r[..] == AddFour(old(r[1..]) + [0], tab[p0..p0 + r.Length], tab[p1..p1 + r.Length],
                             tab[p2..p2 + r.Length], tab[p3..p3 + r.Length])
  {
    hide Xor, AddFour, AddFive;
    var l := r.Length;
    ghost var s := r[1..] + [0];
    ghost var goal := AddFour(s, tab[p0..p0 + l], tab[p1..p1 + l], tab[p2..p2 + l], tab[p3..p3 + l]);
    var i := 0;
    while i < l - 1
      invariant 0 <= i <= l - 1
      invariant forall k :: 0 <= k < i ==> r[k] == goal[k]
      invariant forall k :: i < k < l ==> r[k] == s[k - 1]
    {
      AddFourAt(s, tab, p0, p1, p2, p3, i);
      r[i] := AddFive(r[i + 1], tab[p0 + i], tab[p1 + i], tab[p2 + i], tab[p3 + i]);
      i := i + 1;
    }
    AddFourAt(s, tab, p0, p1, p2, p3, l - 1);
    AddFiveZero(tab[p0 + (l - 1)], tab[p1 + (l - 1)], tab[p2 + (l - 1)], tab[p3 + (l - 1)]);
    r[l - 1] := Xor(Xor(Xor(tab[p0 + (l - 1)], tab[p1 + (l - 1)]), tab[p2 + (l - 1)]), tab[p3 + (l - 1)]);
    assert r[..] == goal;
  }

  lemma {:induction false} AddFiveZero(a: nat, b: nat, c: nat, d: nat)
    ensures AddFive(0, a, b, c, d) == Xor(Xor(Xor(a, b), c), d)
  {
    hide Xor;
    XorZero(a);
  }

  lemma {:induction false} AddFourAt(s: seq<nat>, tab: seq<nat>, p0: nat, p1: nat, p2: nat, p3: nat, k: nat)
    requires k < |s|
    requires p0 + |s| <= |tab| && p1 + |s| <= |tab| && p2 + |s| <= |tab| && p3 + |s| <= |tab|
    ensures AddFour(s, tab[p0..p0 + |s|], tab[p1..p1 + |s|], tab[p2..p2 + |s|], tab[p3..p3 + |s|])[k]
         == AddFive(s[k], tab[p0 + k], tab[p1 + k], tab[p2 + k], tab[p3 + k])
  {
    hide Xor;
  }

  lemma {:induction false} WordValue(l: nat, tab: seq<nat>, g: nat, e: nat, s: seq<nat>, r: nat, word: nat, w: nat)
    requires TableOk(tab, l, g, e) && |s| == l && word < W && Holds(s, e, r)
    requires w < W && w == Xor(s[0], word)
    ensures Holds(AddFour(s[1..] + [0], Entry(tab, l, w % 256), Entry(tab, l, 256 + w / 256 % 256),
                          Entry(tab, l, 512 + w / 0x1_0000 % 256), Entry(tab, l, 768 + w / 0x100_0000)),
                  e, Absorb(g, e, r, word, 32))
  {
    hide Xor, Mod, Pow2, Shl, Digits, Entry, XorSeq, AddFour;
    var b0, b1, b2, b3 := w % 256, w / 256 % 256, w / 0x1_0000 % 256, w / 0x100_0000;
    assert EntryOk(tab, l, g, e, 0, b0);
    assert EntryOk(tab, l, g, e, 1, b1);
    assert EntryOk(tab, l, g, e, 2, b2);
    assert EntryOk(tab, l, g, e, 3, b3);
    WordShift(s);
    AddFourValue(s[1..] + [0], Entry(tab, l, b0), Entry(tab, l, 256 + b1), Entry(tab, l, 512 + b2),
      Entry(tab, l, 768 + b3));
    FourTables(g, e, 32 * l - e, w);
    Pow2Values();
    StepBits(g, e, 32 * l, 32, r, word, s[0], WordsVal(s[1..] + [0]));
  }

  method EncodeWord(l: nat, tab: seq<nat>, word: nat, r: array<nat>, ghost g: nat, ghost e: nat, ghost par: nat)
    requires TableOk(tab, l, g, e) && r.Length == l && word < W && Holds(r[..], e, par)
    modifies r
    ensures Holds(r[..], e, Absorb(g, e, par, word, 32))
  {
    hide Xor, Mod, Pow2, Shl, Digits, XorSeq, Absorb, AddFour;
    Pow2Values();
    ghost var s := r[..];
    XorBound(s[0], word, 32);
    XorComm(word, s[0]);
    var w := Xor(word, r[0]);
    var b0, b1, b2, b3 := w % 256, w / 256 % 256, w / 0x1_0000 % 256, w / 0x100_0000;
    EntryRange(l, b0);
    EntryRange(l, 256 + b1);
    EntryRange(l, 512 + b2);
    EntryRange(l, 768 + b3);
    WordValue(l, tab, g, e, s, par, word, w);
    assert r[1..] == s[1..];
    ShiftWordAndAdd(tab, b0 * l, (256 + b1) * l, (512 + b2) * l, (768 + b3) * l, r);
  }

  // ----- whole buffers

  /** The bits of a byte in reverse order. */
  function Reverse(b: nat, k: nat): (r: nat)
    ensures r < Pow2(k)
  {
    if k == 0 then 0 else (b % 2) * Pow2(k - 1) + Reverse(b / 2, k - 1)
  }

  function SwapBits(swap: bool, b: nat): (r: nat)
    requires b < 256
    ensures r < 256
  {
    Pow2Values();
    if swap then Reverse(b, 8) else b
  }

  function Swapped(swap: bool, s: seq<nat>): (r: seq<nat>)
    requires AreBytes(s)
    ensures |r| == |s| && AreBytes(r)
  {
    seq(|s|, i requires 0 <= i < |s| => SwapBits(swap, s[i]))
  }

  /** The parity after encoding a buffer, starting from parity r. */
  ghost function Encoded(g: nat, e: nat, r: nat, swap: bool, data: seq<nat>): (p: nat)
    requires IsDivisor(g, e) && AreBytes(data)
    ensures p < Pow2(e)
  {
    Absorb(g, e, r, BytesVal(Swapped(swap, data)), 8 * |data|)
  }

  /** Encoding a concatenation is encoding its parts in turn. */
  lemma {:induction false} EncodedConcat(g: nat, e: nat, r: nat, swap: bool, a: seq<nat>, b: seq<nat>)
    requires IsDivisor(g, e) && AreBytes(a) && AreBytes(b)
    ensures AreBytes(a + b)
    ensures Encoded(g, e, r, swap, a + b) == Encoded(g, e, Encoded(g, e, r, swap, a), swap, b)
  {
    hide Absorb, Mod, Xor, Pow2, Digits, SwapBits;
    var x, y := Swapped(swap, a), Swapped(swap, b);
    assert Swapped(swap, a + b) == x + y;
    DigitsConcat(x, y, 8);
    Pow2Values();
    DigitsBound(y, 8);
    ShlDef(BytesVal(x), 8 * |b|);
    AbsorbTwice(g, e, r, BytesVal(x), 8 * |a|, BytesVal(y), 8 * |b|);
    assert 8 * |a| + 8 * |b| == 8 * |a + b|;
  }

  lemma {:induction false} EncodedOne(g: nat, e: nat, r: nat, swap: bool, b: nat)
    requires IsDivisor(g, e) && b < 256
    ensures Encoded(g, e, r, swap, [b]) == Absorb(g, e, r, SwapBits(swap, b), 8)
  {
    hide Absorb, SwapBits;
    assert Swapped(swap, [b]) == [SwapBits(swap, b)];
    DigitsOne(SwapBits(swap, b), 8);
  }

  lemma {:induction false} EncodedEmpty(g: nat, e: nat, r: nat, swap: bool)
    requires IsDivisor(g, e) && r < Pow2(e)
    ensures Encoded(g, e, r, swap, []) == r
  {
    AbsorbNothing(g, e, r);
    ZeroDigits([], 8);
  }

  method EncodeUnaligned(l: nat, tab: seq<nat>, swap: bool, data: seq<nat>, ecc: array<nat>, ghost g: nat,
                         ghost e: nat, ghost r: nat)
    requires TableOk(tab, l, g, e) && ecc.Length == l && AreBytes(data) && Holds(ecc[..], e, r)
    modifies ecc
    ensures Holds(ecc[..], e, Encoded(g, e, r, swap, data))
  {
    hide Xor, Mod, Pow2, Shl, Digits, Absorb, Encoded, SwapBits;
    var i := 0;
    EncodedEmpty(g, e, r, swap);
    while i < |data|
      invariant 0 <= i <= |data|
      invariant Holds(ecc[..], e, Encoded(g, e, r, swap, data[..i]))
    {
      var tmp := SwapBits(swap, data[i]);
      ghost var mid := Encoded(g, e, r, swap, data[..i]);
      EncodeByte(l, tab, tmp, ecc, g, e, mid);
      EncodedOne(g, e, mid, swap, data[i]);
      EncodedConcat(g, e, r, swap, data[..i], [data[i]]);
      assert data[..i + 1] == data[..i] + [data[i]];
      i := i + 1;
    }
    assert data[..i] == data;
  }
}
