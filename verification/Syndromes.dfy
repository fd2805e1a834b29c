/** The syndromes of a remainder: its values at a, a^2, ..., a^2t. */
module Syndromes {
  import opened Arithmetic
  import opened Gf2
  import opened GaloisField
  import opened FieldLaws
  import opened FieldPoly
  import opened Generator
  import opened Words
  import opened BerlekampMassey

  /** The polynomial in the first e bits of the words. */
  ghost function TopBits(words: seq<nat>, e: nat): nat
    requires e <= 32 * |words|
  {
    Shr(WordsVal(words), 32 * |words| - e)
  }

  /** The number of words that hold e bits, and the unused bits in the last of them. */
  function WordsFor(e: nat): nat { (e + 31) / 32 }

  function Spare(e: nat): nat { 32 * WordsFor(e) - e }

  lemma {:induction false} SpareSmall(e: nat)
    ensures Spare(e) < 32 && 32 * WordsFor(e) == e + Spare(e)
    ensures e % 32 == 0 ==> Spare(e) == 0 && WordsFor(e) == e / 32
    ensures e % 32 != 0 ==> Spare(e) == 32 - e % 32 && WordsFor(e) == e / 32 + 1
  {
  }

  /** A word without its lowest k bits. */
  function Mask(w: nat, k: nat): (r: nat)
    ensures r <= w
  {
    ModAtMost(w, Pow2(k));
    w - w % Pow2(k)
  }

  lemma {:induction false} ModAtMost(x: nat, p: nat)
    requires p > 0
    ensures 0 <= x % p <= x
  {
    if x < p { ModBelow(x, p); }
  }

  /** The words compute_syndromes reads after it cleared the unused bits. */
  ghost function Cleared(words: seq<nat>, e: nat): (c: seq<nat>)
    requires 0 < e <= 32 * |words|
  {
    words[..WordsFor(e)][WordsFor(e) - 1 := Mask(words[WordsFor(e) - 1], Spare(e))]
  }

  lemma {:induction false} DivDiv(a: nat, p: nat, q: nat)
    requires p > 0 && q > 0
    ensures p * q > 0 && a / (p * q) == a / p / q
  {
    var x := a / p;
    var y := x / q;
    assert p * q > 0;
    assert a == x * p + a % p;
    assert x == y * q + x % q;
    var r := (x % q) * p + a % p;
    assert a == y * (p * q) + r by { Distribute(y, q, x % q, p); assert q * p == p * q; }
    MulStep(x % q, q, p, a % p);
    DivModUnique(a, p * q, y, r);
  }

  lemma {:induction false} ShrConcat(x: nat, y: nat, i: nat, k: nat)
    requires y < Pow2(i)
    ensures Shr(x * Pow2(i) + y, i + k) == Shr(x, k)
  {
    hide Pow2;
    Pow2Add(i, k);
    DivDiv(x * Pow2(i) + y, Pow2(i), Pow2(k));
    DivModUnique(x * Pow2(i) + y, Pow2(i), x, y);
  }

  lemma {:induction false} MaskedTail(x: nat, w: nat, k: nat, n: nat)
    requires k <= n
    ensures Mask(w, k) + x * Pow2(n) == Shl(Shr(x * Pow2(n) + w, k), k)
  {
    Pow2Add(n - k, k);
    hide Pow2;
    RoundDown(x, w, Pow2(k), Pow2(n - k));
  }

  lemma {:induction false} RoundDown(x: nat, w: nat, p: nat, q: nat)
    requires p > 0
    ensures w - w % p + x * (q * p) == (x * (q * p) + w) / p * p
  {
    var h, r := w / p, w % p;
    assert w == h * p + r;
    var y := x * q + h;
    Distribute(x, q, h, p);
    assert x * (q * p) + w == y * p + r;
    DivModUnique(x * (q * p) + w, p, y, r);
  }

  lemma {:induction false} ClearedValue(words: seq<nat>, e: nat)
    requires 0 < e <= 32 * |words| && AreWords(words)
    ensures AreWords(Cleared(words, e)) && |Cleared(words, e)| == WordsFor(e)
    ensures WordsVal(Cleared(words, e)) == Shl(TopBits(words, e), Spare(e))
  {
    hide Digits, Pow2, Shl, Shr, Mask;
    SpareSmall(e);
    var n, k := WordsFor(e), Spare(e);
    var a, b := words[..n], words[n..];
    assert words == a + b;
    DigitsConcat(a, b, 32);
    WordsBound(b);
    ShrConcat(WordsVal(a), WordsVal(b), 32 * |b|, k);
    assert 32 * |b| + k == 32 * |words| - e;
    var h, w := a[..n - 1], a[n - 1];
    assert a == h + [w];
    assert Cleared(words, e) == h + [Mask(w, k)];
    DigitsConcat(h, [w], 32);
    DigitsConcat(h, [Mask(w, k)], 32);
    DigitsOne(w, 32);
    DigitsOne(Mask(w, k), 32);
    MaskedTail(WordsVal(h), w, k, 32);
    assert AreWords(h + [Mask(w, k)]);
  }

  lemma {:induction false} LastCleared(words: seq<nat>, e: nat)
    requires 0 < e <= 32 * |words|
    ensures |Cleared(words, e)| == WordsFor(e) > 0
    ensures Cleared(words, e)[WordsFor(e) - 1] % Pow2(Spare(e)) == 0
  {
    hide Pow2;
    SpareSmall(e);
    var w, p := words[WordsFor(e) - 1], Pow2(Spare(e));
    assert w == (w / p) * p + w % p;
    DivModUnique(w - w % p, p, w / p, 0);
  }

  // ----- bits of a word, highest first

  /** Removing the highest bit of a nonzero multiple of 2^k. */
  lemma {:induction false} TopBitOff(x: nat, k: nat)
    requires x > 0 && x % Pow2(k) == 0
    ensures Deg(x) >= k && Xor(x, Pow2(Deg(x))) == x - Pow2(Deg(x))
    ensures (x - Pow2(Deg(x))) % Pow2(k) == 0
  {
    hide Pow2, Xor, Deg;
    var d := Deg(x);
    if d < k {
      Pow2Mono(d + 1, k);
      ModBelow(x, Pow2(k));
    }
    var y := x - Pow2(d);
    Pow2Double(d + 1);
    XorDisjoint(1, y, d);
    XorSolve(Pow2(d), y);
    XorComm(x, Pow2(d));
    Pow2Add(d - k, k);
    MultipleLess(x, Pow2(k), Pow2(d - k));
  }

  lemma {:induction false} MultipleLess(x: nat, p: nat, q: nat)
    requires p > 0 && x % p == 0 && x >= q * p
    ensures (x - q * p) % p == 0
  {
    var h := x / p;
    assert x == h * p;
    assert (h + 1) * p == h * p + p;
    if h < q { MulMono(h + 1, q, p); }
    Distribute2(h, q, p);
    DivModUnique(x - q * p, p, h - q, 0);
  }

  lemma {:induction false} Distribute2(x: nat, q: nat, p: nat)
    ensures (x - q) * p == x * p - q * p
  {
  }

  lemma {:induction false} ConsXor(x: nat, y: nat, b: seq<nat>)
    requires x < W && y < W && AreWords(b)
    ensures WordsVal([Xor(x, y)] + b) == Xor(WordsVal([x] + b), Shl(y, 32 * |b|))
  {
    hide Pow2, Xor, Digits;
    DigitsCons(Xor(x, y), b, 32);
    DigitsCons(x, b, 32);
    WordsBound(b);
    XorSplit(x, WordsVal(b), y, 0, 32 * |b|);
    XorZero(WordsVal(b));
  }

  /** Moving one bit from the words not yet read to the accumulated polynomial. */
  lemma {:induction false} MoveBit(acc: nat, k: nat, x: nat, b: seq<nat>, i: nat, p: nat)
    requires x < W && i < 32 && AreWords(b) && p + k == i + 32 * |b|
    ensures Pow2(i) < W
    ensures Xor(Shl(Xor(acc, Pow2(p)), k), WordsVal([Xor(x, Pow2(i))] + b)) == Xor(Shl(acc, k), WordsVal([x] + b))
  {
    hide Pow2, Xor, Digits;
    Pow2Mono(i, 32);
    Pow2Values();
    ConsXor(x, Pow2(i), b);
    var z := Shl(Pow2(i), 32 * |b|);
    Pow2Add(i, 32 * |b|);
    Pow2Add(p, k);
    XorScale(acc, Pow2(p), k);
    XorSwap4(Shl(acc, k), z, WordsVal([x] + b), z);
    XorSelf(z);
    XorZero(Xor(Shl(acc, k), WordsVal([x] + b)));
  }

  // ----- the method

  /** Every syndrome of odd index has the value of acc there. */
  ghost predicate OddPowers(F: Field, syn: seq<nat>, acc: nat)
    requires F.Ok()
  {
    forall j :: 0 <= j < |syn| && j % 2 == 0 ==> syn[j] == EvalBin(F, acc, A(F, j + 1))
  }

  method AddPower(F: Field, syn: array<nat>, p: nat, ghost acc: nat)
    requires F.Ok() && F.m > 1 && OddPowers(F, syn[..], acc)
    modifies syn
    ensures OddPowers(F, syn[..], Xor(acc, Pow2(p)))
  {
    hide F.Ok, Xor, Pow2, EvalBin, A, GfMul;
    ghost var now := Xor(acc, Pow2(p));
    var j := 0;
    while j < syn.Length
      invariant 0 <= j && j % 2 == 0
      invariant forall x :: 0 <= x < syn.Length && x % 2 == 0 && x < j ==> syn[x] == EvalBin(F, now, A(F, x + 1))
      invariant forall x :: 0 <= x < syn.Length && x % 2 == 0 && x >= j ==> syn[x] == EvalBin(F, acc, A(F, x + 1))
      decreases syn.Length - j
    {
      var y := PowerOf(F, (j + 1) * p);
      EvalBinLinear(F, acc, Pow2(p), A(F, j + 1));
      EvalBinPower(F, p, j + 1);
      syn[j] := Xor(syn[j], y);
      j := j + 2;
    }
  }

  /** All bits of one word. */
  method AddWord(F: Field, syn: array<nat>, word: nat, shift: int, ghost acc: nat, ghost k: nat, ghost b: seq<nat>)
    returns (ghost acc': nat)
    requires F.Ok() && F.m > 1 && OddPowers(F, syn[..], acc)
    requires word < W && AreWords(b) && shift + k == 32 * |b| && (shift < 0 ==> word % Pow2(-shift) == 0)
    modifies syn
    ensures OddPowers(F, syn[..], acc')
    ensures Xor(Shl(acc', k), WordsVal(b)) == Xor(Shl(acc, k), WordsVal([word] + b))
  {
    hide F.Ok, Xor, Pow2, Deg, Digits, Shl, OddPowers;
    var poly: nat := word;
    acc' := acc;
    ghost var least: nat := if shift < 0 then -shift else 0;
    if shift >= 0 { ModOne(word); }
    while poly != 0
      invariant poly < W && poly % Pow2(least) == 0
      invariant OddPowers(F, syn[..], acc')
      invariant Xor(Shl(acc', k), WordsVal([poly] + b)) == Xor(Shl(acc, k), WordsVal([word] + b))
    {
      var i := Deg(poly);
      TopBitOff(poly, least);
      DegBelow(poly);
      MoveBit(acc', k, poly, b, i, i + shift);
      AddPower(F, syn, i + shift, acc');
      acc' := Xor(acc', Pow2(i + shift));
      poly := poly - Pow2(i);
    }
    DigitsCons(0, b, 32);
  }

  lemma {:induction false} ModOne(x: nat)
    ensures x % Pow2(0) == 0
  {
  }

  lemma {:induction false} DegBelow(x: nat)
    requires 0 < x < W
    ensures Deg(x) < 32
  {
    hide Pow2, Deg;
    Pow2Values();
    if Deg(x) >= 32 { Pow2Mono(32, Deg(x)); }
  }

  method ComputeSyndromes(F: Field, t: nat, e: nat, ecc: array<nat>, syn: array<nat>)
    requires F.Ok() && F.m > 1 && syn.Length == 2 * t && ecc != syn
    requires 0 < e <= 32 * ecc.Length && AreWords(ecc[..])
    modifies ecc, syn
    ensures forall k :: 0 <= k < 2 * t ==> syn[k] == EvalBin(F, TopBits(old(ecc[..]), e), A(F, k + 1))
  {
    hide F.Ok, Xor, Pow2, Digits, Shl, OddPowers, TopBits, A, EvalBin;
    ghost var words := ecc[..];
    ghost var v := TopBits(words, e);
    SpareSmall(e);
    ghost var c, nw, k := Cleared(words, e), WordsFor(e), Spare(e);
    ClearedValue(words, e);
    LastCleared(words, e);
    if e % 32 != 0 {
      ecc[e / 32] := Mask(ecc[e / 32], 32 - e % 32);
    } else {
      MaskNone(words[nw - 1]);
    }
    assert ecc[..nw] == c;
    forall j | 0 <= j < 2 * t { syn[j] := 0; }
    ZeroPowers(F, syn[..]);
    var s: int, i := e, 0;
    ghost var acc: nat := 0;
    ShlZero(k);
    XorZero(WordsVal(c));
    while true
      invariant 0 <= i < nw && s == e - 32 * i && ecc[..nw] == c
      invariant OddPowers(F, syn[..], acc)
      invariant Xor(Shl(acc, k), WordsVal(c[i..])) == Shl(v, k)
      decreases nw - i
    {
      var poly := ecc[i];
      assert poly == c[i] && c[i..] == [poly] + c[i + 1..];
      s := s - 32;
      i := i + 1;
      acc := AddWord(F, syn, poly, s, acc, k, c[i..]);
      if s <= 0 { break; }
    }
    assert c[i..] == [];
    ZeroDigits(c[i..], 32);
    XorZero(Shl(acc, k));
    ShlInjective(acc, v, k);
    var j := 0;
    FirstPowers(F, syn[..], v);
    while j < t
      invariant 0 <= j <= t
      invariant forall x :: 0 <= x < 2 * t && (x % 2 == 0 || x < 2 * j) ==> syn[x] == EvalBin(F, v, A(F, x + 1))
    {
      EvalBinSqr(F, v, A(F, j + 1));
      SqrPower(F, j + 1);
      syn[2 * j + 1] := GfSqr(F, syn[j]);
      j := j + 1;
    }
  }

  lemma {:induction false} MaskNone(w: nat)
    ensures Mask(w, 0) == w
  {
  }

  lemma {:induction false} ZeroPowers(F: Field, syn: seq<nat>)
    requires F.Ok() && forall j :: 0 <= j < |syn| ==> syn[j] == 0
    ensures OddPowers(F, syn, 0)
  {
    hide F.Ok, A;
  }

  lemma {:induction false} FirstPowers(F: Field, syn: seq<nat>, v: nat)
    requires F.Ok() && OddPowers(F, syn, v)
    ensures forall j :: 0 <= j < |syn| && j % 2 == 0 ==> syn[j] == EvalBin(F, v, A(F, j + 1))
  {
  }

  lemma {:induction false} ShlZero(k: nat)
    ensures Shl(0, k) == 0
  {
  }

  lemma {:induction false} ShlInjective(x: nat, y: nat, k: nat)
    requires Shl(x, k) == Shl(y, k)
    ensures x == y
  {
    hide Pow2;
    var p := Pow2(k);
    DivModUnique(x * p, p, x, 0);
    DivModUnique(x * p, p, y, 0);
  }
}
