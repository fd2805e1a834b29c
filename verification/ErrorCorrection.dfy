/** What the decoder is for: flipping up to t bits of data and parity and decoding names those bits. */
module ErrorCorrection {
  import opened Common
  import opened Arithmetic
  import opened Gf2
  import opened GaloisField
  import opened FieldLaws
  import opened FieldPoly
  import opened Generator
  import opened Words
  import opened Encoder
  import opened EccBuffer
  import opened Locator
  import opened LocatorUnique
  import opened TraceFactor
  import opened ErrorLocations
  import opened Syndromes
  import LowRoots
  import opened Decoder

  // ----- bits of a byte string

  /** Inverts bit loc % 8 of byte loc / 8. */
  function Flip(s: seq<nat>, loc: nat): (r: seq<nat>)
    requires loc < 8 * |s|
    ensures |r| == |s|
  {
    s[loc / 8 := Xor(s[loc / 8], Pow2(loc % 8))]
  }

  function FlipAll(s: seq<nat>, locs: seq<nat>): (r: seq<nat>)
    requires forall i :: 0 <= i < |locs| ==> locs[i] < 8 * |s|
    ensures |r| == |s|
  {
    if locs == [] then s else Flip(FlipAll(s, locs[..|locs| - 1]), locs[|locs| - 1])
  }

  lemma {:induction false} BitBelow(q: nat)
    requires q < 8
    ensures Pow2(q) < 256
  {
    hide Pow2;
    Pow2Mono(q, 8);
    Pow2Values();
  }

  lemma {:induction false} FlipBytes(s: seq<nat>, loc: nat)
    requires AreBytes(s) && loc < 8 * |s|
    ensures AreBytes(Flip(s, loc))
  {
    hide Xor, Pow2;
    BitBelow(loc % 8);
    Pow2Values();
    XorBound(s[loc / 8], Pow2(loc % 8), 8);
  }

  /** Reversal is linear. */
  lemma {:induction false} ReverseXor(a: nat, b: nat, k: nat)
    ensures Reverse(Xor(a, b), k) == Xor(Reverse(a, k), Reverse(b, k))
  {
    hide Reverse, Xor, Pow2;
    if k == 0 {
      ReverseNone(a);
      ReverseNone(b);
      ReverseNone(Xor(a, b));
      XorZero(0);
    } else {
      ReverseXor(a / 2, b / 2, k - 1);
      ReverseStep(a, k);
      ReverseStep(b, k);
      ReverseStep(Xor(a, b), k);
      XorHalves(a, b);
      XorSplit(a % 2, Reverse(a / 2, k - 1), b % 2, Reverse(b / 2, k - 1), k - 1);
      XorOfBits(a % 2, b % 2);
    }
  }

  lemma {:induction false} ReverseNone(b: nat)
    ensures Reverse(b, 0) == 0
  {
  }

  lemma {:induction false} ReverseBit(q: nat, k: nat)
    requires q < k
    ensures Reverse(Pow2(q), k) == Pow2(k - 1 - q)
    decreases q
  {
    ReverseStep(Pow2(q), k);
    if q == 0 {
      ReverseZero(k - 1);
    } else {
      Pow2Double(q);
      hide Reverse, Pow2;
      ReverseBit(q - 1, k - 1);
    }
  }

  lemma {:induction false} SwapFlip(swap: bool, b: nat, q: nat)
    requires b < 256 && q < 8
    ensures Xor(b, Pow2(q)) < 256 && Pow2(q) < 256
    ensures SwapBits(swap, Xor(b, Pow2(q))) == Xor(SwapBits(swap, b), Pow2(if swap then 7 - q else q))
  {
    hide Reverse, Xor, Pow2;
    BitBelow(q);
    Pow2Values();
    XorBound(b, Pow2(q), 8);
    if swap {
      ReverseXor(b, Pow2(q), 8);
      ReverseBit(q, 8);
    }
  }

  /** Adding to one byte of a string. */
  lemma {:induction false} OneByte(s: seq<nat>, j: nat, x: nat)
    requires AreBytes(s) && j < |s| && x < 256
    ensures AreBytes(s[j := Xor(s[j], x)])
    ensures BytesVal(s[j := Xor(s[j], x)]) == Xor(BytesVal(s), Shl(x, 8 * (|s| - 1 - j)))
  {
    hide Xor, Digits, Pow2;
    var a, c := s[..j], s[j + 1..];
    var y := Xor(s[j], x);
    Pow2Values();
    XorBound(s[j], x, 8);
    assert s == a + ([s[j]] + c);
    assert s[j := y] == a + ([y] + c);
    DigitsConcat(a, [s[j]] + c, 8);
    DigitsConcat(a, [y] + c, 8);
    DigitsCons(s[j], c, 8);
    DigitsCons(y, c, 8);
    DigitsBound(c, 8);
    DigitsBound([s[j]] + c, 8);
    var k := 8 * |c|;
    XorSplit(s[j], BytesVal(c), x, 0, k);
    XorZero(BytesVal(c));
    var u, v, w := BytesVal(a), BytesVal([s[j]] + c), Shl(x, k);
    ByteAbove(x, k);
    assert 8 * |[s[j]] + c| == k + 8;
    XorSplit(u, v, 0, w, k + 8);
    XorZero(u);
  }

  lemma {:induction false} ByteAbove(x: nat, k: nat)
    requires x < 256
    ensures Shl(x, k) < Pow2(k + 8)
  {
    Pow2Values();
    Pow2Add(8, k);
    hide Pow2;
    MulStep(x, 256, Pow2(k), 0);
  }

  /** A flipped bit is one term of the polynomial. */
  lemma {:induction false} FlipValue(swap: bool, s: seq<nat>, loc: nat)
    requires AreBytes(s) && loc < 8 * |s|
    ensures AreBytes(Flip(s, loc)) && BitOrder(swap, loc) < 8 * |s|
    ensures BytesVal(Swapped(swap, Flip(s, loc)))
         == Xor(BytesVal(Swapped(swap, s)), Pow2(8 * |s| - 1 - BitOrder(swap, loc)))
  {
    hide Xor, Digits, Pow2, Swapped, BitOrder, Flip, Shl;
    var j, q := loc / 8, loc % 8;
    FlipBytes(s, loc);
    BitIndex(swap, |s|, loc);
    var p := if swap then 7 - q else q;
    BitBelow(p);
    var z := Swapped(swap, s);
    SwappedFlip(swap, s, loc, j, p);
    OneByte(z, j, Pow2(p));
    ShlPower(p, 8 * (|s| - 1 - j));
  }

  lemma {:induction false} ShlPower(i: nat, k: nat)
    ensures Shl(Pow2(i), k) == Pow2(i + k)
  {
    Pow2Add(i, k);
  }

  lemma {:induction false} BitIndex(swap: bool, n: nat, loc: nat)
    requires loc < 8 * n
    ensures BitOrder(swap, loc) < 8 * n
    ensures (if swap then 7 - loc % 8 else loc % 8) + 8 * (n - 1 - loc / 8) == 8 * n - 1 - BitOrder(swap, loc)
  {
  }

  lemma {:induction false} SwappedFlip(swap: bool, s: seq<nat>, loc: nat, j: nat, p: nat)
    requires AreBytes(s) && loc < 8 * |s| && AreBytes(Flip(s, loc)) && j == loc / 8
    requires p == if swap then 7 - loc % 8 else loc % 8
    ensures Swapped(swap, Flip(s, loc)) == Swapped(swap, s)[j := Xor(Swapped(swap, s)[j], Pow2(p))]
  {
    hide Xor, Pow2, SwapBits;
    SwapFlip(swap, s[j], loc % 8);
  }

  // ----- the received polynomial

  /** Data and parity as one polynomial, without the padding of the last parity byte. */
  ghost function Received(b: Bch, whole: seq<nat>): nat
    requires b.Ok() && AreBytes(whole) && |whole| >= b.EccBytes()
  {
    Sizes(b);
    Shr(BytesVal(Swapped(b.swap, whole)), 8 * b.EccBytes() - b.eccBits)
  }

  lemma {:induction false} ShrPower(i: nat, k: nat)
    ensures Shr(Pow2(i), k) == if i >= k then Pow2(i - k) else 0
  {
    hide Pow2;
    if i >= k {
      Pow2Add(i - k, k);
      DivModUnique(Pow2(i), Pow2(k), Pow2(i - k), 0);
    } else {
      Pow2Mono(i, k);
      DivModUnique(Pow2(i), Pow2(k), 0, Pow2(i));
    }
  }

  /** A flip changes one coefficient, and a flip in the padding changes nothing. */
  lemma {:induction false} FlipReceived(b: Bch, whole: seq<nat>, loc: nat)
    requires b.Ok() && AreBytes(whole) && |whole| >= b.EccBytes() && loc < 8 * |whole|
    ensures AreBytes(Flip(whole, loc))
    ensures var nbits, i := 8 * (|whole| - b.EccBytes()) + b.eccBits, BitOrder(b.swap, loc);
            Received(b, Flip(whole, loc)) == if i < nbits then Xor(Received(b, whole), Pow2(nbits - 1 - i))
              else Received(b, whole)
  {
    hide b.Ok, Xor, Digits, Pow2, Shr, Swapped, Flip;
    Sizes(b);
    FlipValue(b.swap, whole, loc);
    var k := 8 * b.EccBytes() - b.eccBits;
    var j := 8 * |whole| - 1 - BitOrder(b.swap, loc);
    ShrXor(BytesVal(Swapped(b.swap, whole)), Pow2(j), k);
    ShrPower(j, k);
    XorZero(Received(b, whole));
  }

  lemma {:induction false} ShrSum(x: nat, y: nat, i: nat, k: nat)
    requires k <= i && y < Pow2(i)
    ensures Shr(x * Pow2(i) + y, k) == Xor(Shl(x, i - k), Shr(y, k))
  {
    hide *;
    Pow2Add(i - k, k);
    Pow2Positive(k);
    SumQuotient(x, y, Pow2(k), Pow2(i - k));
    ShrIsDiv(x * Pow2(i) + y, k);
    ShrIsDiv(y, k);
    XorOntoLow(x, Shr(y, k), i - k);
    ShlDef(x, i - k);
  }

  lemma {:induction false} ShrIsDiv(x: nat, k: nat)
    ensures Pow2(k) > 0 && Shr(x, k) == x / Pow2(k)
  {
  }

  lemma {:induction false} SumQuotient(x: nat, y: nat, p: nat, q: nat)
    requires p > 0 && y < q * p
    ensures y / p < q && (x * (q * p) + y) / p == x * q + y / p
  {
    var h, r := y / p, y % p;
    assert y == h * p + r;
    Distribute(x, q, h, p);
    DivModUnique(x * (q * p) + y, p, x * q + h, r);
    QuotientBelow(h, r, p, q, y);
  }

  lemma {:induction false} QuotientBelow(h: nat, r: nat, p: nat, q: nat, y: nat)
    requires y == h * p + r && y < q * p
    ensures h < q
  {
    if h >= q { MulMono(q, h, p); }
  }

  lemma {:induction false} ParityValue(b: Bch, ecc: seq<nat>)
    requires b.Ok() && AreBytes(ecc) && |ecc| == b.EccBytes()
    ensures b.eccBits <= 8 * b.EccBytes()
    ensures ParityOf(b, ecc) == Shr(BytesVal(Swapped(b.swap, ecc)), 8 * b.EccBytes() - b.eccBits)
  {
    hide b.Ok, Digits, Pow2, Shr, Shl, Swapped, Loaded;
    Sizes(b);
    var l := b.EccWords();
    var k := 8 * (4 * l - b.EccBytes());
    LoadedValue(b.swap, ecc, l);
    var v := BytesVal(Swapped(b.swap, ecc));
    ShlDef(v, k);
    Pow2Positive(k);
    ShrConcat(v, 0, k, 8 * b.EccBytes() - b.eccBits);
  }

  lemma {:induction false} Pow2Positive(k: nat)
    ensures 0 < Pow2(k)
  {
  }

  /** The received polynomial is the data shifted past the parity, plus the parity. */
  lemma {:induction false} ReceivedSplit(b: Bch, data: seq<nat>, ecc: seq<nat>)
    requires b.Ok() && AreBytes(data) && AreBytes(ecc) && |ecc| == b.EccBytes()
    ensures AreBytes(data + ecc)
    ensures Received(b, data + ecc) == Xor(Shl(BytesVal(Swapped(b.swap, data)), b.eccBits), ParityOf(b, ecc))
  {
    hide b.Ok, Digits, Pow2, Shr, Shl, SwapBits, ParityOf, Xor;
    Sizes(b);
    var x, y := Swapped(b.swap, data), Swapped(b.swap, ecc);
    assert Swapped(b.swap, data + ecc) == x + y;
    DigitsConcat(x, y, 8);
    Pow2Values();
    DigitsBound(y, 8);
    ParityValue(b, ecc);
    ShrSum(BytesVal(x), BytesVal(y), 8 * |ecc|, 8 * |ecc| - b.eccBits);
  }

  /** The remainder has the syndromes of the received polynomial. */
  lemma {:induction false} RemainderSyndromes(b: Bch, data: seq<nat>, ecc: seq<nat>)
    requires b.Ok() && AreBytes(data) && AreBytes(ecc) && |ecc| == b.EccBytes()
    ensures AreBytes(data + ecc)
    ensures SyndromesOf(b, Remainder(b, Some(data), Some(ecc), None)) == SyndromesOf(b, Received(b, data + ecc))
  {
    hide b.Ok, ParityOf, Xor, Received, Encoded, A, EvalBin, SyndromesOf, Digits;
    Sizes(b);
    ReceivedSplit(b, data, ecc);
    var v, w := Remainder(b, Some(data), Some(ecc), None), Received(b, data + ecc);
    var s, s' := SyndromesOf(b, v), SyndromesOf(b, w);
    forall k | 0 <= k < 2 * b.t ensures s[k] == s'[k] {
      SyndromesAt(b, v, k);
      SyndromesAt(b, w, k);
      RemainderValue(b, data, ParityOf(b, ecc), k + 1);
    }
  }

  lemma {:induction false} RemainderValue(b: Bch, data: seq<nat>, p: nat, k: nat)
    requires b.Ok() && AreBytes(data) && 1 <= k <= 2 * b.t
    ensures EvalBin(b.F, Xor(Encoded(b.G(), b.eccBits, 0, b.swap, data), p), A(b.F, k))
         == EvalBin(b.F, Xor(Shl(BytesVal(Swapped(b.swap, data)), b.eccBits), p), A(b.F, k))
  {
    hide b.Ok, b.F.Ok, Xor, A, EvalBin, Digits, Pow2, GenPoly, Mod, Shl;
    Sizes(b);
    var F, g, e, x := b.F, b.G(), b.eccBits, A(b.F, k);
    var d := BytesVal(Swapped(b.swap, data));
    var r := Encoded(g, e, 0, b.swap, data);
    GeneratorRoots(F, b.t, k);
    RootOfGenerator(b, k);
    AbsorbFresh(g, e, d, 8 * |data|);
    EvalBinMod(F, g, e, Shl(d, e), x);
    EvalBinLinear(F, r, p, x);
    EvalBinLinear(F, Shl(d, e), p, x);
  }

  lemma {:induction false} RootOfGenerator(b: Bch, k: nat)
    requires b.Ok() && 1 <= k <= 2 * b.t
    ensures EvalBin(b.F, b.G(), A(b.F, k)) == 0
  {
    hide TableOk, EvalBin, A, GenPoly, b.F.Ok;
    GeneratorRoots(b.F, b.t, k);
  }

  lemma {:induction false} AbsorbFresh(g: nat, e: nat, d: nat, k: nat)
    requires IsDivisor(g, e)
    ensures Absorb(g, e, 0, d, k) == Mod(g, e, Shl(d, e))
  {
    hide Xor, Mod, Pow2, Shl;
    ShlZero(k);
    XorZero(Shl(d, e));
  }

  // ----- error patterns

  /** The polynomial with the given exponents. */
  ghost function ErrorPoly(ps: seq<nat>): nat {
    if ps == [] then 0 else Xor(ErrorPoly(ps[..|ps| - 1]), Pow2(ps[|ps| - 1]))
  }

  lemma {:induction false} ErrorSyndrome(F: Field, ps: seq<nat>, k: nat)
    requires F.Ok()
    ensures EvalBin(F, ErrorPoly(ps), A(F, k)) == PowerSum(F, ps, k)
    decreases |ps|
  {
    hide F.Ok, Xor, Pow2, A, EvalBin, PowerSum;
    if ps == [] {
      EvalBinZero(F, A(F, k));
      PowerSumNone(F, k);
    } else {
      var n := |ps| - 1;
      ErrorSyndrome(F, ps[..n], k);
      EvalBinLinear(F, ErrorPoly(ps[..n]), Pow2(ps[n]), A(F, k));
      EvalBinPower(F, ps[n], k);
      PowerSumStep(F, ps, k);
      assert k * ps[n] == ps[n] * k;
    }
  }

  /** Distinct locations of bits of the codeword proper, not of its padding. */
  ghost predicate BitsOfCode(swap: bool, nbits: nat, locs: seq<nat>) {
    && (forall i :: 0 <= i < |locs| ==> BitOrder(swap, locs[i]) < nbits)
    && (forall i, j :: 0 <= i < j < |locs| ==> locs[i] != locs[j])
  }

  function Exponent(swap: bool, nbits: nat, loc: nat): (p: nat)
    requires BitOrder(swap, loc) < nbits
    ensures p < nbits
  {
    nbits - 1 - BitOrder(swap, loc)
  }

  ghost function Exponents(swap: bool, nbits: nat, locs: seq<nat>): (ps: seq<nat>)
    requires BitsOfCode(swap, nbits, locs)
    ensures |ps| == |locs|
  {
    seq(|locs|, i requires 0 <= i < |locs| => Exponent(swap, nbits, locs[i]))
  }

  lemma {:induction false} ExponentsBack(swap: bool, nbits: nat, locs: seq<nat>)
    requires BitsOfCode(swap, nbits, locs)
    ensures var ps := Exponents(swap, nbits, locs);
            && Within(ps, nbits) && Locations(swap, nbits, ps) == locs
            && forall i, j :: 0 <= i < j < |ps| ==> ps[i] != ps[j]
  {
    hide BitOrder;
    var ps := Exponents(swap, nbits, locs);
    forall i | 0 <= i < |locs| ensures LocationOf(swap, nbits, ps[i]) == locs[i] { BitOrderTwice(swap, locs[i]); }
    forall i, j | 0 <= i < j < |ps| ensures ps[i] != ps[j] {
      assert LocationOf(swap, nbits, ps[i]) != LocationOf(swap, nbits, ps[j]);
    }
  }

  lemma {:induction false} FlipAllReceived(b: Bch, whole: seq<nat>, nbits: nat, locs: seq<nat>)
    requires b.Ok() && AreBytes(whole) && |whole| >= b.EccBytes() && nbits == 8 * (|whole| - b.EccBytes()) + b.eccBits
    requires BitsOfCode(b.swap, nbits, locs) && forall i :: 0 <= i < |locs| ==> locs[i] < 8 * |whole|
    ensures AreBytes(FlipAll(whole, locs))
    ensures Received(b, FlipAll(whole, locs)) == Xor(Received(b, whole), ErrorPoly(Exponents(b.swap, nbits, locs)))
    decreases |locs|
  {
    hide b.Ok, Xor, Pow2, Received, BitOrder, Flip;
    var x := Received(b, whole);
    if locs == [] {
      XorZero(x);
    } else {
      var n := |locs| - 1;
      var init, loc := locs[..n], locs[n];
      FlipAllReceived(b, whole, nbits, init);
      FlipReceived(b, FlipAll(whole, init), loc);
      var ps, qs := Exponents(b.swap, nbits, locs), Exponents(b.swap, nbits, init);
      assert ps[..n] == qs;
      XorAssoc(x, ErrorPoly(qs), Pow2(ps[n]));
    }
  }

  /** The parity is the one the encoder computes for the data. */
  ghost predicate IsCodeword(b: Bch, data: seq<nat>, ecc: seq<nat>)
    requires b.Ok()
  {
    Sizes(b);
    && AreBytes(data) && |ecc| == b.EccBytes()
    && EccHolds(ecc, b.swap, b.eccBits, Encoded(b.G(), b.eccBits, 0, b.swap, data))
  }

  lemma {:induction false} CodewordParity(b: Bch, data: seq<nat>, ecc: seq<nat>)
    requires b.Ok() && IsCodeword(b, data, ecc)
    ensures AreBytes(ecc) && IsDivisor(b.G(), b.eccBits)
    ensures ParityOf(b, ecc) == Encoded(b.G(), b.eccBits, 0, b.swap, data)
  {
    hide b.Ok, Encoded, Pow2, Loaded, Digits, TopBits, Shl;
    Sizes(b);
    var r := Encoded(b.G(), b.eccBits, 0, b.swap, data);
    LoadHolds(b.swap, ecc, b.EccWords(), b.eccBits, r);
    TopBitsHolds(Loaded(b.swap, ecc, b.EccWords()), b.eccBits, r);
  }

  /** Every codeword vanishes at a, a^2, ..., a^2t. */
  lemma {:induction false} CodewordVanishes(b: Bch, data: seq<nat>, ecc: seq<nat>, k: nat)
    requires b.Ok() && IsCodeword(b, data, ecc) && 1 <= k <= 2 * b.t
    ensures AreBytes(data + ecc) && EvalBin(b.F, Received(b, data + ecc), A(b.F, k)) == 0
  {
    hide b.Ok, b.F.Ok, Encoded, Pow2, Xor, EvalBin, A, Received, ParityOf, Digits, EccHolds;
    Sizes(b);
    CodewordParity(b, data, ecc);
    ReceivedSplit(b, data, ecc);
    var r := Encoded(b.G(), b.eccBits, 0, b.swap, data);
    RemainderValue(b, data, r, k);
    XorSelf(r);
    EvalBinZero(b.F, A(b.F, k));
  }

  /** The syndromes of a codeword with any number of flipped bits are those of the flips. */
  lemma {:induction false} FlipsSyndromes(b: Bch, data: seq<nat>, ecc: seq<nat>, locs: seq<nat>, data': seq<nat>,
                                          ecc': seq<nat>, nbits: nat)
    requires b.Ok() && IsCodeword(b, data, ecc) && AreBytes(data) && |data'| == |data| && |ecc'| == |ecc|
    requires nbits == 8 * |data| + b.eccBits <= b.F.N() && BitsOfCode(b.swap, nbits, locs)
    requires forall i :: 0 <= i < |locs| ==> locs[i] < 8 * |data + ecc|
    requires data' + ecc' == FlipAll(data + ecc, locs)
    ensures AreBytes(data') && AreBytes(ecc') && Positions(b.F, Exponents(b.swap, nbits, locs))
    ensures forall k: nat :: k < 2 * b.t ==> SyndromesOf(b, Remainder(b, Some(data'), Some(ecc'), None))[k]
                                             == PowerSum(b.F, Exponents(b.swap, nbits, locs), k + 1)
  {
    hide b.Ok, b.F.Ok, Encoded, Pow2, Xor, EvalBin, A, Received, Remainder, SyndromesOf, EccHolds, BitOrder, FlipAll,
         ErrorPoly, PowerSum, Flip;
    Sizes(b);
    CodewordVanishes(b, data, ecc, 1);
    FlipAllReceived(b, data + ecc, nbits, locs);
    BytesOfParts(data', ecc');
    RemainderSyndromes(b, data', ecc');
    ExponentsBack(b.swap, nbits, locs);
    var F, ps := b.F, Exponents(b.swap, nbits, locs);
    var x, w := Received(b, data + ecc), Received(b, data' + ecc');
    var s := SyndromesOf(b, w);
    forall k: nat | k < 2 * b.t ensures s[k] == PowerSum(F, ps, k + 1) {
      SyndromesAt(b, w, k);
      CodewordVanishes(b, data, ecc, k + 1);
      EvalBinLinear(F, x, ErrorPoly(ps), A(F, k + 1));
      ErrorSyndrome(F, ps, k + 1);
      XorZero(PowerSum(F, ps, k + 1));
    }
  }

  /** At most t flipped bits explain the syndromes of what is received. */
  lemma {:induction false} FlipsExplain(b: Bch, data: seq<nat>, ecc: seq<nat>, locs: seq<nat>, data': seq<nat>,
                                        ecc': seq<nat>, nbits: nat)
    requires b.Ok() && IsCodeword(b, data, ecc) && AreBytes(data) && |data'| == |data| && |ecc'| == |ecc|
    requires nbits == 8 * |data| + b.eccBits <= b.F.N() && BitsOfCode(b.swap, nbits, locs) && |locs| <= b.t
    requires forall i :: 0 <= i < |locs| ==> locs[i] < 8 * |data + ecc|
    requires data' + ecc' == FlipAll(data + ecc, locs)
    ensures AreBytes(data') && AreBytes(ecc')
    ensures Explains(b.F, b.t, SyndromesOf(b, Remainder(b, Some(data'), Some(ecc'), None)),
                     Exponents(b.swap, nbits, locs))
  {
    hide b.Ok, b.F.Ok, Remainder, SyndromesOf, EccHolds, BitOrder, FlipAll, PowerSum, IsCodeword, Exponents;
    Sizes(b);
    FlipsSyndromes(b, data, ecc, locs, data', ecc', nbits);
  }

  lemma {:induction false} BytesOfParts(x: seq<nat>, y: seq<nat>)
    requires AreBytes(x + y)
    ensures AreBytes(x) && AreBytes(y)
  {
    forall i | 0 <= i < |x| ensures x[i] < 256 { assert x[i] == (x + y)[i]; }
    forall i | 0 <= i < |y| ensures y[i] < 256 { assert y[i] == (x + y)[|x| + i]; }
  }

  lemma {:induction false} LocationsPermute(swap: bool, nbits: nat, ps: seq<nat>, qs: seq<nat>)
    requires Within(ps, nbits) && Within(qs, nbits) && multiset(ps) == multiset(qs)
    ensures multiset(Locations(swap, nbits, ps)) == multiset(Locations(swap, nbits, qs))
    decreases |ps|
  {
    hide LocationOf, Without, Locations;
    if ps == [] {
      LocationsNone(swap, nbits, ps);
      LocationsNone(swap, nbits, qs);
      assert |multiset(qs)| == |qs|;
    } else {
      var n := |ps| - 1;
      var p := ps[n];
      TakeOut(ps, n);
      assert p in multiset(qs);
      var j :| 0 <= j < |qs| && qs[j] == p;
      TakeOut(qs, j);
      LocationsPermute(swap, nbits, Without(ps, n), Without(qs, j));
      LocationsWithout(swap, nbits, ps, n);
      LocationsWithout(swap, nbits, qs, j);
      TakeOut(Locations(swap, nbits, ps), n);
      TakeOut(Locations(swap, nbits, qs), j);
    }
  }

  lemma {:induction false} LocationsNone(swap: bool, nbits: nat, ps: seq<nat>)
    requires Within(ps, nbits)
    ensures ps == [] ==> Locations(swap, nbits, ps) == []
  {
  }

  lemma {:induction false} LocationsWithout(swap: bool, nbits: nat, ps: seq<nat>, j: nat)
    requires j < |ps| && Within(ps, nbits) && Within(Without(ps, j), nbits)
    ensures Locations(swap, nbits, Without(ps, j)) == Without(Locations(swap, nbits, ps), j)
    ensures Locations(swap, nbits, ps)[j] == LocationOf(swap, nbits, ps[j])
  {
    hide LocationOf;
  }

  /** Decoding a codeword with at most t flipped bits names exactly those bits, in either build of the root finder. */
  lemma {:induction false} CorrectsErrors(b: Bch, data: seq<nat>, ecc: seq<nat>, locs: seq<nat>, data': seq<nat>,
                                          ecc': seq<nat>, nbits: nat, exhaustive: bool, r: Outcome, loc: seq<nat>,
                                          T: Factoring)
    requires b.Ok() && IsCodeword(b, data, ecc) && AreBytes(data) && |data'| == |data| && |ecc'| == |ecc|
    requires nbits == 8 * |data| + b.eccBits <= b.F.N() && BitsOfCode(b.swap, nbits, locs) && |locs| <= b.t
    requires forall i :: 0 <= i < |locs| ==> locs[i] < 8 * |data + ecc|
    requires data' + ecc' == FlipAll(data + ecc, locs)
    requires AreBytes(data') && AreBytes(ecc')
    requires DecodesTo(b, FinderOf(b, exhaustive), SyndromesUsed(b, Some(data'), Some(ecc'), None, None), nbits, r,
             loc, T)
    ensures r.Located? && multiset(r.errloc) == multiset(locs)
  {
    hide b.Ok, b.F.Ok, Remainder, SyndromesOf, BitOrder, FlipAll, PowerSum, EccHolds, Encoded, BitsOfCode, Exponents,
         Locations, Divided, SomeErrors, FindsAll;
    Sizes(b);
    FlipsExplain(b, data, ecc, locs, data', ecc', nbits);
    ExponentsBack(b.swap, nbits, locs);
    var syn := SyndromesUsed(b, Some(data'), Some(ecc'), None, None);
    SyndromesOk(b, Remainder(b, Some(data'), Some(ecc'), None));
    var ps := Exponents(b.swap, nbits, locs);
    assert NamesSame(b.swap, nbits, r.errloc, ps);
    var qs: seq<nat> :| Within(qs, nbits) && multiset(qs) == multiset(ps) && r.errloc == Locations(b.swap, nbits, qs);
    LocationsPermute(b.swap, nbits, qs, ps);
  }
}
