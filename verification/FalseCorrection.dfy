/** A received message on which the decoder is misled: a codeword of one byte with eight flipped bits. No five flips
    make it a codeword, and the decoder names locations all the same. */
module FalseCorrection {
  import opened Common
  import opened Gf2
  import opened GaloisField
  import opened FieldLaws
  import opened FieldPoly
  import opened Generator
  import opened Words
  import opened Encoder
  import opened EccBuffer
  import opened Newton
  import opened BerlekampMassey
  import opened Locator
  import opened LocatorUnique
  import opened TraceFactor
  import opened SmallField
  import opened ErrorLocations
  import opened Decoder
  import opened ErrorCorrection
  import opened MisledFinder

  // ----- the code with m = 5 and t = 5 has 20 parity bits

  /** The exponents of the cosets of 1, 3, 5, 7 and 9. */
  predicate IsExponent(k: nat) {
    k in {1, 2, 4, 8, 16, 3, 6, 12, 24, 17, 5, 10, 20, 9, 18, 7, 14, 28, 25, 19}
  }

  lemma {:induction false} CosetOf(r: nat)
    requires r < 10 && r % 2 == 1
    ensures Doubled(31, r, 0) == r && Doubled(31, r, 1) == 2 * r && Doubled(31, r, 2) == ModS(31, 4 * r)
    ensures Doubled(31, r, 3) == ModS(31, 2 * ModS(31, 4 * r))
    ensures Doubled(31, r, 4) == ModS(31, 2 * ModS(31, 2 * ModS(31, 4 * r)))
  {
    assert Doubled(31, r, 1) == ModS(31, 2 * r);
    assert Doubled(31, r, 2) == ModS(31, 2 * Doubled(31, r, 1));
    assert Doubled(31, r, 3) == ModS(31, 2 * Doubled(31, r, 2));
    assert Doubled(31, r, 4) == ModS(31, 2 * Doubled(31, r, 3));
  }

  lemma {:induction false} CosetIs(k: nat)
    ensures InCoset(31, 5, 5, k) <==> IsExponent(k)
  {
    CosetOf(1);
    CosetOf(3);
    CosetOf(5);
    CosetOf(7);
    CosetOf(9);
    hide Doubled;
    if InCoset(31, 5, 5, k) {
      var r, j :| 0 <= r < 10 && r % 2 == 1 && 0 <= j < 5 && k == Doubled(31, r, j);
      assert r == 1 || r == 3 || r == 5 || r == 7 || r == 9;
      assert j == 0 || j == 1 || j == 2 || j == 3 || j == 4;
    }
    if IsExponent(k) { Witness(k); }
  }

  /** Which coset an exponent is in, and where. */
  lemma {:induction false} Witness(k: nat)
    requires IsExponent(k)
    ensures InCoset(31, 5, 5, k)
  {
    CosetOf(1);
    CosetOf(3);
    CosetOf(5);
    CosetOf(7);
    hide Doubled;
    assert k == 1 ==> k == Doubled(31, 1, 0);
    assert k == 2 ==> k == Doubled(31, 1, 1);
    assert k == 4 ==> k == Doubled(31, 1, 2);
    assert k == 8 ==> k == Doubled(31, 1, 3);
    assert k == 16 ==> k == Doubled(31, 1, 4);
    assert k == 3 ==> k == Doubled(31, 3, 0);
    assert k == 6 ==> k == Doubled(31, 3, 1);
    assert k == 12 ==> k == Doubled(31, 3, 2);
    assert k == 24 ==> k == Doubled(31, 3, 3);
    assert k == 17 ==> k == Doubled(31, 3, 4);
    assert k == 5 ==> k == Doubled(31, 5, 0);
    assert k == 10 ==> k == Doubled(31, 5, 1);
    assert k == 20 ==> k == Doubled(31, 5, 2);
    assert k == 9 ==> k == Doubled(31, 5, 3);
    assert k == 18 ==> k == Doubled(31, 5, 4);
    assert k == 7 ==> k == Doubled(31, 7, 0);
    assert k == 14 ==> k == Doubled(31, 7, 1);
    assert k == 28 ==> k == Doubled(31, 7, 2);
    assert k == 25 ==> k == Doubled(31, 7, 3);
    assert k == 19 ==> k == Doubled(31, 7, 4);
  }

  /** How many exponents are below n. */
  function ExponentsBelow(n: nat): nat {
    if n <= 1 then 0 else if n <= 2 then 1 else if n <= 3 then 2 else if n <= 4 then 3 else if n <= 5 then 4 else
    if n <= 6 then 5 else if n <= 7 then 6 else if n <= 8 then 7 else if n <= 9 then 8 else if n <= 10 then 9 else
    if n <= 12 then 10 else if n <= 14 then 11 else if n <= 16 then 12 else if n <= 17 then 13 else
    if n <= 18 then 14 else if n <= 19 then 15 else if n <= 20 then 16 else if n <= 24 then 17 else
    if n <= 25 then 18 else if n <= 28 then 19 else 20
  }

  lemma {:induction false} NextExponent(n: nat)
    requires n < 31
    ensures ExponentsBelow(n + 1) == ExponentsBelow(n) + if IsExponent(n) then 1 else 0
  {
  }

  lemma {:induction false} CountExponents(f: seq<bool>, n: nat)
    requires n <= |f| == 31 && forall k: nat :: k < 31 ==> (f[k] <==> IsExponent(k))
    ensures Count(f[..n]) == ExponentsBelow(n)
  {
    hide IsExponent, ExponentsBelow;
    if n == 0 {
      NoneBelow();
    } else {
      CountExponents(f, n - 1);
      NextExponent(n - 1);
      assert f[..n][..n - 1] == f[..n - 1];
    }
  }

  lemma {:induction false} NoneBelow()
    ensures ExponentsBelow(0) == 0 && ExponentsBelow(31) == 20
  {
  }

  lemma {:induction false} ParityBits()
    ensures Order(5) == 31 && EccBits(5, 5) == 20
  {
    SmallField.Sizes();
    hide IsExponent, ExponentsBelow, Pow2, InCoset, Count;
    var f := GenFlags(5, 5);
    forall k: nat | k < 31 ensures f[k] <==> IsExponent(k) { CosetIs(k); }
    CountExponents(f, 31);
    NoneBelow();
    assert f[..31] == f;
  }

  // ----- the flips

  /** The flipped coefficients of the received polynomial. */
  function Flips(): seq<nat> { [0, 3, 4, 5, 15, 16, 17, 27] }

  lemma {:induction false} PowerAt(F: Field, e: nat, q: nat, k: nat)
    requires F == F32() && F.Ok() && k < 31 && e == 31 * q + k
    ensures A(F, e) == Pow(k)
    decreases q
  {
    hide F.Ok, Powers, Logs, Pow, A;
    Sizes28(F);
    if q == 0 {
      Value(k);
      PowIs(k);
    } else {
      PowerAt(F, e - 31, q - 1, k);
      APeriod(F, e - 31);
    }
  }

  lemma {:induction false} FlipValues()
    ensures |Flips()| == 8 && Flips()[0] == 0 && Flips()[1] == 3 && Flips()[2] == 4 && Flips()[3] == 5
    ensures Flips()[4] == 15 && Flips()[5] == 16 && Flips()[6] == 17 && Flips()[7] == 27
  {
  }

  lemma {:induction false} AddPower(F: Field, i: nat, n: nat, q: nat, k: nat, v: nat, w: nat)
    requires F == F32() && F.Ok() && i < |Flips()| && PowerSum(F, Flips()[..i], n) == v
    requires k < 31 && Flips()[i] * n == 31 * q + k && Xor(v, Pow(k)) == w
    ensures PowerSum(F, Flips()[..i + 1], n) == w
  {
    hide F.Ok, F32, PowerSum, Xor, A, Pow, Flips;
    PowerAt(F, Flips()[i] * n, q, k);
    var r := Flips()[..i + 1];
    PowerSumStep(F, r, n);
    assert r[..|r| - 1] == Flips()[..i];
  }

  lemma {:induction false} PowerSum1(F: Field)
    requires F == F32() && F.Ok()
    ensures PowerSum(F, Flips(), 1) == 0
  {
    hide F.Ok, F32, PowerSum, Xor, A, Pow2, Flips;
    FlipValues();
    PowerSumNone(F, 1);
    assert Flips()[..0] == [] && Flips()[..8] == Flips();
    XorZero(1);
    AddPower(F, 0, 1, 0, 0, 0, 1);
    Bits(0, 0, 0, 0, 1, 0, 1, 0, 0, 0, 1, 8, 9);
    AddPower(F, 1, 1, 0, 3, 1, 9);
    Bits(0, 1, 0, 0, 1, 1, 0, 0, 0, 0, 9, 16, 25);
    AddPower(F, 2, 1, 0, 4, 9, 25);
    Bits(1, 1, 0, 0, 1, 0, 0, 1, 0, 1, 25, 5, 28);
    AddPower(F, 3, 1, 0, 5, 25, 28);
    Bits(1, 1, 1, 0, 0, 1, 1, 1, 1, 1, 28, 31, 3);
    AddPower(F, 4, 1, 0, 15, 28, 3);
    Bits(0, 0, 0, 1, 1, 1, 1, 0, 1, 1, 3, 27, 24);
    AddPower(F, 5, 1, 0, 16, 3, 24);
    Bits(1, 1, 0, 0, 0, 1, 0, 0, 1, 1, 24, 19, 11);
    AddPower(F, 6, 1, 0, 17, 24, 11);
    Bits(0, 1, 0, 1, 1, 0, 1, 0, 1, 1, 11, 11, 0);
    AddPower(F, 7, 1, 0, 27, 11, 0);
  }

  lemma {:induction false} PowerSum3(F: Field)
    requires F == F32() && F.Ok()
    ensures PowerSum(F, Flips(), 3) == 14
  {
    hide F.Ok, F32, PowerSum, Xor, A, Pow2, Flips;
    FlipValues();
    PowerSumNone(F, 3);
    assert Flips()[..0] == [] && Flips()[..8] == Flips();
    XorZero(1);
    AddPower(F, 0, 3, 0, 0, 0, 1);
    Bits(0, 0, 0, 0, 1, 1, 1, 0, 1, 0, 1, 26, 27);
    AddPower(F, 1, 3, 0, 9, 1, 27);
    Bits(1, 1, 0, 1, 1, 0, 1, 1, 1, 0, 27, 14, 21);
    AddPower(F, 2, 3, 0, 12, 27, 21);
    Bits(1, 0, 1, 0, 1, 1, 1, 1, 1, 1, 21, 31, 10);
    AddPower(F, 3, 3, 0, 15, 21, 10);
    Bits(0, 1, 0, 1, 0, 1, 1, 1, 0, 1, 10, 29, 23);
    AddPower(F, 4, 3, 1, 14, 10, 23);
    Bits(1, 0, 1, 1, 1, 1, 0, 0, 1, 1, 23, 19, 4);
    AddPower(F, 5, 3, 1, 17, 23, 4);
    Bits(0, 0, 1, 0, 0, 0, 1, 1, 0, 0, 4, 12, 8);
    AddPower(F, 6, 3, 1, 20, 4, 8);
    Bits(0, 1, 0, 0, 0, 0, 0, 1, 1, 0, 8, 6, 14);
    AddPower(F, 7, 3, 2, 19, 8, 14);
  }

  lemma {:induction false} PowerSum5(F: Field)
    requires F == F32() && F.Ok()
    ensures PowerSum(F, Flips(), 5) == 28
  {
    hide F.Ok, F32, PowerSum, Xor, A, Pow2, Flips;
    FlipValues();
    PowerSumNone(F, 5);
    assert Flips()[..0] == [] && Flips()[..8] == Flips();
    XorZero(1);
    AddPower(F, 0, 5, 0, 0, 0, 1);
    Bits(0, 0, 0, 0, 1, 1, 1, 1, 1, 1, 1, 31, 30);
    AddPower(F, 1, 5, 0, 15, 1, 30);
    Bits(1, 1, 1, 1, 0, 0, 1, 1, 0, 0, 30, 12, 18);
    AddPower(F, 2, 5, 0, 20, 30, 18);
    Bits(1, 0, 0, 1, 0, 1, 1, 0, 0, 1, 18, 25, 11);
    AddPower(F, 3, 5, 0, 25, 18, 11);
    Bits(0, 1, 0, 1, 1, 1, 1, 1, 0, 0, 11, 28, 23);
    AddPower(F, 4, 5, 2, 13, 11, 23);
    Bits(1, 0, 1, 1, 1, 0, 0, 0, 1, 1, 23, 3, 20);
    AddPower(F, 5, 5, 2, 18, 23, 20);
    Bits(1, 0, 1, 0, 0, 0, 1, 1, 1, 1, 20, 15, 27);
    AddPower(F, 6, 5, 2, 23, 20, 27);
    Bits(1, 1, 0, 1, 1, 0, 0, 1, 1, 1, 27, 7, 28);
    AddPower(F, 7, 5, 4, 11, 27, 28);
  }

  lemma {:induction false} PowerSum7(F: Field)
    requires F == F32() && F.Ok()
    ensures PowerSum(F, Flips(), 7) == 8
  {
    hide F.Ok, F32, PowerSum, Xor, A, Pow2, Flips;
    FlipValues();
    PowerSumNone(F, 7);
    assert Flips()[..0] == [] && Flips()[..8] == Flips();
    XorZero(1);
    AddPower(F, 0, 7, 0, 0, 0, 1);
    Bits(0, 0, 0, 0, 1, 1, 1, 0, 0, 0, 1, 24, 25);
    AddPower(F, 1, 7, 0, 21, 1, 25);
    Bits(1, 1, 0, 0, 1, 1, 0, 1, 1, 0, 25, 22, 15);
    AddPower(F, 2, 7, 0, 28, 25, 15);
    Bits(0, 1, 1, 1, 1, 1, 0, 0, 0, 0, 15, 16, 31);
    AddPower(F, 3, 7, 1, 4, 15, 31);
    Bits(1, 1, 1, 1, 1, 0, 1, 1, 1, 0, 31, 14, 17);
    AddPower(F, 4, 7, 3, 12, 31, 17);
    Bits(1, 0, 0, 0, 1, 0, 0, 1, 1, 0, 17, 6, 23);
    AddPower(F, 5, 7, 3, 19, 17, 23);
    Bits(1, 0, 1, 1, 1, 1, 0, 1, 1, 1, 23, 23, 0);
    AddPower(F, 6, 7, 3, 26, 23, 0);
    XorZero(8);
    AddPower(F, 7, 7, 6, 3, 0, 8);
  }

  lemma {:induction false} PowerSum9(F: Field)
    requires F == F32() && F.Ok()
    ensures PowerSum(F, Flips(), 9) == 7
  {
    hide F.Ok, F32, PowerSum, Xor, A, Pow2, Flips;
    FlipValues();
    PowerSumNone(F, 9);
    assert Flips()[..0] == [] && Flips()[..8] == Flips();
    XorZero(1);
    AddPower(F, 0, 9, 0, 0, 0, 1);
    Bits(0, 0, 0, 0, 1, 0, 1, 0, 1, 1, 1, 11, 10);
    AddPower(F, 1, 9, 0, 27, 1, 10);
    Bits(0, 1, 0, 1, 0, 0, 0, 1, 0, 1, 10, 5, 15);
    AddPower(F, 2, 9, 1, 5, 10, 15);
    Bits(0, 1, 1, 1, 1, 1, 1, 1, 0, 1, 15, 29, 18);
    AddPower(F, 3, 9, 1, 14, 15, 18);
    Bits(1, 0, 0, 1, 0, 0, 0, 1, 1, 1, 18, 7, 21);
    AddPower(F, 4, 9, 4, 11, 18, 21);
    Bits(1, 0, 1, 0, 1, 0, 1, 1, 0, 0, 21, 12, 25);
    AddPower(F, 5, 9, 4, 20, 21, 25);
    Bits(1, 1, 0, 0, 1, 0, 1, 0, 0, 1, 25, 9, 16);
    AddPower(F, 6, 9, 4, 29, 25, 16);
    Bits(1, 0, 0, 0, 0, 1, 0, 1, 1, 1, 16, 23, 7);
    AddPower(F, 7, 9, 7, 26, 16, 7);
  }

  /** The flips have the syndromes of the example. */
  lemma {:induction false} FlipsFit(F: Field, k: nat)
    requires F == F32() && F.Ok() && k < 10
    ensures |ExampleSyndromes()| == 10 && PowerSum(F, Flips(), k + 1) == ExampleSyndromes()[k]
    decreases k
  {
    hide F.Ok, F32, PowerSum, GfSqr, Flips;
    if k % 2 == 1 {
      var h := k / 2;
      FlipsFit(F, h);
      PowerSumSqr(F, Flips(), h + 1);
      SyndromesSquare(F);
      Sizes28(F);
      assert ExampleSyndromes()[2 * h + 1] == GfSqr(F, ExampleSyndromes()[h]);
    } else if k == 0 {
      PowerSum1(F);
    } else if k == 2 {
      PowerSum3(F);
    } else if k == 4 {
      PowerSum5(F);
    } else if k == 6 {
      PowerSum7(F);
    } else {
      PowerSum9(F);
    }
  }

  // ----- the run

  /** The tables of a field are determined by its polynomial. */
  lemma {:induction false} SameTables(F: Field, G: Field)
    requires F.Ok() && G.Ok() && F.m == G.m && F.poly == G.poly
    ensures F == G
  {
    hide Pow2, APow;
    forall i | 0 <= i < |F.pow| ensures F.pow[i] == G.pow[i] { assert Probe(i); }
    forall x | 0 <= x < |F.log| ensures F.log[x] == G.log[x] {
      assert Probe(x);
      assert x > 0 ==> Probe(F.log[x]);
    }
    assert F.pow == G.pow && F.log == G.log;
  }

  lemma {:induction false} DefaultAccepted()
    ensures GoodParameters(5, 5) && PolyFor(5, 0) == 0x25 && Accepts(0x25, 5)
  {
    SmallField.Sizes();
    TableSizes();
    LogTable(0);
    hide Pow2, APow, Powers, Logs;
    forall i | 0 < i < 31 ensures APow(0x25, 5, i) != 1 {
      Tabulates(i);
      LogTable(i);
    }
  }

  /** The received bytes are a codeword of one byte with these bits flipped. */
  ghost predicate IsReceived(b: Bch, data: seq<nat>, ecc: seq<nat>, locs: seq<nat>, received: seq<nat>)
    requires b.Ok()
  {
    && |data| == 1 && IsCodeword(b, data, ecc) && BitsOfCode(b.swap, 8 + b.eccBits, locs)
    && (forall i :: 0 <= i < |locs| ==> locs[i] < 8 * |data + ecc|) && received == FlipAll(data + ecc, locs)
  }

  /** The locations of the flipped bits in a message of 28 bits. */
  function FlippedBits(swap: bool): (locs: seq<nat>)
    ensures |locs| == 8
  {
    FlipValues();
    seq(8, i requires 0 <= i < 8 => LocationOf(swap, 28, Flips()[i]))
  }

  lemma {:induction false} FlippedInside(swap: bool)
    ensures BitsOfCode(swap, 28, FlippedBits(swap)) && Exponents(swap, 28, FlippedBits(swap)) == Flips()
    ensures forall i :: 0 <= i < 8 ==> FlippedBits(swap)[i] < 40
  {
    FlipValues();
    hide BitOrder, Flips;
    var locs := FlippedBits(swap);
    forall i | 0 <= i < 8 ensures BitOrder(swap, locs[i]) == 27 - Flips()[i] && locs[i] < 40 {
      BitOrderTwice(swap, 27 - Flips()[i]);
    }
    forall i, j | 0 <= i < j < 8 ensures locs[i] != locs[j] {
      assert BitOrder(swap, locs[i]) != BitOrder(swap, locs[j]);
    }
  }

  lemma {:induction false} NoParity(ecc: seq<nat>, swap: bool, e: nat)
    requires AreBytes(ecc) && e <= 8 * |ecc| && forall i :: 0 <= i < |ecc| ==> ecc[i] == 0
    ensures EccHolds(ecc, swap, e, 0)
  {
    hide Digits, Pow2, SwapBits, Shl;
    var r := Swapped(swap, ecc);
    forall i | 0 <= i < |r| ensures r[i] == 0 { SwapZero(swap); }
    ZeroDigits(r, 8);
    Pow2Positive(e);
    ShlZero(8 * |ecc| - e);
  }

  lemma {:induction false} SwapZero(swap: bool)
    ensures SwapBits(swap, 0) == 0
  {
  }

  lemma {:induction false} ShlZero(k: nat)
    ensures Shl(0, k) == 0
  {
  }

  /** What is received has the syndromes of the example. */
  lemma {:induction false} ReceivedSyndromes(b: Bch, data: seq<nat>, ecc: seq<nat>, data': seq<nat>, ecc': seq<nat>)
    requires b.Ok() && b.F == F32() && b.t == 5 && b.eccBits == 20 && |ecc| == 4 && |data'| == 1 && |ecc'| == 4
    requires IsReceived(b, data, ecc, FlippedBits(b.swap), data' + ecc')
    ensures AreBytes(data') && AreBytes(ecc') && b.EccBytes() == 4
    ensures SyndromesUsed(b, Some(data'), Some(ecc'), None, None) == ExampleSyndromes()
  {
    hide b.Ok, b.F.Ok, F32, Remainder, SyndromesOf, PowerSum, FlipAll, EccHolds, Encoded, BitOrder, Flips, FlippedBits,
         Exponents, BitsOfCode;
    Decoder.Sizes(b);
    Sizes28(b.F);
    FlippedInside(b.swap);
    FlipsSyndromes(b, data, ecc, FlippedBits(b.swap), data', ecc', 28);
    var s := SyndromesUsed(b, Some(data'), Some(ecc'), None, None);
    forall k: nat | k < 10 ensures s[k] == ExampleSyndromes()[k] { FlipsFit(b.F, k); }
    assert |s| == 10;
  }

  /** Nothing within five flips of a codeword has these syndromes. */
  lemma {:induction false} NotNear(b: Bch, data: seq<nat>, ecc: seq<nat>, locs: seq<nat>, data': seq<nat>,
                                   ecc': seq<nat>)
    requires b.Ok() && b.F == F32() && b.t == 5 && b.eccBits == 20 && |data'| == 1 && |ecc'| == 4
    requires AreBytes(data') && AreBytes(ecc') && b.EccBytes() == 4
    requires SyndromesUsed(b, Some(data'), Some(ecc'), None, None) == ExampleSyndromes() && |ExampleSyndromes()| == 10
    requires IsPoly(b.F, ExampleSyndromes()) && forall qs: seq<nat> :: !Explains(b.F, 5, ExampleSyndromes(), qs)
    requires IsReceived(b, data, ecc, locs, data' + ecc')
    ensures |locs| > 5
  {
    hide b.Ok, b.F.Ok, F32, Remainder, SyndromesOf, PowerSum, FlipAll, EccHolds, Encoded, BitOrder, Explains,
         BitsOfCode, Exponents;
    Decoder.Sizes(b);
    Sizes28(b.F);
    CodewordSize(b, data, ecc);
    if |locs| <= 5 { FlipsExplain(b, data, ecc, locs, data', ecc', 28); }
  }

  lemma {:induction false} CodewordSize(b: Bch, data: seq<nat>, ecc: seq<nat>)
    requires b.Ok() && IsCodeword(b, data, ecc)
    ensures AreBytes(data) && |ecc| == b.EccBytes()
  {
  }

  lemma {:induction false} FieldIs()
    ensures F32().m == 5 && F32().poly == 0x25
  {
  }

  /** The code with m = 5, t = 5 and the default polynomial. */
  method SmallCodec(swap: bool) returns (b: Bch)
    ensures b.Ok() && b.F == F32() && b.t == 5 && b.eccBits == 20 && b.EccBytes() == 4 && b.swap == swap
  {
    FieldIs();
    hide Bch.Ok, Field.Ok, F32, Powers, Logs, Accepts, Pow2;
    DefaultAccepted();
    var made := Init(5, 5, 0, swap);
    b := made.value;
    Decoder.Sizes(b);
    IsField();
    SameTables(b.F, F32());
    ParityBits();
    BchParts(b);
  }

  /** Eight bits of a codeword of one byte are flipped. No five flips lead from a codeword to what is received, but the
      default decoder names locations instead of giving up. */
  method NamesFalseErrors(byte: nat, swap: bool)
    returns (r: Outcome, b: Bch, ghost ecc: seq<nat>, data': seq<nat>, ecc': seq<nat>)
    requires byte < 256
    ensures b.Ok() && b.F.m == 5 && b.t == 5 && b.swap == swap && |data'| == 1 && |ecc'| == b.EccBytes()
    ensures IsReceived(b, [byte], ecc, FlippedBits(swap), data' + ecc')
    ensures forall d: seq<nat>, c: seq<nat>, locs: seq<nat> :: IsReceived(b, d, c, locs, data' + ecc') ==> |locs| > 5
    ensures r.Located?
  {
    hide Bch.Ok, Field.Ok, F32, Powers, Logs, Remainder, SyndromesOf, PowerSum, FlipAll, EccHolds, Encoded, BitOrder,
         Explains, BitsOfCode, Exponents, FlippedBits, DecodesTo, SyndromesUsed;
    b := SmallCodec(swap);
    Decoder.Sizes(b);
    Sizes28(b.F);
    var zero := seq(4, i => 0);
    NoParity(zero, swap, 20);
    var parity := Encode(b, [byte], 0, zero, 0);
    ecc := parity;
    FlippedInside(swap);
    var received := FlipAll([byte] + parity, FlippedBits(swap));
    data', ecc' := received[..1], received[1..];
    assert data' + ecc' == received;
    assert IsReceived(b, [byte], ecc, FlippedBits(swap), received);
    ReceivedSyndromes(b, [byte], ecc, data', ecc');
    NothingExplains(b.F);
    ghost var loc, T;
    r, loc, T := Decode(b, Some(data'), 0, 1, Some(ecc'), None, None, false);
    DecodedFalsely(b, r, loc, T);
    forall d: seq<nat>, c: seq<nat>, locs: seq<nat> | IsReceived(b, d, c, locs, data' + ecc') ensures |locs| > 5 {
      NotNear(b, d, c, locs, data', ecc');
    }
  }

  lemma {:induction false} BchParts(b: Bch)
    requires b.Ok()
    ensures b.eccBits == EccBits(b.F.m, b.t) && b.EccBytes() == (b.F.m * b.t + 7) / 8
  {
  }

  lemma {:induction false} DecodedFalsely(b: Bch, r: Outcome, loc: seq<nat>, T: Factoring)
    requires b.Ok() && b.F == F32() && b.t == 5 && |ExampleSyndromes()| == 10 && IsPoly(b.F, ExampleSyndromes())
    requires DecodesTo(b, ByDegree(b.xi), ExampleSyndromes(), 28, r, loc, T)
    ensures r.Located?
  {
    var F := b.F;
    hide b.Ok, F.Ok, F32, Fits, AllBelow, Splits, F.El, Explains, Solves, SynSer, SerTo, Minimal, Squares, Divided;
    Decoder.Sizes(b);
    NothingExplains(F);
    PolyIsLocator(F);
    NotNone(F);
    if loc != [] {
      OnlyLocator(F, loc);
      FiveFalseRoots(F);
      FactoringUnique(F, 1, loc, T, Factors());
    }
  }
}
