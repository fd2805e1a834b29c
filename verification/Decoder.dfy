/** The codec as its callers see it: initialisation, encoding and decoding of byte buffers. */
module Decoder {
  import opened Common
  import opened Arithmetic
  import opened Gf2
  import opened GaloisField
  import opened FieldLaws
  import opened FieldPoly
  import opened Generator
  import opened GeneratorBuild
  import opened Words
  import opened Encoder
  import opened EccBuffer
  import opened RemainderTables
  import opened Locator
  import opened LocatorUnique
  import opened TraceMap
  import opened DegreeTwo
  import opened EuclidChain
  import opened TraceFactor
  import opened Newton
  import opened BerlekampMassey
  import opened ErrorLocations
  import opened Syndromes

  /** The constant part of the control structure. */
  datatype Bch = Bch(F: Field, t: nat, eccBits: nat, tab: seq<nat>, xi: seq<nat>, swap: bool) {
    function EccWords(): nat { (F.m * t + 31) / 32 }

    function EccBytes(): nat { (F.m * t + 7) / 8 }

    ghost function G(): nat
      requires F.Ok() && 2 * t <= F.N()
    {
      GenPoly(F, t)
    }

    ghost predicate Ok() {
      && F.Ok() && 5 <= F.m <= 15 && t >= 1 && F.m * t < F.N() && 2 * t < F.N()
      && eccBits == EccBits(F.m, t) <= F.m * t
      && TableOk(tab, EccWords(), G(), eccBits)
      && exists ak: nat :: BaseOk(F, xi, ak)
    }
  }

  const DEFAULT_POLYS: seq<nat> := [0x25, 0x43, 0x83, 0x11d, 0x211, 0x409, 0x805, 0x1053, 0x201b, 0x402b, 0x8003]

  lemma {:induction false} TwiceBelow(m: nat, t: nat, n: nat)
    requires m >= 5 && m * t < n
    ensures 2 * t <= m * t < n && (t >= 1 ==> 2 * t < n)
  {
    MulMono(2, m, t);
  }

  predicate GoodParameters(m: nat, t: nat) {
    5 <= m <= 15 && 1 <= t <= 64 && m * t < Order(m)
  }

  /** The polynomial given, or the default one. */
  function PolyFor(m: nat, primPoly: nat): nat
    requires 5 <= m <= 15
  {
    if primPoly == 0 then DEFAULT_POLYS[m - 5] else primPoly
  }

  /** bch_init: tables for GF(2^m) and the code of designed distance 2t + 1. It succeeds exactly when the parameters
      are in range and the polynomial, which has constant term 1, is accepted. */
  method Init(m: nat, t: nat, primPoly: nat, swap: bool) returns (r: Option<Bch>)
    requires primPoly % 2 == 1 || primPoly == 0
    ensures r.Some? <==> GoodParameters(m, t) && Accepts(PolyFor(m, primPoly), m)
    ensures r.Some? ==> r.value.Ok() && r.value.F.m == m && r.value.t == t && r.value.swap == swap
    ensures r.Some? ==> r.value.F.poly == PolyFor(m, primPoly)
  {
    hide Pow2, Accepts, Tabulated, TableOk, BaseOk, EccBits, GenPoly, GenWords;
    if m < 5 || m > 15 { return None; }
    if t > 64 { return None; }
    if t < 1 || m * t >= Order(m) { return None; }
    var poly := PolyFor(m, primPoly);
    assert poly % 2 == 1;
    var pow, log := new nat[Pow2(m)], new nat[Pow2(m)];
    var ok := BuildGfTables(m, poly, pow, log);
    if !ok { return None; }
    var F := Field(m, poly, pow[..], log[..]);
    FieldIffOdd(poly, m, F.pow, F.log);
    TwiceBelow(m, t, F.N());
    var g, e := ComputeGeneratorPolynomial(F, t);
    var l := (m * t + 31) / 32;
    var tab := BuildMod8Tables(l, g, e, GenPoly(F, t));
    var done, xi, ak := BuildDeg2Base(F);
    if !done { return None; }
    r := Some(Bch(F, t, e, tab[..], xi, swap));
  }

  // ----- encoding

  lemma {:induction false} WordsAndBytes(x: nat)
    requires x > 0
    ensures (x + 31) / 32 > 0 && 4 * ((x + 31) / 32 - 1) < (x + 7) / 8 <= 4 * ((x + 31) / 32)
    ensures x <= 8 * ((x + 7) / 8) && x <= 32 * ((x + 31) / 32)
  {
  }

  lemma {:induction false} Sizes(b: Bch)
    requires b.Ok()
    ensures 0 < b.eccBits <= 32 * b.EccWords() && b.eccBits <= 8 * b.EccBytes() && b.EccWords() > 0
    ensures 4 * (b.EccWords() - 1) < b.EccBytes() <= 4 * b.EccWords()
    ensures b.F.Ok() && 0 < 2 * b.t < b.F.N() && b.F.m > 1 && b.eccBits < b.F.N()
    ensures IsDivisor(b.G(), b.eccBits) && TableOk(b.tab, b.EccWords(), b.G(), b.eccBits)
  {
    hide TableOk, BaseOk, GenPoly, Pow2;
    var x := b.F.m * b.t;
    assert x > 0;
    WordsAndBytes(x);
    GeneratorDegree(b.F, b.t);
    PositiveDegree(b.F, b.t);
  }

  /** The generator has a root, so its degree is not zero. */
  lemma {:induction false} PositiveDegree(F: Field, t: nat)
    requires F.Ok() && t >= 1 && 2 * t < F.N()
    ensures EccBits(F.m, t) > 0
  {
    hide Pow2, A, GenPoly, EccBits, EvalBin, F.Ok;
    GeneratorRoots(F, t, 1);
    if EccBits(F.m, t) == 0 {
      UnitHasNoRoot(F, GenPoly(F, t), A(F, 1));
    }
  }

  lemma {:induction false} UnitHasNoRoot(F: Field, g: nat, x: nat)
    requires F.Ok() && F.El(x) && IsDivisor(g, 0)
    ensures EvalBin(F, g, x) != 0
  {
    assert g == 1 by { assert Pow2(0) == 1 && Pow2(1) == 2; }
    hide F.Ok, EvalBin, Pow2, GfMul;
    EvalBinUnfold(F, 1, x);
    EvalBinZero(F, x);
    MulZero(F, x);
    XorZero(1);
  }

  /** Parity bytes for data at an address that is align modulo 4, continuing from the parity par. */
  method Encode(b: Bch, data: seq<nat>, align: nat, ecc: seq<nat>, ghost par: nat) returns (r: seq<nat>)
    requires b.Ok() && AreBytes(data) && align < 4 && |ecc| == b.EccBytes() && EccHolds(ecc, b.swap, b.eccBits, par)
    ensures |r| == b.EccBytes() && EccHolds(r, b.swap, b.eccBits, Encoded(b.G(), b.eccBits, par, b.swap, data))
  {
    hide TableOk, EccHolds, Holds, Encoded, Pow2, Loaded, Stored, b.Ok;
    Sizes(b);
    var l := b.EccWords();
    var buf := new nat[l];
    EccHoldsBytes(ecc, b.swap, b.eccBits, par);
    LoadEcc8(l, b.swap, ecc, buf);
    LoadHolds(b.swap, ecc, l, b.eccBits, par);
    EncodeBuffer(l, b.tab, b.swap, data, align, buf, b.G(), b.eccBits, par);
    r := StoreEcc8(b.swap, b.EccBytes(), buf);
    StoreHolds(b.swap, buf[..], b.EccBytes(), b.eccBits, Encoded(b.G(), b.eccBits, par, b.swap, data));
  }

  lemma {:induction false} EccHoldsBytes(ecc: seq<nat>, swap: bool, e: nat, r: nat)
    requires EccHolds(ecc, swap, e, r)
    ensures AreBytes(ecc)
  {
  }

  // ----- decoding

  /** The remainder the decoder works on: calculated parity plus received parity. */
  ghost function Remainder(b: Bch, data: Option<seq<nat>>, recv: Option<seq<nat>>, computed: Option<seq<nat>>): nat
    requires b.Ok() && BuffersOk(b, data, recv, computed) && (computed.None? ==> data.Some?)
  {
    Sizes(b);
    Xor(if computed.Some? then ParityOf(b, computed.value) else Encoded(b.G(), b.eccBits, 0, b.swap, data.value),
        if recv.Some? then ParityOf(b, recv.value) else 0)
  }

  ghost predicate BuffersOk(b: Bch, data: Option<seq<nat>>, recv: Option<seq<nat>>, computed: Option<seq<nat>>) {
    && (data.Some? ==> AreBytes(data.value))
    && (recv.Some? ==> AreBytes(recv.value) && |recv.value| == b.EccBytes())
    && (computed.Some? ==> AreBytes(computed.value) && |computed.value| == b.EccBytes())
  }

  /** The parity in the first eccBits bits of parity bytes; the rest is padding. */
  ghost function ParityOf(b: Bch, ecc: seq<nat>): nat
    requires b.Ok() && AreBytes(ecc) && |ecc| == b.EccBytes()
  {
    Sizes(b);
    TopBits(Loaded(b.swap, ecc, b.EccWords()), b.eccBits)
  }

  ghost function SyndromesOf(b: Bch, v: nat): (s: seq<nat>)
    requires b.F.Ok()
    ensures |s| == 2 * b.t
  {
    seq(2 * b.t, k requires 0 <= k < 2 * b.t => EvalBin(b.F, v, A(b.F, k + 1)))
  }

  lemma {:induction false} SyndromesAt(b: Bch, v: nat, k: nat)
    requires b.F.Ok() && k < 2 * b.t
    ensures SyndromesOf(b, v)[k] == EvalBin(b.F, v, A(b.F, k + 1))
  {
    hide EvalBin, A;
  }

  lemma {:induction false} SyndromesOk(b: Bch, v: nat)
    requires b.F.Ok()
    ensures IsPoly(b.F, SyndromesOf(b, v)) && Squares(b.F, b.t, SyndromesOf(b, v))
  {
    hide EvalBin, A, GfSqr, b.F.Ok, Pow2, SyndromesOf;
    var s := SyndromesOf(b, v);
    forall k | 0 <= k < 2 * b.t ensures b.F.El(s[k]) { SyndromesAt(b, v, k); }
    forall k | 0 <= k < b.t ensures s[2 * k + 1] == GfSqr(b.F, s[k]) {
      SyndromesAt(b, v, k);
      SyndromesAt(b, v, 2 * k + 1);
      EvalBinSqr(b.F, v, A(b.F, k + 1));
      SqrPower(b.F, k + 1);
    }
  }

  /** What a decoded outcome says: an error-free or correctable message gets exactly its errors, a failure means that no
      errors in the message explain the syndromes, and locations that explain nothing are given exactly when the default
      finder has divided the locator with a remainder and nevertheless found as many roots as the degree. */
  ghost predicate DecodesTo(b: Bch, f: Finder, syn: seq<nat>, nbits: nat, r: Outcome, loc: seq<nat>, T: Factoring)
    requires b.F.Ok() && |syn| == 2 * b.t && IsPoly(b.F, syn)
  {
    && !r.Invalid?
    && (r.BadMessage? ==> forall qs: seq<nat> :: Explains(b.F, b.t, syn, qs) ==> !Within(qs, nbits))
    && (r.Located? ==> forall qs: seq<nat> :: Explains(b.F, b.t, syn, qs) ==> NamesSame(b.swap, nbits, r.errloc, qs))
    && (loc == [] ==> if r.Located? then Explains(b.F, b.t, syn, []) else Minimal(b.F, SynSer(syn), b.t + 1, 2 * b.t))
    && (loc != [] ==> IsLocator(b.F, b.t, syn, loc) && (f.ByDegree? ==> Fits(b.F, 1, loc, T))
                      && (r.Located? <==> FindsAll(b.F, f, loc, T, nbits)))
    && (r.Located? && Squares(b.F, b.t, syn) ==> (SomeErrors(b, syn, nbits, r.errloc) <==> f.Exhaustive? || Divided(T)))
  }

  /** The locations are those of errors that have the given syndromes. */
  ghost predicate SomeErrors(b: Bch, syn: seq<nat>, nbits: nat, errloc: seq<nat>)
    requires b.F.Ok() && |syn| == 2 * b.t
  {
    exists ps: seq<nat> :: Names(b.F, b.t, syn, b.swap, nbits, errloc, ps)
  }

  ghost predicate NamesSame(swap: bool, nbits: nat, errloc: seq<nat>, qs: seq<nat>) {
    exists ps: seq<nat> :: Within(ps, nbits) && multiset(ps) == multiset(qs) && errloc == Locations(swap, nbits, ps)
  }

  // ----- parity in words

  lemma {:induction false} ShrXor(x: nat, y: nat, k: nat)
    ensures Shr(Xor(x, y), k) == Xor(Shr(x, k), Shr(y, k))
  {
    hide Xor, Pow2;
    var p := Pow2(k);
    var a, b, c, d := x / p, x % p, y / p, y % p;
    assert x == a * p + b;
    assert y == c * p + d;
    XorSplit(a, b, c, d, k);
    XorBound(b, d, k);
    DivModUnique(Xor(x, y), p, Xor(a, c), Xor(b, d));
  }

  lemma {:induction false} TopBitsXor(x: seq<nat>, y: seq<nat>, e: nat)
    requires |x| == |y| && AreWords(x) && AreWords(y) && e <= 32 * |x|
    ensures AreWords(XorSeq(x, y)) && TopBits(XorSeq(x, y), e) == Xor(TopBits(x, e), TopBits(y, e))
  {
    hide Xor, Pow2, Digits, Shr, XorSeq;
    XorWords(x, y);
    ShrXor(WordsVal(x), WordsVal(y), 32 * |x| - e);
  }

  lemma {:induction false} TopBitsHolds(x: seq<nat>, e: nat, r: nat)
    requires Holds(x, e, r)
    ensures TopBits(x, e) == r
  {
    hide Pow2, Digits;
    var p := Pow2(32 * |x| - e);
    DivModUnique(r * p, p, r, 0);
  }

  lemma {:induction false} TopBitsZero(x: seq<nat>, e: nat)
    requires e <= 32 * |x| && forall i :: 0 <= i < |x| ==> x[i] == 0
    ensures TopBits(x, e) == 0
  {
    hide Pow2, Digits;
    ZeroDigits(x, 32);
    DivModUnique(0, Pow2(32 * |x| - e), 0, 0);
  }

  lemma {:induction false} LoadedIsWords(b: Bch, ecc: seq<nat>)
    requires b.Ok() && AreBytes(ecc) && |ecc| == b.EccBytes()
    ensures b.EccBytes() <= 4 * b.EccWords() && AreWords(Loaded(b.swap, ecc, b.EccWords()))
  {
    hide b.Ok, Loaded, Digits, Pow2, Shl;
    Sizes(b);
    LoadedValue(b.swap, ecc, b.EccWords());
  }

  lemma {:induction false} ZeroHolds(l: nat, x: seq<nat>, e: nat)
    requires |x| == l && e <= 32 * l && forall i :: 0 <= i < l ==> x[i] == 0
    ensures Holds(x, e, 0)
  {
    hide Pow2, Digits, Shl;
    ZeroDigits(x, 32);
    ShlZero(32 * l - e);
  }

  /** The words of the calculated parity. */
  method CalculatedParity(b: Bch, data: Option<seq<nat>>, align: nat, computed: Option<seq<nat>>)
    returns (buf: array<nat>)
    requires b.Ok() && BuffersOk(b, data, None, computed) && align < 4 && (data.Some? || computed.Some?)
    ensures fresh(buf) && buf.Length == b.EccWords() && AreWords(buf[..]) && b.eccBits <= 32 * b.EccWords()
    ensures TopBits(buf[..], b.eccBits) == Remainder(b, data, None, computed)
  {
    hide b.Ok, TableOk, Encoded, Pow2, Loaded, TopBits, Xor, Digits, Shl;
    Sizes(b);
    var l := b.EccWords();
    buf := new nat[l](_ => 0);
    if computed.None? {
      ZeroHolds(l, buf[..], b.eccBits);
      EncodeBuffer(l, b.tab, b.swap, data.value, align, buf, b.G(), b.eccBits, 0);
      TopBitsHolds(buf[..], b.eccBits, Encoded(b.G(), b.eccBits, 0, b.swap, data.value));
      XorZero(TopBits(buf[..], b.eccBits));
    } else {
      LoadEcc8(l, b.swap, computed.value, buf);
      LoadedIsWords(b, computed.value);
      XorZero(TopBits(buf[..], b.eccBits));
    }
  }

  /** Adds the received parity; the flag says whether anything is left. */
  method AddReceived(b: Bch, buf: array<nat>, recv: seq<nat>) returns (sum: bool)
    requires b.Ok() && buf.Length == b.EccWords() && AreWords(buf[..]) && AreBytes(recv) && |recv| == b.EccBytes()
    modifies buf
    ensures AreWords(buf[..]) && b.eccBits <= 32 * b.EccWords()
    ensures TopBits(buf[..], b.eccBits) == Xor(TopBits(old(buf[..]), b.eccBits), ParityOf(b, recv))
    ensures !sum ==> TopBits(buf[..], b.eccBits) == 0
  {
    hide b.Ok, Pow2, Loaded, TopBits, Xor, Digits;
    Sizes(b);
    var l := b.EccWords();
    ghost var x := buf[..];
    var buf2 := new nat[l];
    LoadEcc8(l, b.swap, recv, buf2);
    LoadedIsWords(b, recv);
    ghost var y := buf2[..];
    sum := false;
    var i := 0;
    while i < l
      invariant 0 <= i <= l && buf2[..] == y
      invariant forall k :: 0 <= k < i ==> buf[k] == Xor(x[k], y[k])
      invariant forall k :: i <= k < l ==> buf[k] == x[k]
      invariant !sum ==> forall k :: 0 <= k < i ==> buf[k] == 0
    {
      buf[i] := Xor(buf[i], buf2[i]);
      if buf[i] != 0 { sum := true; }
      i := i + 1;
    }
    assert buf[..] == XorSeq(x, y);
    TopBitsXor(x, y, b.eccBits);
    if !sum { TopBitsZero(buf[..], b.eccBits); }
  }

  /** The decoder cannot start: the message is too long, or there is nothing to compute parity from. */
  predicate Refused(b: Bch, len: nat, data: bool, recv: bool, computed: bool, syn: bool) {
    8 * len > b.F.N() - b.eccBits || (!syn && !computed && (!data || !recv))
  }

  ghost function SyndromesUsed(b: Bch, data: Option<seq<nat>>, recv: Option<seq<nat>>, computed: Option<seq<nat>>,
                               syn: Option<seq<nat>>): (s: seq<nat>)
    requires b.Ok() && BuffersOk(b, data, recv, computed) && (syn.None? && computed.None? ==> data.Some?)
    requires syn.Some? ==> |syn.value| == 2 * b.t && IsPoly(b.F, syn.value)
    ensures |s| == 2 * b.t && IsPoly(b.F, s)
  {
    if syn.Some? then syn.value
    else
      SyndromesOk(b, Remainder(b, data, recv, computed));
      SyndromesOf(b, Remainder(b, data, recv, computed))
  }

  lemma {:induction false} NoSyndromes(b: Bch, nbits: nat)
    requires b.Ok()
    ensures IsPoly(b.F, SyndromesOf(b, 0)) && forall f: Finder ::
            DecodesTo(b, f, SyndromesOf(b, 0), nbits, Located([]), [], Leaf)
  {
    hide b.Ok, A, EvalBin, PowerSum, b.F.Ok, Pow2, SyndromesOf;
    Sizes(b);
    SyndromesOk(b, 0);
    var F, t, s := b.F, b.t, SyndromesOf(b, 0);
    forall k | 0 <= k < 2 * t ensures s[k] == PowerSum(F, [], k + 1) {
      SyndromesAt(b, 0, k);
      PowerSumNone(F, k + 1);
      EvalBinZero(F, A(F, k + 1));
    }
    assert Explains(F, t, s, []);
    var none: seq<nat> := [];
    assert Names(F, t, s, b.swap, nbits, none, none);
    forall qs: seq<nat> | Explains(F, t, s, qs) ensures NamesSame(b.swap, nbits, [], qs) {
      ExplanationUnique(F, t, s, none, qs);
      assert Within(none, nbits) && multiset(none) == multiset(qs) && none == Locations(b.swap, nbits, none);
    }
  }

  lemma {:induction false} LocatedDecodes(b: Bch, f: Finder, syn: seq<nat>, nbits: nat, r: Outcome, ps: seq<nat>,
                                          loc: seq<nat>, T: Factoring)
    requires b.F.Ok() && |syn| == 2 * b.t && IsPoly(b.F, syn) && Answers(b.F, b.t, syn, b.swap, nbits, r, ps)
    requires loc == [] ==> r.BadMessage? && Minimal(b.F, SynSer(syn), b.t + 1, 2 * b.t)
    requires loc != [] ==> IsLocator(b.F, b.t, syn, loc) && (f.ByDegree? ==> Fits(b.F, 1, loc, T))
                           && (r.Located? <==> FindsAll(b.F, f, loc, T, nbits))
    requires r.Located? && Squares(b.F, b.t, syn) ==>
               (Names(b.F, b.t, syn, b.swap, nbits, r.errloc, ps) <==> f.Exhaustive? || Divided(T))
    ensures !r.Invalid? && DecodesTo(b, f, syn, nbits, r, loc, T)
  {
    hide b.F.Ok, Explains, Squares, Within, Locations, IsPoly, Fits, AllBelow, Splits, SplitsBelow, IsShortest;
    if r.Located? && Squares(b.F, b.t, syn) && SomeErrors(b, syn, nbits, r.errloc) {
      var qs: seq<nat> :| Names(b.F, b.t, syn, b.swap, nbits, r.errloc, qs);
      ExplainsSame(b.F, b.t, syn, ps, qs);
    }
  }

  /** The finder of the build: exhaustive search, or the finder by degree with the base of the control structure. */
  function FinderOf(b: Bch, exhaustive: bool): Finder {
    if exhaustive then Exhaustive else ByDegree(b.xi)
  }

  lemma {:induction false} FinderIsOk(b: Bch, exhaustive: bool)
    requires b.Ok()
    ensures FinderOk(b.F, FinderOf(b, exhaustive))
  {
    hide TableOk, BaseOk;
  }

  method LocateFrom(b: Bch, len: nat, syn: seq<nat>, exhaustive: bool)
    returns (r: Outcome, ghost loc: seq<nat>, ghost T: Factoring)
    requires b.Ok() && |syn| == 2 * b.t && IsPoly(b.F, syn) && 8 * len <= b.F.N() - b.eccBits
    ensures !r.Invalid? && DecodesTo(b, FinderOf(b, exhaustive), syn, 8 * len + b.eccBits, r, loc, T)
  {
    hide b.Ok, b.F.Ok, FinderOk, Explains, Squares, Names, Within, DecodesTo, Answers, Divided, FindsAll, IsLocator,
         Locations;
    Sizes(b);
    FinderIsOk(b, exhaustive);
    var nbits := 8 * len + b.eccBits;
    ghost var ps;
    r, ps, loc, T := LocateErrors(b.F, b.t, syn, FinderOf(b, exhaustive), b.swap, nbits);
    LocatedDecodes(b, FinderOf(b, exhaustive), syn, nbits, r, ps, loc, T);
  }

  lemma {:induction false} RemainderSplit(b: Bch, data: Option<seq<nat>>, recv: Option<seq<nat>>,
                                          computed: Option<seq<nat>>)
    requires b.Ok() && BuffersOk(b, data, recv, computed) && (computed.None? ==> data.Some?)
    ensures Remainder(b, data, recv, computed)
         == if recv.Some? then Xor(Remainder(b, data, None, computed), ParityOf(b, recv.value))
            else Remainder(b, data, None, computed)
  {
    hide b.Ok, ParityOf, Xor, Encoded;
    Sizes(b);
    XorZero(if computed.Some? then ParityOf(b, computed.value) else Encoded(b.G(), b.eccBits, 0, b.swap, data.value));
  }

  /** bch_decode: any of the ways of providing the syndromes. */
  method Decode(b: Bch, data: Option<seq<nat>>, align: nat, len: nat, recv: Option<seq<nat>>,
                computed: Option<seq<nat>>, syn: Option<seq<nat>>, exhaustive: bool)
                  returns (r: Outcome, ghost loc: seq<nat>, ghost T: Factoring)
    requires b.Ok() && align < 4 && BuffersOk(b, data, recv, computed)
    requires data.Some? ==> |data.value| == len
    requires syn.Some? ==> |syn.value| == 2 * b.t && IsPoly(b.F, syn.value)
    ensures r == Invalid <==> Refused(b, len, data.Some?, recv.Some?, computed.Some?, syn.Some?)
    ensures r != Invalid ==>
              DecodesTo(b, FinderOf(b, exhaustive), SyndromesUsed(b, data, recv, computed, syn), 8 * len + b.eccBits,
                r, loc, T)
  {
    hide b.Ok, b.F.Ok, TopBits, Xor, Pow2, EvalBin, A, DecodesTo, SyndromesOf, Remainder, ParityOf;
    Sizes(b);
    loc, T := [], Leaf;
    if 8 * len > b.F.N() - b.eccBits { return Invalid, [], Leaf; }
    if syn.Some? {
      r, loc, T := LocateFrom(b, len, syn.value, exhaustive);
      return;
    }
    if computed.None? && (data.None? || recv.None?) { return Invalid, [], Leaf; }
    ghost var v := Remainder(b, data, recv, computed);
    var buf := CalculatedParity(b, data, align, computed);
    RemainderSplit(b, data, recv, computed);
    if recv.Some? {
      var sum := AddReceived(b, buf, recv.value);
      if !sum {
        r := Located([]);
        NoSyndromes(b, 8 * len + b.eccBits);
        return;
      }
    }
    assert TopBits(buf[..], b.eccBits) == v;
    var s := new nat[2 * b.t];
    ComputeSyndromes(b.F, b.t, b.eccBits, buf, s);
    SyndromesOk(b, v);
    forall k | 0 <= k < 2 * b.t ensures s[k] == SyndromesOf(b, v)[k] { SyndromesAt(b, v, k); }
    assert s[..] == SyndromesOf(b, v);
    r, loc, T := LocateFrom(b, len, s[..], exhaustive);
  }
}
