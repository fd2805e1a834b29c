/** Parity as the caller sees it, in bytes, and the whole encoder: unaligned head, aligned words,
    unaligned tail. */
module EccBuffer {
  import opened Common
  import opened Gf2
  import opened FieldLaws
  import opened Words
  import opened Encoder

  // ----- bit order within a byte

  lemma {:induction false} ReverseStep(b: nat, k: nat)
    requires k > 0
    ensures Reverse(b, k) == (b % 2) * Pow2(k - 1) + Reverse(b / 2, k - 1)
  {
  }

  /** A bit put on top of b becomes the lowest bit of its reversal. */
  lemma {:induction false} ReverseAppend(b: nat, x: nat, k: nat)
    requires b < Pow2(k) && x < 2
    ensures Reverse(x * Pow2(k) + b, k + 1) == 2 * Reverse(b, k) + x
    decreases k
  {
    var c := x * Pow2(k) + b;
    ReverseStep(c, k + 1);
    if k == 0 {
    } else {
      Pow2Double(k);
      DoubleProduct(x, Pow2(k - 1));
      hide Reverse, Pow2;
      assert c % 2 == b % 2 && c / 2 == x * Pow2(k - 1) + b / 2;
      ReverseAppend(b / 2, x, k - 1);
      ReverseStep(b, k);
      DoubleProduct(b % 2, Pow2(k - 1));
    }
  }

  lemma {:induction false} ReverseTwice(b: nat, k: nat)
    requires b < Pow2(k)
    ensures Reverse(Reverse(b, k), k) == b
    decreases k
  {
    if k > 0 {
      Pow2Double(k);
      hide Reverse, Pow2;
      ReverseTwice(b / 2, k - 1);
      ReverseStep(b, k);
      ReverseAppend(Reverse(b / 2, k - 1), b % 2, k - 1);
    }
  }

  lemma {:induction false} ReverseZero(k: nat)
    ensures Reverse(0, k) == 0
  {
    if k > 0 { ReverseZero(k - 1); }
  }

  /** Swapping the bits of every byte twice changes nothing. */
  lemma {:induction false} SwappedTwice(swap: bool, s: seq<nat>)
    requires AreBytes(s)
    ensures Swapped(swap, Swapped(swap, s)) == s
  {
    hide Reverse, Pow2;
    Pow2Values();
    forall i | 0 <= i < |s| ensures Swapped(swap, Swapped(swap, s))[i] == s[i] {
      if swap { ReverseTwice(s[i], 8); }
    }
  }

  lemma {:induction false} SwapZero(swap: bool)
    ensures SwapBits(swap, 0) == 0
  {
    hide Reverse;
    ReverseZero(8);
  }

  // ----- bytes and words

  function Pack(b0: nat, b1: nat, b2: nat, b3: nat): nat {
    b0 * 0x100_0000 + b1 * 0x1_0000 + b2 * 0x100 + b3
  }

  function ByteOf(w: nat, j: nat): (b: nat)
    ensures b < 256
  {
    (if j == 0 then w / 0x100_0000 else if j == 1 then w / 0x1_0000 else if j == 2 then w / 0x100 else w) % 256
  }

  ghost function Packed(s: seq<nat>, l: nat): (r: seq<nat>)
    requires |s| == 4 * l
    ensures |r| == l
  {
    seq(l, i requires 0 <= i < l => Pack(s[4 * i], s[4 * i + 1], s[4 * i + 2], s[4 * i + 3]))
  }

  ghost function Unpacked(w: seq<nat>): (s: seq<nat>)
    ensures |s| == 4 * |w| && AreBytes(s)
  {
    seq(4 * |w|, k requires 0 <= k < 4 * |w| => ByteOf(w[k / 4], k % 4))
  }

  lemma {:induction false} PackBytes(w: nat)
    requires w < W
    ensures Pack(ByteOf(w, 0), ByteOf(w, 1), ByteOf(w, 2), ByteOf(w, 3)) == w
  {
    FourBytes(w);
    assert ByteOf(w, 0) == w / 0x100_0000;
    assert ByteOf(w, 1) == w / 0x1_0000 % 256;
    assert ByteOf(w, 2) == w / 0x100 % 256;
    assert ByteOf(w, 3) == w % 256;
    hide ByteOf;
  }

  lemma {:induction false} UnpackedAt(w: seq<nat>, i: nat)
    requires i < |w|
    ensures var u := Unpacked(w); u[4 * i] == ByteOf(w[i], 0) && u[4 * i + 1] == ByteOf(w[i], 1)
                                  && u[4 * i + 2] == ByteOf(w[i], 2) && u[4 * i + 3] == ByteOf(w[i], 3)
  {
    hide ByteOf;
  }

  lemma {:induction false} PackedAt(s: seq<nat>, l: nat, i: nat)
    requires |s| == 4 * l && i < l
    ensures Packed(s, l)[i] == Pack(s[4 * i], s[4 * i + 1], s[4 * i + 2], s[4 * i + 3])
  {
    hide Pack;
  }

  lemma {:induction false} PackedUnpacked(w: seq<nat>)
    requires AreWords(w)
    ensures Packed(Unpacked(w), |w|) == w
  {
    hide Pack, ByteOf, Packed, Unpacked;
    var p := Packed(Unpacked(w), |w|);
    forall i | 0 <= i < |w| ensures p[i] == w[i] {
      PackedAt(Unpacked(w), |w|, i);
      UnpackedAt(w, i);
      PackBytes(w[i]);
    }
  }

  lemma {:induction false} PackedWords(s: seq<nat>, l: nat)
    requires |s| == 4 * l && AreBytes(s)
    ensures AreWords(Packed(s, l))
  {
  }

  lemma {:induction false} DigitsFour(s: seq<nat>)
    requires |s| == 4 && AreBytes(s)
    ensures BytesVal(s) == Pack(s[0], s[1], s[2], s[3])
  {
    hide Digits;
    Pow2Values();
    assert s == [s[0]] + ([s[1]] + ([s[2]] + [s[3]]));
    DigitsCons(s[0], [s[1]] + ([s[2]] + [s[3]]), 8);
    DigitsCons(s[1], [s[2]] + [s[3]], 8);
    DigitsCons(s[2], [s[3]], 8);
    DigitsOne(s[3], 8);
  }

  /** The words and the bytes they are packed from stand for the same polynomial. */
  lemma {:induction false} PackedValue(s: seq<nat>, l: nat)
    requires |s| == 4 * l && AreBytes(s)
    ensures WordsVal(Packed(s, l)) == BytesVal(s)
    decreases l
  {
    hide Pack, Packed, Pow2, Digits;
    if l == 0 {
      ZeroDigits(Packed(s, l), 32);
      ZeroDigits(s, 8);
    } else {
      var n := 4 * (l - 1);
      var a, b := s[..n], s[n..];
      PackedValue(a, l - 1);
      PackedSplit(s, l);
      assert s == a + b;
      DigitsConcat(a, b, 8);
      DigitsFour(b);
      var w := Pack(b[0], b[1], b[2], b[3]);
      DigitsConcat(Packed(a, l - 1), [w], 32);
      DigitsOne(w, 32);
    }
  }

  lemma {:induction false} PackedSplit(s: seq<nat>, l: nat)
    requires |s| == 4 * l && l > 0
    ensures var n := 4 * (l - 1); Packed(s, l) == Packed(s[..n], l - 1) + [Pack(s[n], s[n + 1], s[n + 2], s[n + 3])]
  {
    hide Pack, Packed;
    var n := 4 * (l - 1);
    var p, q := Packed(s, l), Packed(s[..n], l - 1);
    forall i | 0 <= i < l ensures p[i] == (q + [Pack(s[n], s[n + 1], s[n + 2], s[n + 3])])[i] {
      PackedAt(s, l, i);
      if i < l - 1 { PackedAt(s[..n], l - 1, i); }
    }
  }

  // ----- parity bytes

  /** The parity bytes hold r, left-justified; the bits after the first e are zero. */
  ghost predicate EccHolds(bytes: seq<nat>, swap: bool, e: nat, r: nat) {
    && AreBytes(bytes) && e <= 8 * |bytes| && r < Pow2(e)
    && BytesVal(Swapped(swap, bytes)) == Shl(r, 8 * |bytes| - e)
  }

  /** The words load_ecc8 builds from parity bytes, zero-padded. */
  ghost function Loaded(swap: bool, src: seq<nat>, l: nat): (w: seq<nat>)
    requires AreBytes(src) && |src| <= 4 * l
    ensures |w| == l
  {
    Packed(Swapped(swap, src) + Zeros(4 * l - |src|), l)
  }

  ghost function Stored(swap: bool, words: seq<nat>, n: nat): (s: seq<nat>)
    requires n <= 4 * |words|
    ensures |s| == n && AreBytes(s)
  {
    Swapped(swap, Unpacked(words)[..n])
  }

  lemma {:induction false} LoadedValue(swap: bool, src: seq<nat>, l: nat)
    requires AreBytes(src) && |src| <= 4 * l
    ensures AreWords(Loaded(swap, src, l))
    ensures WordsVal(Loaded(swap, src, l)) == Shl(BytesVal(Swapped(swap, src)), 8 * (4 * l - |src|))
  {
    hide Digits, Packed, Swapped, Pow2;
    var z := Zeros(4 * l - |src|);
    var s := Swapped(swap, src) + z;
    PackedWords(s, l);
    PackedValue(s, l);
    DigitsConcat(Swapped(swap, src), z, 8);
    ZeroDigits(z, 8);
    ShlDef(BytesVal(Swapped(swap, src)), 8 * (4 * l - |src|));
  }

  lemma {:induction false} LoadHolds(swap: bool, src: seq<nat>, l: nat, e: nat, r: nat)
    requires |src| <= 4 * l && EccHolds(src, swap, e, r)
    ensures Holds(Loaded(swap, src, l), e, r)
  {
    hide Digits, Loaded, Swapped, Pow2, Shl;
    LoadedValue(swap, src, l);
    ShlShl(r, 8 * |src| - e, 8 * (4 * l - |src|));
  }

  lemma {:induction false} StoreHolds(swap: bool, words: seq<nat>, n: nat, e: nat, r: nat)
    requires n <= 4 * |words| && e <= 8 * n && Holds(words, e, r)
    ensures EccHolds(Stored(swap, words, n), swap, e, r)
  {
    hide Digits, Swapped, Unpacked, Pow2, Shl, Packed;
    var u := Unpacked(words);
    var l := |words|;
    PackedUnpacked(words);
    PackedValue(u, l);
    assert u == u[..n] + u[n..];
    DigitsConcat(u[..n], u[n..], 8);
    Pow2Values();
    DigitsBound(u[n..], 8);
    var k := 8 * (4 * l - n);
    ShlDef(BytesVal(u[..n]), k);
    ShlShl(r, 8 * n - e, k);
    ShlUnique(k, BytesVal(u[..n]), BytesVal(u[n..]), Shl(r, 8 * n - e), 0);
    SwappedTwice(swap, u[..n]);
  }

  method LoadEcc8(l: nat, swap: bool, src: seq<nat>, dst: array<nat>)
    requires l > 0 && dst.Length == l && AreBytes(src) && 4 * (l - 1) < |src| <= 4 * l
    modifies dst
    ensures dst[..] == Loaded(swap, src, l)
  {
    hide SwapBits, Pack;
    var nwords := l - 1;
    ghost var full := Swapped(swap, src) + Zeros(4 * l - |src|);
    var i := 0;
    while i < nwords
      invariant 0 <= i <= nwords
      invariant forall k :: 0 <= k < i ==>
                  dst[k] == Pack(full[4 * k], full[4 * k + 1], full[4 * k + 2], full[4 * k + 3])
    {
      dst[i] := Pack(SwapBits(swap, src[4 * i]), SwapBits(swap, src[4 * i + 1]),
                     SwapBits(swap, src[4 * i + 2]), SwapBits(swap, src[4 * i + 3]));
      i := i + 1;
    }
    var pad := src[4 * nwords..] + [0, 0, 0];
    SwapZero(swap);
    dst[nwords] := Pack(SwapBits(swap, pad[0]), SwapBits(swap, pad[1]), SwapBits(swap, pad[2]), SwapBits(swap, pad[3]));
    assert dst[..] == Packed(full, l);
  }

  method StoreEcc8(swap: bool, n: nat, src: array<nat>) returns (dst: seq<nat>)
    requires src.Length > 0 && 4 * (src.Length - 1) < n <= 4 * src.Length
    ensures dst == Stored(swap, src[..], n)
  {
    hide SwapBits, ByteOf;
    var nwords := src.Length - 1;
    dst := [];
    var i := 0;
    while i < nwords
      invariant 0 <= i <= nwords && |dst| == 4 * i
      invariant forall k :: 0 <= k < 4 * i ==> dst[k] == SwapBits(swap, ByteOf(src[k / 4], k % 4))
    {
      var w := src[i];
      dst := dst + [SwapBits(swap, ByteOf(w, 0)), SwapBits(swap, ByteOf(w, 1)),
                    SwapBits(swap, ByteOf(w, 2)), SwapBits(swap, ByteOf(w, 3))];
      i := i + 1;
    }
    var w := src[nwords];
    var pad := [SwapBits(swap, ByteOf(w, 0)), SwapBits(swap, ByteOf(w, 1)),
                SwapBits(swap, ByteOf(w, 2)), SwapBits(swap, ByteOf(w, 3))];
    dst := dst + pad[..n - 4 * nwords];
  }

  // ----- the encoder

  lemma {:induction false} EncodedWord(g: nat, e: nat, r: nat, swap: bool, s: seq<nat>)
    requires IsDivisor(g, e) && |s| == 4 && AreBytes(s)
    ensures var word := Pack(SwapBits(swap, s[0]), SwapBits(swap, s[1]), SwapBits(swap, s[2]), SwapBits(swap, s[3]));
            word < W && Encoded(g, e, r, swap, s) == Absorb(g, e, r, word, 32)
  {
    hide Absorb, SwapBits, Digits;
    DigitsFour(Swapped(swap, s));
  }

  method EncodeWords(l: nat, tab: seq<nat>, swap: bool, data: seq<nat>, r: array<nat>, ghost g: nat, ghost e: nat,
                     ghost par: nat)
    requires TableOk(tab, l, g, e) && r.Length == l && AreBytes(data) && |data| % 4 == 0 && Holds(r[..], e, par)
    modifies r
    ensures Holds(r[..], e, Encoded(g, e, par, swap, data))
  {
    hide Xor, Mod, Pow2, Shl, Digits, Absorb, Encoded, SwapBits, Pack;
    var i := 0;
    EncodedEmpty(g, e, par, swap);
    while i < |data|
      invariant 0 <= i <= |data| && i % 4 == 0
      invariant Holds(r[..], e, Encoded(g, e, par, swap, data[..i]))
    {
      var word := Pack(SwapBits(swap, data[i]), SwapBits(swap, data[i + 1]),
                       SwapBits(swap, data[i + 2]), SwapBits(swap, data[i + 3]));
      ghost var mid := Encoded(g, e, par, swap, data[..i]);
      ghost var four := data[i..i + 4];
      EncodedWord(g, e, mid, swap, four);
      EncodeWord(l, tab, word, r, g, e, mid);
      EncodedConcat(g, e, par, swap, data[..i], four);
      assert data[..i + 4] == data[..i] + four;
      i := i + 4;
    }
    assert data[..i] == data;
  }

  method CopyWords(a: array<nat>) returns (b: array<nat>)
    ensures fresh(b) && b.Length == a.Length && b[..] == a[..]
  {
    b := new nat[a.Length];
    forall i | 0 <= i < a.Length { b[i] := a[i]; }
  }

  /** The encoder proper, for data whose address is align modulo 4. */
  method EncodeBuffer(l: nat, tab: seq<nat>, swap: bool, data: seq<nat>, align: nat, buf: array<nat>, ghost g: nat,
                      ghost e: nat, ghost par: nat)
    requires TableOk(tab, l, g, e) && buf.Length == l && AreBytes(data) && align < 4 && Holds(buf[..], e, par)
    modifies buf
    ensures Holds(buf[..], e, Encoded(g, e, par, swap, data))
  {
    hide Xor, Mod, Pow2, Shl, Digits, Absorb, Encoded, SwapBits;
    var head := 0;
    if align != 0 {
      head := if |data| < 4 - align then |data| else 4 - align;
    }
    EncodeUnaligned(l, tab, swap, data[..head], buf, g, e, par);
    ghost var p1 := Encoded(g, e, par, swap, data[..head]);
    var body := (|data| - head) / 4 * 4;
    var tail := head + body;
    ghost var s1 := buf[..];
    var r := CopyWords(buf);
    assert r[..] == s1;
    EncodeWords(l, tab, swap, data[head..tail], r, g, e, p1);
    ghost var p2 := Encoded(g, e, p1, swap, data[head..tail]);
    ghost var s2 := r[..];
    forall i | 0 <= i < l { buf[i] := r[i]; }
    assert buf[..] == s2;
    EncodeUnaligned(l, tab, swap, data[tail..], buf, g, e, p2);
    EncodedConcat(g, e, par, swap, data[..head], data[head..tail]);
    assert data[..head] + data[head..tail] == data[..tail];
    EncodedConcat(g, e, par, swap, data[..tail], data[tail..]);
    assert data[..tail] + data[tail..] == data;
  }
}
