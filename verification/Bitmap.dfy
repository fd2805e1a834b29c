/** Bit sets kept in words, and the search for the next bit. */
module Bitmap {
  import opened Common

  const BITS: nat := 64

  /** A machine word as its bits, lowest first. */
  type Word = w: seq<bool> | |w| == 64 witness seq(64, i => false)

  ghost predicate Bit(s: seq<Word>, i: nat)
    requires i / BITS < |s|
  {
    s[i / BITS][i % BITS]
  }

  function And(a: Word, b: Word): (r: Word)
    ensures forall i :: 0 <= i < BITS ==> r[i] == (a[i] && b[i])
  {
    seq(BITS, i requires 0 <= i < BITS => a[i] && b[i])
  }

  function Xor(a: Word, invert: bool): (r: Word)
    ensures forall i :: 0 <= i < BITS ==> r[i] == (a[i] != invert)
  {
    seq(BITS, i requires 0 <= i < BITS => a[i] != invert)
  }

  /** The word without its lowest k bits. */
  function From(a: Word, k: nat): (r: Word)
    ensures forall i :: 0 <= i < BITS ==> r[i] == (a[i] && i >= k)
  {
    seq(BITS, i requires 0 <= i < BITS => a[i] && i >= k)
  }

  predicate IsZero(a: Word) {
    forall i :: 0 <= i < BITS ==> !a[i]
  }

  /** The number of zero bits below the lowest set bit. */
  method TrailingZeros(a: Word) returns (n: nat)
    requires !IsZero(a)
    ensures n < BITS && a[n] && forall i :: 0 <= i < n ==> !a[i]
  {
    n := 0;
    while !a[n]
      invariant n < BITS && forall i :: 0 <= i < n ==> !a[i]
      decreases BITS - n
    {
      if n == BITS - 1 { assert IsZero(a); }
      n := n + 1;
    }
  }

  /** What the search looks for: bit i of the first set, and of the second if there is one, inverted or
      not. */
  ghost predicate Wanted(a: seq<Word>, b: Option<seq<Word>>, invert: bool, i: nat)
    requires i / BITS < |a| && (b.Some? ==> |b.value| == |a|)
  {
    (Bit(a, i) && (b.Some? ==> Bit(b.value, i))) != invert
  }

  function WordAt(a: seq<Word>, b: Option<seq<Word>>, invert: bool, k: nat): Word
    requires k < |a| && (b.Some? ==> |b.value| == |a|)
  {
    Xor(if b.Some? then And(a[k], b.value[k]) else a[k], invert)
  }

  lemma {:induction false} WordBit(a: seq<Word>, b: Option<seq<Word>>, invert: bool, k: nat, j: nat)
    requires k < |a| && (b.Some? ==> |b.value| == |a|) && j < BITS
    ensures (BITS * k + j) / BITS == k
    ensures WordAt(a, b, invert, k)[j] <==> Wanted(a, b, invert, BITS * k + j)
  {
    assert (BITS * k + j) % BITS == j;
  }

  /** _find_next_bit: the first wanted bit from start on, or nbits. */
  method FindNextBit(a: seq<Word>, b: Option<seq<Word>>, nbits: nat, start: nat, invert: bool) returns (r: nat)
    requires nbits <= BITS * |a| && (b.Some? ==> |b.value| == |a|)
    ensures start >= nbits ==> r == nbits
    ensures start < nbits ==> start <= r <= nbits && (r < nbits ==> Wanted(a, b, invert, r))
    ensures forall i: nat :: start <= i < r && i < nbits ==> !Wanted(a, b, invert, i)
  {
    hide Wanted, WordAt, Bit;
    if start >= nbits { return nbits; }
    var tmp := From(WordAt(a, b, invert, start / BITS), start % BITS);
    var s := start / BITS * BITS;
    ghost var k := start / BITS;
    forall j: nat | j < BITS ensures s + j < BITS * |a| && (tmp[j] <==> s + j >= start && Wanted(a, b, invert, s + j)) {
      WordBit(a, b, invert, k, j);
    }
    while IsZero(tmp)
      invariant s == BITS * k && k < |a| && s < nbits && start < s + BITS
      invariant forall j: nat :: j < BITS ==> (tmp[j] <==> s + j >= start && Wanted(a, b, invert, s + j))
      invariant forall i: nat :: start <= i < s ==> !Wanted(a, b, invert, i)
      decreases |a| - k
    {
      forall i: nat | start <= i < s + BITS ensures i / BITS < |a| && !Wanted(a, b, invert, i) {
        if i >= s { assert !tmp[i - s]; }
      }
      s := s + BITS;
      k := k + 1;
      if s >= nbits { return nbits; }
      tmp := WordAt(a, b, invert, s / BITS);
      forall j: nat | j < BITS ensures s + j < BITS * |a| && (tmp[j] <==> Wanted(a, b, invert, s + j)) {
        WordBit(a, b, invert, k, j);
      }
    }
    var z := TrailingZeros(tmp);
    forall i: nat | start <= i < s + z ensures !Wanted(a, b, invert, i) {
      if i >= s { assert !tmp[i - s]; }
    }
    r := if s + z < nbits then s + z else nbits;
  }
}
