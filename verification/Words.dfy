/** Big-endian sequences of 32-bit words (and of bytes) as polynomials over GF(2). */
module Words {
  import opened Gf2
  import opened FieldLaws

  const W: nat := 0x1_0000_0000

  ghost predicate AreWords(s: seq<nat>) {
    forall i :: 0 <= i < |s| ==> s[i] < W
  }

  ghost predicate AreBytes(s: seq<nat>) {
    forall i :: 0 <= i < |s| ==> s[i] < 256
  }

  /** The number written with digits of k bits, most significant first. */
  ghost function Digits(s: seq<nat>, k: nat): nat {
    if s == [] then 0 else Digits(s[..|s| - 1], k) * Pow2(k) + s[|s| - 1]
  }

  ghost function WordsVal(s: seq<nat>): nat { Digits(s, 32) }

  ghost function BytesVal(s: seq<nat>): nat { Digits(s, 8) }

  lemma {:induction false} DigitsConcat(a: seq<nat>, b: seq<nat>, k: nat)
    ensures Digits(a + b, k) == Digits(a, k) * Pow2(k * |b|) + Digits(b, k)
  {
    hide Pow2;
    if b == [] {
      assert a + b == a;
      assert k * |b| == 0;
      Pow2Zero();
    } else {
      var n := |b| - 1;
      assert (a + b)[..|a + b| - 1] == a + b[..n];
      DigitsConcat(a, b[..n], k);
      assert k * |b| == k * n + k;
      ShiftAgain(Digits(a, k), Digits(b[..n], k), k * n, k);
    }
  }

  lemma {:induction false} Pow2Zero()
    ensures Pow2(0) == 1
  {
  }

  lemma {:induction false} ShiftAgain(x: nat, y: nat, i: nat, k: nat)
    ensures (x * Pow2(i) + y) * Pow2(k) == x * Pow2(i + k) + y * Pow2(k)
  {
    Pow2Add(i, k);
    hide Pow2;
    Distribute(x, Pow2(i), y, Pow2(k));
  }

  lemma {:induction false} Distribute(x: nat, p: nat, y: nat, q: nat)
    ensures (x * p + y) * q == x * (p * q) + y * q
  {
    assert (x * p) * q == x * (p * q);
  }

  lemma {:induction false} DigitsOne(x: nat, k: nat)
    ensures Digits([x], k) == x
  {
    assert [x][..0] == [];
    assert Digits([x][..0], k) == 0;
  }

  lemma {:induction false} DigitsCons(x: nat, b: seq<nat>, k: nat)
    ensures Digits([x] + b, k) == x * Pow2(k * |b|) + Digits(b, k)
  {
    DigitsConcat([x], b, k);
    DigitsOne(x, k);
  }

  lemma {:induction false} DigitsBound(s: seq<nat>, k: nat)
    requires forall i :: 0 <= i < |s| ==> s[i] < Pow2(k)
    ensures Digits(s, k) < Pow2(k * |s|)
  {
    if s == [] {
      assert k * |s| == 0;
    } else {
      var n := |s| - 1;
      DigitsBound(s[..n], k);
      var d := Digits(s[..n], k);
      assert k * |s| == k * n + k;
      Pow2Add(k * n, k);
      MulStep(d, Pow2(k * n), Pow2(k), s[n]);
    }
  }

  lemma {:induction false} MulStep(d: nat, p: nat, q: nat, x: nat)
    requires d < p && x < q
    ensures d * q + x < p * q
  {
    assert (d + 1) * q <= p * q by { MulMono(d + 1, p, q); }
    assert (d + 1) * q == d * q + q;
  }

  lemma {:induction false} MulMono(a: nat, b: nat, c: nat)
    requires a <= b
    ensures a * c <= b * c
  {
    assert b * c == a * c + (b - a) * c;
  }

  /** Adding word by word adds the polynomials. */
  lemma {:induction false} DigitsXor(a: seq<nat>, b: seq<nat>, k: nat)
    requires |a| == |b|
    requires forall i :: 0 <= i < |a| ==> a[i] < Pow2(k) && b[i] < Pow2(k)
    ensures Digits(XorSeq(a, b), k) == Xor(Digits(a, k), Digits(b, k))
  {
    hide Xor;
    if a == [] {
      XorZero(0);
    } else {
      var n := |a| - 1;
      DigitsXor(a[..n], b[..n], k);
      assert XorSeq(a, b)[..n] == XorSeq(a[..n], b[..n]);
      XorSplit(Digits(a[..n], k), a[n], Digits(b[..n], k), b[n], k);
    }
  }

  lemma {:induction false} XorWords(a: seq<nat>, b: seq<nat>)
    requires |a| == |b| && AreWords(a) && AreWords(b)
    ensures AreWords(XorSeq(a, b))
    ensures WordsVal(XorSeq(a, b)) == Xor(WordsVal(a), WordsVal(b))
  {
    Pow2Values();
    DigitsXor(a, b, 32);
    forall i | 0 <= i < |a| ensures XorSeq(a, b)[i] < W { XorBound(a[i], b[i], 32); }
  }

  lemma {:induction false} WordsBound(s: seq<nat>)
    requires AreWords(s)
    ensures WordsVal(s) < Pow2(32 * |s|)
  {
    Pow2Values();
    DigitsBound(s, 32);
  }

  lemma {:induction false} ZeroDigits(s: seq<nat>, k: nat)
    requires forall i :: 0 <= i < |s| ==> s[i] == 0
    ensures Digits(s, k) == 0
  {
    if s != [] {
      ZeroDigits(s[..|s| - 1], k);
    }
  }

  // ----- shifting a sequence of words right by q bits

  /** Word j of s shifted right by q, without the topmost word: the low bits of s[j] followed by the
      high bits of s[j+1]. */
  ghost function AcrossWord(x: nat, y: nat, q: nat): nat
    requires q <= 32
  {
    Shl(Low(x, q), 32 - q) + Shr(y, q)
  }

  ghost function Across(s: seq<nat>, q: nat): (r: seq<nat>)
    requires |s| > 0 && q <= 32
    ensures |r| == |s| - 1
  {
    seq(|s| - 1, j requires 0 <= j < |s| - 1 => AcrossWord(s[j], s[j + 1], q))
  }

  lemma {:induction false} ShiftRight(s: seq<nat>, q: nat)
    requires |s| > 0 && q <= 32 && AreWords(s)
    ensures WordsVal(s) == Pow2(q) * (Shl(Shr(s[0], q), 32 * (|s| - 1)) + WordsVal(Across(s, q)))
                           + Low(s[|s| - 1], q)
  {
    hide Pow2, Digits, Shl, Shr, Low, AcrossWord;
    var a := s[0];
    if |s| == 1 {
      DigitsOne(a, 32);
      assert s == [a];
      assert Across(s, q) == [];
      ZeroDigits([], 32);
      ShiftRightOne(a, q);
    } else {
      var rest := s[1..];
      assert s == [a] + rest;
      ShiftRight(rest, q);
      DigitsCons(a, rest, 32);
      var x := AcrossWord(a, rest[0], q);
      assert Across(s, q) == [x] + Across(rest, q);
      DigitsCons(x, Across(rest, q), 32);
      ShiftRightMany(a, rest[0], q, |rest|, WordsVal(Across(rest, q)), Low(rest[|rest| - 1], q));
    }
  }

  lemma {:induction false} ShiftRightOne(a: nat, q: nat)
    ensures a == Pow2(q) * (Shl(Shr(a, q), 0) + 0) + Low(a, q)
  {
    Pow2Zero();
    hide Pow2;
    var p := Pow2(q);
    assert a == p * (a / p) + a % p;
  }

  lemma {:induction false} ShiftRightMany(a: nat, r0: nat, q: nat, n: nat, v: nat, low: nat)
    requires q <= 32 && n > 0
    ensures a * Pow2(32 * n) + (Pow2(q) * (Shl(Shr(r0, q), 32 * (n - 1)) + v) + low)
         == Pow2(q) * (Shl(Shr(a, q), 32 * n) + (AcrossWord(a, r0, q) * Pow2(32 * (n - 1)) + v)) + low
  {
    Pow2Add(32 * (n - 1), 32);
    Pow2Add(q, 32 - q);
    assert 32 * (n - 1) + 32 == 32 * n;
    hide Pow2;
    ShiftRightStep(a, Pow2(q), Pow2(32 - q), Pow2(32 * (n - 1)), Shr(r0, q), v, low);
  }

  lemma {:induction false} ShiftRightStep(a: nat, p: nat, p': nat, big: nat, r0: nat, v: nat, low: nat)
    requires p > 0
    ensures a * (big * (p * p')) + (p * (r0 * big + v) + low)
         == p * ((a / p) * (big * (p * p')) + (((a % p) * p' + r0) * big + v)) + low
  {
    var h, l := a / p, a % p;
    assert a == p * h + l;
    var x := big * (p * p');
    assert a * x == p * (h * x) + l * x by { assert (p * h + l) * x == p * (h * x) + l * x; }
    assert l * x == p * ((l * p') * big);
    assert p * (h * x + ((l * p' + r0) * big + v)) == p * (h * x) + p * ((l * p') * big) + p * (r0 * big + v) by {
      assert (l * p' + r0) * big == (l * p') * big + r0 * big;
    }
  }

  lemma {:induction false} ShrBound(y: nat, i: nat, k: nat)
    requires y < Pow2(i + k)
    ensures Shr(y, k) < Pow2(i)
  {
    Pow2Add(i, k);
    hide Pow2;
    DivLess(y, Pow2(i), Pow2(k));
  }

  lemma {:induction false} DivLess(y: nat, p: nat, q: nat)
    requires q > 0 && y < p * q
    ensures y / q < p
  {
    var h := y / q;
    assert y == h * q + y % q;
    if h >= p {
      MulMono(p, h, q);
    }
  }

  lemma {:induction false} AcrossBound(x: nat, y: nat, q: nat)
    requires x < W && y < W && q <= 32
    ensures AcrossWord(x, y, q) < W
  {
    Pow2Values();
    ShrBound(y, 32 - q, q);
    Pow2Add(q, 32 - q);
    hide Pow2, Shr, Low, Shl;
    MulStep(Low(x, q), Pow2(q), Pow2(32 - q), Shr(y, q));
  }

  lemma {:induction false} AcrossWords(s: seq<nat>, q: nat)
    requires |s| > 0 && q <= 32 && AreWords(s)
    ensures AreWords(Across(s, q))
  {
    hide AcrossWord, Pow2;
    forall j | 0 <= j < |s| - 1 ensures Across(s, q)[j] < W { AcrossBound(s[j], s[j + 1], q); }
  }
}
