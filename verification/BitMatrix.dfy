/** Transposition of a 16 by 16 bit matrix, in place, by exchanging blocks of halving size. */
module BitMatrix {
  import opened Arithmetic
  import opened Gf2
  import opened LinearSystem
  import opened LinearSolve

  // ----- bits of words

  lemma {:induction false} BitZero(i: nat)
    ensures Bit(0, i) == 0
  {
  }

  lemma {:induction false} BitXor(x: nat, y: nat, i: nat)
    ensures Bit(Xor(x, y), i) == (Bit(x, i) + Bit(y, i)) % 2
  {
    hide Dot, Xor, Bit;
    DotPower(i, Xor(x, y));
    DotPower(i, x);
    DotPower(i, y);
    DotComm(Pow2(i), Xor(x, y));
    DotComm(Pow2(i), x);
    DotComm(Pow2(i), y);
    DotXor(x, y, Pow2(i));
  }

  lemma {:induction false} DotComm(a: nat, b: nat)
    ensures Dot(a, b) == Dot(b, a)
  {
    AndComm(a, b);
  }

  lemma {:induction false} AndComm(a: nat, b: nat)
    ensures And(a, b) == And(b, a)
  {
    if a != 0 && b != 0 { AndComm(a / 2, b / 2); }
  }

  lemma {:induction false} AndStep(a: nat, b: nat)
    ensures And(a, b) / 2 == And(a / 2, b / 2) && And(a, b) % 2 == (a % 2) * (b % 2)
  {
  }

  lemma {:induction false} BitAnd(x: nat, y: nat, i: nat)
    ensures Bit(And(x, y), i) == Bit(x, i) * Bit(y, i)
  {
    hide And;
    AndStep(x, y);
    if i == 0 {
      assert Pow2(0) == 1;
    } else {
      hide Bit;
      BitStep(x, i);
      BitStep(y, i);
      BitStep(And(x, y), i);
      BitAnd(x / 2, y / 2, i - 1);
    }
  }

  lemma {:induction false} BitShr(x: nat, j: nat, i: nat)
    ensures Bit(Shr(x, j), i) == Bit(x, i + j)
  {
    Pow2Add(j, i);
    hide Pow2;
    DivTwice(x, Pow2(j), Pow2(i));
  }

  lemma {:induction false} DivTwice(x: nat, p: nat, q: nat)
    requires p > 0 && q > 0
    ensures p * q > 0 && x / p >= 0 && x / (p * q) == x / p / q
  {
    var y := x / p;
    var z, s := y / q, y % q;
    assert x == y * p + x % p;
    assert y == z * q + s;
    Nested(z, q, s, p, x % p);
    DivModUnique(x, p * q, z, s * p + x % p);
  }

  lemma {:induction false} Nested(z: nat, q: nat, s: nat, p: nat, t: nat)
    requires s < q && t < p
    ensures (z * q + s) * p + t == z * (p * q) + (s * p + t) && 0 <= s * p + t < p * q
  {
    assert (z * q + s) * p == z * q * p + s * p;
    assert z * q * p == z * (p * q);
    assert (q - s) * p == q * p - s * p;
    MulAtLeast(q - s, p);
  }

  lemma {:induction false} BitShl(x: nat, j: nat, i: nat)
    ensures Bit(Shl(x, j), i) == if i < j then 0 else Bit(x, i - j)
  {
    hide Bit;
    if i < j {
      BitKept(0, x, j, i);
      BitZero(i);
      assert 0 + x * Pow2(j) == Shl(x, j);
    } else {
      BitShr(Shl(x, j), j, i - j);
      ShrShl(x, j);
    }
  }

  lemma {:induction false} ShrShl(x: nat, j: nat)
    ensures Shr(Shl(x, j), j) == x
  {
    hide Pow2;
    DivModUnique(x * Pow2(j), Pow2(j), x, 0);
  }

  lemma {:induction false} AndBelow(x: nat, y: nat)
    ensures And(x, y) <= y
  {
    if x != 0 && y != 0 { AndBelow(x / 2, y / 2); }
  }

  // ----- the blocks

  predicate IsBlock(j: nat) { j == 8 || j == 4 || j == 2 || j == 1 }

  /** The block of 2j that an index is in, the half of the block, and the place in the half. */
  function Block(i: nat, j: nat): nat
    requires IsBlock(j)
  {
    i / j / 2
  }

  function Side(i: nat, j: nat): (b: nat)
    requires IsBlock(j)
    ensures b < 2
  {
    i / j % 2
  }

  function Rest(i: nat, j: nat): nat
    requires IsBlock(j)
  {
    i % j
  }

  /** An index is made of its three parts, and every choice of parts is those of an index. */
  lemma {:induction false} Parts(i: nat, j: nat)
    requires IsBlock(j)
    ensures i == Block(i, j) * (2 * j) + Side(i, j) * j + Rest(i, j) && Rest(i, j) < j
  {
    var q := i / j;
    assert i == q * j + i % j;
    assert q == q / 2 * 2 + q % 2;
    Twice(q / 2, q % 2, j);
  }

  lemma {:induction false} Twice(a: nat, b: nat, j: nat)
    ensures (a * 2 + b) * j == a * (2 * j) + b * j
  {
  }

  lemma {:induction false} PartsOf(a: nat, b: nat, c: nat, j: nat, i: nat)
    requires IsBlock(j) && b < 2 && c < j && i == a * (2 * j) + b * j + c
    ensures Block(i, j) == a && Side(i, j) == b && Rest(i, j) == c
  {
    Twice(a, b, j);
    DivModUnique(i, j, a * 2 + b, c);
  }

  /** The columns of the left half of every block. */
  function MaskOf(j: nat): nat
    requires IsBlock(j)
  {
    if j == 8 then 0x00ff else if j == 4 then 0x0f0f else if j == 2 then 0x3333 else 0x5555
  }

  lemma {:induction false} MaskBitsWide(i: nat)
    requires i < 16
    ensures Bit(0x00ff, i) == if i / 8 % 2 == 0 then 1 else 0
    ensures Bit(0x0f0f, i) == if i / 4 % 2 == 0 then 1 else 0
  {
    assert Pow2(0) == 1 && Pow2(1) == 2 && Pow2(2) == 4 && Pow2(3) == 8;
    assert Pow2(4) == 16 && Pow2(5) == 32 && Pow2(6) == 64 && Pow2(7) == 128;
    assert Pow2(8) == 256 && Pow2(9) == 512 && Pow2(10) == 1024 && Pow2(11) == 2048;
    assert Pow2(12) == 4096 && Pow2(13) == 8192 && Pow2(14) == 16384 && Pow2(15) == 32768;
  }

  lemma {:induction false} MaskBitsNarrow(i: nat)
    requires i < 16
    ensures Bit(0x3333, i) == if i / 2 % 2 == 0 then 1 else 0
    ensures Bit(0x5555, i) == if i / 1 % 2 == 0 then 1 else 0
  {
    assert Pow2(0) == 1 && Pow2(1) == 2 && Pow2(2) == 4 && Pow2(3) == 8;
    assert Pow2(4) == 16 && Pow2(5) == 32 && Pow2(6) == 64 && Pow2(7) == 128;
    assert Pow2(8) == 256 && Pow2(9) == 512 && Pow2(10) == 1024 && Pow2(11) == 2048;
    assert Pow2(12) == 4096 && Pow2(13) == 8192 && Pow2(14) == 16384 && Pow2(15) == 32768;
  }

  lemma {:induction false} MaskBits(j: nat, i: nat)
    requires IsBlock(j) && i < 16
    ensures Bit(MaskOf(j), i) == if Side(i, j) == 0 then 1 else 0
  {
    hide Bit;
    MaskBitsWide(i);
    MaskBitsNarrow(i);
  }

  lemma {:induction false} MaskSmall(j: nat)
    requires IsBlock(j)
    ensures Shl(MaskOf(j), j) < Pow2(16) && MaskOf(j) < Pow2(16)
  {
    Pow2Values();
    assert Pow2(1) == 2 && Pow2(2) == 4 && Pow2(4) == 16;
  }

  /** The column at the same place in the left half of the block. */
  function BeforeIn(i: nat, j: nat): nat
    requires IsBlock(j) && Side(i, j) == 1
  {
    hide Side, Block, Rest;
    BlockIndex(i, j);
    i - j
  }

  /** What the exchange of one pair of rows leaves: bits of the upper right and the lower left part change places. */
  ghost predicate Exchanged(x: nat, y: nat, j: nat, x': nat, y': nat)
    requires IsBlock(j)
  {
    && x' < Pow2(16) && y' < Pow2(16)
    && (forall i: nat :: i < 16 ==> Bit(x', i) == if Side(i, j) == 0 then Bit(x, i) else Bit(y, BeforeIn(i, j)))
    && forall i: nat :: i < 16 ==> Bit(y', i) == if Side(i, j) == 0 then Bit(x, i + j) else Bit(y, i)
  }

  lemma {:induction false} ExchangedBits(x: nat, y: nat, j: nat, i: nat, t: nat)
    requires IsBlock(j) && i < 16 && t == And(Xor(Shr(x, j), y), MaskOf(j))
    ensures Bit(Xor(x, Shl(t, j)), i) == if Side(i, j) == 0 then Bit(x, i) else Bit(y, BeforeIn(i, j))
    ensures Bit(Xor(y, t), i) == if Side(i, j) == 0 then Bit(x, i + j) else Bit(y, i)
  {
    hide Bit, Xor, And, Shl, Shr, MaskOf;
    TBits(x, y, j, i, t);
    BitXor(x, Shl(t, j), i);
    BitShl(t, j, i);
    BitXor(y, t, i);
    BlockIndex(i, j);
    if i >= j { TBits(x, y, j, i - j, t); }
  }

  lemma {:induction false} BlockIndex(i: nat, j: nat)
    requires IsBlock(j)
    ensures Side(i, j) == 1 ==> i >= j && Block(i - j, j) == Block(i, j) && Side(i - j, j) == 0
                                && Rest(i - j, j) == Rest(i, j)
    ensures Side(i, j) == 0 ==> Block(i + j, j) == Block(i, j) && Side(i + j, j) == 1 && Rest(i + j, j) == Rest(i, j)
    ensures Side(i, j) == 0 && i >= j ==> Side(i - j, j) == 1
  {
    hide Block, Rest, Side;
    Parts(i, j);
    var a := Block(i, j);
    assert a * (2 * j) >= 0;
    if Side(i, j) == 1 {
      PartsOf(a, 0, Rest(i, j), j, i - j);
    } else {
      PartsOf(a, 1, Rest(i, j), j, i + j);
      if i >= j {
        assert a == 0 ==> a * (2 * j) == 0;
        assert (a - 1) * (2 * j) == a * (2 * j) - 2 * j;
        PartsOf(a - 1, 1, Rest(i, j), j, i - j);
      }
    }
  }

  lemma {:induction false} TBits(x: nat, y: nat, j: nat, i: nat, t: nat)
    requires IsBlock(j) && i < 16 && t == And(Xor(Shr(x, j), y), MaskOf(j))
    ensures Bit(t, i) == if Side(i, j) == 0 then (Bit(x, i + j) + Bit(y, i)) % 2 else 0
  {
    hide Bit, Xor, And, Shr, MaskOf;
    BitAnd(Xor(Shr(x, j), y), MaskOf(j), i);
    BitXor(Shr(x, j), y, i);
    BitShr(x, j, i);
    MaskBits(j, i);
  }

  lemma {:induction false} ShlMono(t: nat, u: nat, j: nat)
    requires t <= u
    ensures Shl(t, j) <= Shl(u, j)
  {
    hide Pow2;
    assert (u - t) * Pow2(j) >= 0;
  }

  lemma {:induction false} ExchangePair(x: nat, y: nat, j: nat, t: nat, x': nat, y': nat)
    requires IsBlock(j) && x < Pow2(16) && y < Pow2(16) && t == And(Xor(Shr(x, j), y), MaskOf(j))
    requires x' == Xor(x, Shl(t, j)) && y' == Xor(y, t)
    ensures Exchanged(x, y, j, x', y')
  {
    hide Bit, Xor, And, Shl, Shr, MaskOf, Pow2, Side;
    AndBelow(Xor(Shr(x, j), y), MaskOf(j));
    MaskSmall(j);
    ShlMono(t, MaskOf(j), j);
    XorBound(x, Shl(t, j), 16);
    XorBound(y, t, 16);
    forall i: nat | i < 16 ensures Bit(x', i) == if Side(i, j) == 0 then Bit(x, i) else Bit(y, BeforeIn(i, j)) {
      ExchangedBits(x, y, j, i, t);
    }
    forall i: nat | i < 16 ensures Bit(y', i) == if Side(i, j) == 0 then Bit(x, i + j) else Bit(y, i) {
      ExchangedBits(x, y, j, i, t);
    }
  }

  // ----- one pass over the rows

  /** The partner of r when bit j of r and i differ, r itself otherwise. */
  function Across(r: nat, i: nat, j: nat): nat
    requires IsBlock(j)
  {
    if Side(r, j) == Side(i, j) then r else if Side(r, j) == 0 then r + j else r - j
  }

  /** Row r holds what the pass makes of the rows before. */
  ghost predicate RowDone(was: seq<nat>, x: nat, j: nat, r: nat)
    requires IsBlock(j) && |was| == 16 && r < 16
  {
    && x < Pow2(16)
    && forall i: nat :: i < 16 ==> Across(r, i, j) < 16 && Bit(x, i) == Bit(was[Across(r, i, j)], Across(i, r, j))
  }

  lemma {:induction false} PairDone(was: seq<nat>, j: nat, k: nat, x': nat, y': nat)
    requires IsBlock(j) && |was| == 16 && k < 16 && Side(k, j) == 0
    requires k + j < 16 && Exchanged(was[k], was[k + j], j, x', y')
    ensures RowDone(was, x', j, k) && RowDone(was, y', j, k + j)
  {
    hide Bit, Pow2;
    assert Side(k + j, j) == 1 by { PairRow(k, j); }
  }

  /** Sixteen rows are a whole number of blocks. */
  lemma {:induction false} WholeBlocks(k: nat, j: nat)
    requires IsBlock(j) && k < 16
    ensures Block(k, j) * (2 * j) + 2 * j <= 16
  {
    hide Side, Rest;
    if j == 8 {
    } else if j == 4 {
    } else if j == 2 {
    }
  }

  lemma {:induction false} PairRow(k: nat, j: nat)
    requires IsBlock(j) && Side(k, j) == 0 && k < 16
    ensures Side(k + j, j) == 1 && k + j < 16
  {
    hide Block, Rest, Side;
    BlockIndex(k, j);
    Parts(k, j);
    WholeBlocks(k, j);
  }

  function NextPair(k: nat, j: nat): nat
    requires IsBlock(j)
  {
    if Side(k + j + 1, j) == 1 then k + 1 else k + j + 1
  }

  /** The first row of the pair that row r belongs to. */
  function First(r: nat, j: nat): (f: int)
    requires IsBlock(j)
  {
    r - j * Side(r, j)
  }

  lemma {:induction false} FirstIs(r: nat, j: nat, k: nat)
    requires IsBlock(j) && Side(k, j) == 0
    ensures First(r, j) >= 0 && Side(First(r, j), j) == 0
    ensures First(r, j) == k <==> r == k || r == k + j
  {
    hide Block, Rest, Side;
    BlockIndex(r, j);
    BlockIndex(k, j);
  }

  lemma {:induction false} NextIs(k: nat, j: nat)
    requires IsBlock(j) && k < 16 && Side(k, j) == 0
    ensures k < NextPair(k, j) <= 16 && Side(NextPair(k, j), j) == 0
    ensures NextPair(k, j) == k + 1 || (NextPair(k, j) == k + j + 1 && Rest(k, j) == j - 1)
  {
    hide Block, Rest, Side;
    Parts(k, j);
    WholeBlocks(k, j);
    var a, c := Block(k, j), Rest(k, j);
    if c + 1 < j {
      PartsOf(a, 1, c + 1, j, k + j + 1);
      PartsOf(a, 0, c + 1, j, k + 1);
    } else {
      assert (a + 1) * (2 * j) == a * (2 * j) + 2 * j;
      PartsOf(a + 1, 0, 0, j, k + j + 1);
    }
  }

  /** No first row lies strictly between one pair and the next. */
  lemma {:induction false} NoneBetween(k: nat, j: nat, b: nat)
    requires IsBlock(j) && k < 16 && Side(k, j) == 0 && Side(b, j) == 0 && k < b
    ensures b >= NextPair(k, j)
  {
    hide Block, Rest, Side, NextPair;
    NextIs(k, j);
    Parts(k, j);
    if b < NextPair(k, j) {
      var a := Block(k, j);
      PartsOf(a, 1, b - a * (2 * j) - j, j, b);
    }
  }

  lemma {:induction false} VisitNext(k: nat, j: nat, r: nat)
    requires IsBlock(j) && k < 16 && Side(k, j) == 0
    ensures First(r, j) < NextPair(k, j) <==> First(r, j) < k || r == k || r == k + j
    ensures k < NextPair(k, j) <= 16 && Side(NextPair(k, j), j) == 0
  {
    hide Block, Rest, Side, NextPair, First;
    FirstIs(r, j, k);
    NextIs(k, j);
    if First(r, j) > k { NoneBetween(k, j, First(r, j)); }
  }

  lemma {:induction false} FirstRow(j: nat)
    requires IsBlock(j)
    ensures Side(0, j) == 0 && forall r: nat :: First(r, j) >= 0
  {
    forall r: nat ensures First(r, j) >= 0 { FirstIs(r, j, 0); }
  }

  lemma {:induction false} LastRow(j: nat, r: nat)
    requires IsBlock(j) && r < 16
    ensures First(r, j) < 16
  {
  }

  /** Exchanges the parts of rows k and k + j. */
  method ExchangeRows(rows: array<nat>, k: nat, j: nat, mask: nat, ghost was: seq<nat>)
    requires rows.Length == 16 == |was| && IsBlock(j) && mask == MaskOf(j) && Side(k, j) == 0 && k + j < 16
    requires rows[k] == was[k] < Pow2(16) && rows[k + j] == was[k + j] < Pow2(16)
    modifies rows
    ensures RowDone(was, rows[k], j, k) && RowDone(was, rows[k + j], j, k + j)
    ensures forall r :: 0 <= r < 16 && r != k && r != k + j ==> rows[r] == old(rows[r])
  {
    hide Bit, Xor, And, Shl, Shr, MaskOf, Pow2, RowDone, Exchanged, Side;
    var t := And(Xor(Shr(rows[k], j), rows[k + j]), mask);
    ExchangePair(was[k], was[k + j], j, t, Xor(was[k], Shl(t, j)), Xor(was[k + j], t));
    PairDone(was, j, k, Xor(was[k], Shl(t, j)), Xor(was[k + j], t));
    rows[k] := Xor(rows[k], Shl(t, j));
    rows[k + j] := Xor(rows[k + j], t);
  }

  /** Row r as the pass leaves it once it has come to k. */
  ghost predicate SoFar(was: seq<nat>, rows: seq<nat>, j: nat, k: nat)
    requires IsBlock(j)
  {
    && |was| == |rows| == 16
    && forall r :: 0 <= r < 16 ==> if First(r, j) < k then RowDone(was, rows[r], j, r) else rows[r] == was[r]
  }

  lemma {:induction false} SoFarNext(was: seq<nat>, rows: seq<nat>, next: seq<nat>, j: nat, k: nat)
    requires IsBlock(j) && SoFar(was, rows, j, k) && k < 16 && Side(k, j) == 0 && |next| == 16
    requires k + j < 16 && RowDone(was, next[k], j, k) && RowDone(was, next[k + j], j, k + j)
    requires forall r :: 0 <= r < 16 && r != k && r != k + j ==> next[r] == rows[r]
    ensures SoFar(was, next, j, NextPair(k, j))
  {
    hide RowDone, Side, First, NextPair;
    forall r | 0 <= r < 16
      ensures if First(r, j) < NextPair(k, j) then RowDone(was, next[r], j, r) else next[r] == was[r]
    {
      VisitNext(k, j, r);
    }
  }

  lemma {:induction false} SoFarAt(was: seq<nat>, rows: seq<nat>, j: nat, k: nat)
    requires IsBlock(j) && SoFar(was, rows, j, k) && k < 16 && Side(k, j) == 0
    ensures k + j < 16 && rows[k] == was[k] && rows[k + j] == was[k + j]
  {
    hide RowDone, Side, First;
    PairRow(k, j);
    FirstIs(k, j, k);
    FirstIs(k + j, j, k);
  }

  method Pass(rows: array<nat>, j: nat, mask: nat)
    requires rows.Length == 16 && IsBlock(j) && mask == MaskOf(j) && forall r :: 0 <= r < 16 ==> rows[r] < Pow2(16)
    modifies rows
    ensures forall r :: 0 <= r < 16 ==> RowDone(old(rows[..]), rows[r], j, r)
  {
    hide MaskOf, Pow2, RowDone, NextPair, SoFar, Side, First;
    ghost var was := rows[..];
    FirstRow(j);
    SoFarNone(was, j);
    var k := 0;
    while k < 16
      invariant k <= 16 && Side(k, j) == 0 && SoFar(was, rows[..], j, k)
    {
      ghost var before := rows[..];
      SoFarAt(was, before, j, k);
      ExchangeRows(rows, k, j, mask, was);
      SoFarNext(was, before, rows[..], j, k);
      NextIs(k, j);
      k := NextPair(k, j);
    }
    forall r | 0 <= r < 16 ensures RowDone(was, rows[r], j, r) { SoFarAll(was, rows[..], j, r); }
  }

  lemma {:induction false} SoFarNone(was: seq<nat>, j: nat)
    requires IsBlock(j) && |was| == 16
    ensures SoFar(was, was, j, 0)
  {
    hide RowDone, Side, First;
    FirstRow(j);
  }

  lemma {:induction false} SoFarAll(was: seq<nat>, rows: seq<nat>, j: nat, r: nat)
    requires IsBlock(j) && SoFar(was, rows, j, 16) && r < 16
    ensures RowDone(was, rows[r], j, r)
  {
    hide RowDone, Side, First;
    LastRow(j, r);
  }

  // ----- the whole transposition

  /** r with its block number taken from i, before and after the exchange of the halves. */
  function MixBefore(r: nat, i: nat, j: nat): nat
    requires IsBlock(j)
  {
    Block(i, j) * (2 * j) + Side(r, j) * j + Rest(r, j)
  }

  function MixAfter(r: nat, i: nat, j: nat): nat
    requires IsBlock(j)
  {
    Block(i, j) * (2 * j) + Side(i, j) * j + Rest(r, j)
  }

  lemma {:induction false} AcrossParts(r: nat, i: nat, j: nat)
    requires IsBlock(j)
    ensures Block(Across(r, i, j), j) == Block(r, j)
    ensures Side(Across(r, i, j), j) == Side(i, j) && Rest(Across(r, i, j), j) == Rest(r, j)
  {
    hide Block, Rest, Side;
    BlockIndex(r, j);
  }

  lemma {:induction false} MixStep(r: nat, i: nat, j: nat)
    requires IsBlock(j)
    ensures MixBefore(Across(r, i, j), Across(i, r, j), j) == MixAfter(r, i, j)
  {
    hide Block, Rest, Side, Across;
    AcrossParts(r, i, j);
    AcrossParts(i, r, j);
  }

  lemma {:induction false} MixNext(r: nat, i: nat, j: nat)
    requires IsBlock(j) && r < 16 && i < 16
    ensures j == 8 ==> MixBefore(r, i, j) == r
    ensures j > 1 ==> MixAfter(r, i, j) == MixBefore(r, i, j / 2)
    ensures j == 1 ==> MixAfter(r, i, j) == i
    ensures MixAfter(r, i, j) < 16
  {
    hide Block, Rest, Side;
    Parts(r, j);
    Parts(i, j);
    WholeBlocks(i, j);
    if j == 8 { NoBlock(r); NoBlock(i); }
    if j > 1 { Halve(r, j); Halve(i, j); }
  }

  lemma {:induction false} NoBlock(i: nat)
    requires i < 16
    ensures Block(i, 8) == 0
  {
  }

  lemma {:induction false} Halve(i: nat, j: nat)
    requires IsBlock(j) && j > 1
    ensures Block(i, j / 2) * j == Block(i, j) * (2 * j) + Side(i, j) * j
    ensures Rest(i, j) == Side(i, j / 2) * (j / 2) + Rest(i, j / 2)
  {
    hide Block, Rest, Side;
    var h := j / 2;
    Parts(i, j);
    Parts(i, h);
    var a, b, c := Block(i, h), Side(i, h), Rest(i, h);
    // i = a j + (b h + c), and the second part is below j
    assert i == a * j + (b * h + c) && b * h + c < j;
    var q, s := Block(i, j), Side(i, j);
    Twice(q, s, j);
    assert i == (q * 2 + s) * j + Rest(i, j);
    DivModUnique(i, j, a, b * h + c);
    DivModUnique(i, j, q * 2 + s, Rest(i, j));
  }

  /** The rows after the passes down to and including that of width j: bits have moved accordingly. */
  ghost predicate Passed(was: seq<nat>, rows: seq<nat>, j: nat)
    requires IsBlock(j)
  {
    && |was| == |rows| == 16 && (forall r :: 0 <= r < 16 ==> rows[r] < Pow2(16))
    && forall r: nat, i: nat :: r < 16 && i < 16 ==>
      MixAfter(r, i, j) < 16 && Bit(rows[r], i) == Bit(was[MixAfter(r, i, j)], MixAfter(i, r, j))
  }

  ghost predicate Transposed(was: seq<nat>, rows: seq<nat>) {
    && |was| == |rows| == 16 && (forall r :: 0 <= r < 16 ==> rows[r] < Pow2(16))
    && forall r: nat, i: nat :: r < 16 && i < 16 ==> Bit(rows[r], i) == Bit(was[i], r)
  }

  lemma {:induction false} PassMoves(was: seq<nat>, before: seq<nat>, rows: seq<nat>, j: nat)
    requires IsBlock(j) && |was| == |before| == |rows| == 16
    requires if j == 8 then before == was else Passed(was, before, 2 * j)
    requires forall r :: 0 <= r < 16 ==> RowDone(before, rows[r], j, r)
    ensures Passed(was, rows, j)
  {
    hide Bit, Pow2, MixAfter, MixBefore, Across, Side;
    forall r | 0 <= r < 16 ensures rows[r] < Pow2(16) { assert RowDone(before, rows[r], j, r); }
    forall r: nat, i: nat | r < 16 && i < 16
      ensures MixAfter(r, i, j) < 16 && Bit(rows[r], i) == Bit(was[MixAfter(r, i, j)], MixAfter(i, r, j))
    {
      assert RowDone(before, rows[r], j, r);
      assert RowDone(before, rows[i], j, i);
      var x, y := Across(r, i, j), Across(i, r, j);
      MixStep(r, i, j);
      MixStep(i, r, j);
      MixNext(r, i, j);
      MixNext(i, r, j);
      if j == 8 {
        MixNext(x, y, 8);
        MixNext(y, x, 8);
      } else {
        MixNext(x, y, 2 * j);
        MixNext(y, x, 2 * j);
      }
    }
  }

  lemma {:induction false} AllPassed(was: seq<nat>, rows: seq<nat>)
    requires Passed(was, rows, 1)
    ensures Transposed(was, rows)
  {
    hide Bit, Pow2, MixAfter, MixBefore;
    forall r: nat, i: nat | r < 16 && i < 16 ensures Bit(rows[r], i) == Bit(was[i], r) {
      MixNext(r, i, 1);
      MixNext(i, r, 1);
    }
  }

  lemma {:induction false} XorNibble(a: nat, b: nat, c: nat, d: nat)
    requires b < 16 && d < 16
    ensures Xor(a * 16 + b, c * 16 + d) == Xor(a, c) * 16 + Xor(b, d)
  {
    assert Pow2(4) == 16;
    hide Xor, Pow2;
    XorSplit(a, b, c, d, 4);
  }

  lemma {:induction false} SmallXors()
    ensures Xor(15, 12) == 3 && Xor(3, 6) == 5
  {
    XorSelf(3);
    assert Xor(7, 6) == 1;
    assert Xor(1, 3) == 2;
  }

  lemma {:induction false} MaskFour()
    ensures Xor(0x00ff, 0x0ff0) == 0x0f0f
  {
    hide Xor;
    XorSelf(15);
    XorZero(15);
    XorNibble(0, 15, 15, 15);
    XorNibble(15, 15, 255, 0);
  }

  lemma {:induction false} MaskTwo()
    ensures Xor(0x0f0f, 0x3c3c) == 0x3333
  {
    hide Xor;
    SmallXors();
    XorZero(3);
    XorNibble(0, 15, 3, 12);
    XorNibble(15, 0, 60, 3);
    XorNibble(240, 15, 963, 12);
  }

  lemma {:induction false} MaskOne()
    ensures Xor(0x3333, 0x6666) == 0x5555
  {
    hide Xor;
    SmallXors();
    XorNibble(3, 3, 6, 6);
    XorNibble(51, 3, 102, 6);
    XorNibble(819, 3, 1638, 6);
  }

  lemma {:induction false} MaskShifts()
    ensures Shl(0x00ff, 4) == 0x0ff0 && Shl(0x0f0f, 2) == 0x3c3c && Shl(0x3333, 1) == 0x6666
  {
    assert Pow2(1) == 2 && Pow2(2) == 4 && Pow2(4) == 16;
  }

  lemma {:induction false} NextMask(j: nat)
    requires IsBlock(j) && j > 1
    ensures Xor(MaskOf(j), Shl(MaskOf(j), j / 2)) == MaskOf(j / 2)
  {
    hide Xor, Shl;
    MaskShifts();
    MaskFour();
    MaskTwo();
    MaskOne();
  }

  /** The transposition in find_affine4_roots. */
  method Transpose(rows: array<nat>)
    requires rows.Length == 16 && forall r :: 0 <= r < 16 ==> rows[r] < Pow2(16)
    modifies rows
    ensures Transposed(old(rows[..]), rows[..])
  {
    var mask: nat, j: nat := 0xff, 8;
    assert mask == MaskOf(8);
    hide MaskOf, Pow2, RowDone, Passed, Transposed, Xor, Shl;
    ghost var was := rows[..];
    while j != 0
      invariant j == 0 || (IsBlock(j) && mask == MaskOf(j))
      invariant j == 8 ==> rows[..] == was && forall r :: 0 <= r < 16 ==> rows[r] < Pow2(16)
      invariant j != 8 ==> Passed(was, rows[..], if j == 0 then 1 else 2 * j)
    {
      ghost var before := rows[..];
      PassedSmall(was, before, j);
      Pass(rows, j, mask);
      PassMoves(was, before, rows[..], j);
      if j > 1 { NextMask(j); }
      j := j / 2;
      mask := Xor(mask, Shl(mask, j));
    }
    AllPassed(was, rows[..]);
  }

  lemma {:induction false} PassedSmall(was: seq<nat>, rows: seq<nat>, j: nat)
    requires IsBlock(j) && (j != 8 ==> Passed(was, rows, 2 * j))
    ensures j != 8 ==> |rows| == 16 && forall r :: 0 <= r < 16 ==> rows[r] < Pow2(16)
  {
  }
}
