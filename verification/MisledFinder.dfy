/** A locator on which the root finder is misled. The polynomial below, over GF(32), does not split. Euclid's
    algorithm ends with the constant 4 and returns a polynomial that does not divide it, and both this and the quotient
    happen to split: five positions are reported. The divisions are certified by their products, row by row. */
module MisledFinder {
  import opened Gf2
  import opened GaloisField
  import opened FieldLaws
  import opened FieldPoly
  import opened PowerSeries
  import opened Newton
  import opened BerlekampMassey
  import opened Locator
  import opened Chien
  import opened DegreeTwo
  import opened LowRoots
  import opened LinearSolve
  import opened RootSets
  import opened TraceMap
  import opened EuclidChain
  import opened TracePoly
  import opened TraceFactor
  import opened PolyProduct
  import opened SmallField
  import opened ErrorLocations

  lemma {:induction false} SmallAll(F: Field, s: seq<nat>)
    requires F == F32() && forall i :: 0 <= i < |s| ==> s[i] < 32
    ensures IsPoly(F, s)
  {
    forall i | 0 <= i < |s| ensures F.El(s[i]) { Small(s[i]); }
  }

  /** One step of the evaluation at x. */
  lemma {:induction false} Horner(F: Field, c0: nat, c: seq<nat>, x: nat, v: nat, m: nat, d: seq<nat>)
    requires F == F32() && F.Ok() && c0 < 32 && IsPoly(F, c) && F.El(x) && Eval(F, c, x) == v && F.El(v)
             && GfMul(F, x, v) == m
    requires d == [c0] + c
    ensures IsPoly(F, d) && Eval(F, d, x) == Xor(c0, m)
  {
    hide F.Ok, F32, GfMul, Xor, Eval;
    Small(c0);
    EvalCons(F, c0, c, x);
  }

  lemma {:induction false} ZeroSquare(F: Field)
    requires F.Ok()
    ensures F.El(0) && GfSqr(F, 0) == 0
  {
    FieldShape(F);
  }

  // the square of power 2 modulo the polynomial

  lemma {:induction false} PolyMonic(F: Field)
    requires F == F32() && F.Ok()
    ensures IsMonic(F, [1, 0, 13, 14, 15, 16], [11, 0, 16, 13, 6, 1])
  {
    hide F.Ok, F32, GfMul, Xor, DivRem, MulPoly, Powers, Logs, F.El;
    SmallAll(F, [1, 0, 13, 14, 15, 16]);
    SmallAll(F, [11, 0, 16, 13, 6, 1]);
    Product(27, 4, 0);
    Small(16);
    MulZero(F, 16);
    Product(4, 4, 8);
    Product(8, 4, 12);
    Product(19, 4, 23);
    Product(0, 4, 4);
  }

  lemma {:induction false} Reduce3Row3(F: Field)
    requires F == F32() && F.Ok()
    ensures IsPoly(F, [13]) && IsPoly(F, [11, 0, 16, 13, 6, 1])
            && MulPoly(F, [13], [11, 0, 16, 13, 6, 1]) == [16, 0, 14, 27, 11, 13]
  {
    hide F.Ok, F32, GfMul, Xor, DivRem, MulPoly, Powers, Logs, F.El;
    var mon := [11, 0, 16, 13, 6, 1];
    SmallAll(F, mon);
    SmallAll(F, [13]);
    Product(8, 27, 4);
    Small(13);
    MulZero(F, 13);
    Product(8, 4, 12);
    Product(8, 8, 16);
    Product(8, 19, 27);
    Product(8, 0, 8);
    FirstRow(F, 13, mon, [16, 0, 14, 27, 11, 13]);
  }

  lemma {:induction false} Reduce3Row2(F: Field)
    requires F == F32() && F.Ok()
    ensures IsPoly(F, [11, 13]) && IsPoly(F, [11, 0, 16, 13, 6, 1])
            && MulPoly(F, [11, 13], [11, 0, 16, 13, 6, 1]) == [15, 16, 1, 30, 4, 0, 13]
  {
    hide F.Ok, F32, GfMul, Xor, DivRem, MulPoly, Powers, Logs, F.El;
    var mon := [11, 0, 16, 13, 6, 1];
    SmallAll(F, mon);
    SmallAll(F, [11, 13]);
    Reduce3Row3(F);
    Product(27, 27, 23);
    Small(11);
    MulZero(F, 11);
    Product(27, 4, 0);
    Product(27, 8, 4);
    Product(27, 19, 15);
    Product(27, 0, 27);
    XorZero(15);
    XorZero(16);
    XorZero(1);
    Bits(1, 0, 0, 0, 0, 0, 1, 1, 1, 0, 16, 14, 30);
    Bits(1, 1, 1, 1, 1, 1, 1, 0, 1, 1, 31, 27, 4);
    Bits(0, 1, 0, 1, 1, 0, 1, 0, 1, 1, 11, 11, 0);
    XorZero(13);
    Row(F, 11, [13], mon, [15, 0, 1, 16, 31, 11], [16, 0, 14, 27, 11, 13], [15, 16, 1, 30, 4, 0, 13]);
    assert [11] + [13] == [11, 13];
  }

  lemma {:induction false} Reduce3Row1(F: Field)
    requires F == F32() && F.Ok()
    ensures IsPoly(F, [4, 11, 13]) && IsPoly(F, [11, 0, 16, 13, 6, 1])
            && MulPoly(F, [4, 11, 13], [11, 0, 16, 13, 6, 1]) == [9, 15, 26, 16, 6, 0, 0, 13]
  {
    hide F.Ok, F32, GfMul, Xor, DivRem, MulPoly, Powers, Logs, F.El;
    var mon := [11, 0, 16, 13, 6, 1];
    SmallAll(F, mon);
    SmallAll(F, [4, 11, 13]);
    Reduce3Row2(F);
    Product(2, 27, 29);
    Small(4);
    MulZero(F, 4);
    Product(2, 4, 6);
    Product(2, 8, 10);
    Product(2, 19, 21);
    Product(2, 0, 2);
    XorZero(9);
    XorZero(15);
    Bits(0, 1, 0, 1, 0, 1, 0, 0, 0, 0, 10, 16, 26);
    Bits(1, 0, 0, 0, 1, 0, 0, 0, 0, 1, 17, 1, 16);
    Bits(1, 1, 0, 0, 0, 1, 1, 1, 1, 0, 24, 30, 6);
    Bits(0, 0, 1, 0, 0, 0, 0, 1, 0, 0, 4, 4, 0);
    XorZero(0);
    XorZero(13);
    Row(F, 4, [11, 13], mon, [9, 0, 10, 17, 24, 4], [15, 16, 1, 30, 4, 0, 13], [9, 15, 26, 16, 6, 0, 0, 13]);
    assert [4] + [11, 13] == [4, 11, 13];
  }

  lemma {:induction false} Reduce3Row0(F: Field)
    requires F == F32() && F.Ok()
    ensures IsPoly(F, [6, 4, 11, 13]) && IsPoly(F, [11, 0, 16, 13, 6, 1])
            && MulPoly(F, [6, 4, 11, 13], [11, 0, 16, 13, 6, 1]) == [31, 9, 0, 17, 4, 0, 0, 0, 13]
  {
    hide F.Ok, F32, GfMul, Xor, DivRem, MulPoly, Powers, Logs, F.El;
    var mon := [11, 0, 16, 13, 6, 1];
    SmallAll(F, mon);
    SmallAll(F, [6, 4, 11, 13]);
    Reduce3Row1(F);
    Product(19, 27, 15);
    Small(6);
    MulZero(F, 6);
    Product(19, 4, 23);
    Product(19, 8, 27);
    Product(19, 19, 7);
    Product(19, 0, 19);
    XorZero(31);
    XorZero(9);
    Bits(0, 1, 1, 1, 1, 0, 1, 1, 1, 1, 15, 15, 0);
    Bits(0, 1, 0, 1, 1, 1, 1, 0, 1, 0, 11, 26, 17);
    Bits(1, 0, 1, 0, 0, 1, 0, 0, 0, 0, 20, 16, 4);
    Bits(0, 0, 1, 1, 0, 0, 0, 1, 1, 0, 6, 6, 0);
    XorZero(0);
    XorZero(13);
    Row(F, 6, [4, 11, 13], mon, [31, 0, 15, 11, 20, 6], [9, 15, 26, 16, 6, 0, 0, 13], [31, 9, 0, 17, 4, 0, 0, 0, 13]);
    assert [6] + [4, 11, 13] == [6, 4, 11, 13];
  }

  lemma {:induction false} Reduce3(F: Field)
    requires F == F32() && F.Ok()
    ensures DivRem(F, [0, 0, 0, 0, 0, 0, 0, 0, 13], [1, 0, 13, 14, 15, 16], [6, 4, 11, 13], [31, 9, 0, 17, 4])
  {
    hide F.Ok, F32, GfMul, Xor, DivRem, MulPoly, Powers, Logs, F.El;
    SmallAll(F, [0, 0, 0, 0, 0, 0, 0, 0, 13]);
    SmallAll(F, [31, 9, 0, 17, 4]);
    PolyMonic(F);
    Reduce3Row0(F);
    Bits(1, 1, 1, 1, 1, 1, 1, 1, 1, 1, 31, 31, 0);
    Bits(0, 1, 0, 0, 1, 0, 1, 0, 0, 1, 9, 9, 0);
    XorZero(0);
    Bits(1, 0, 0, 0, 1, 1, 0, 0, 0, 1, 17, 17, 0);
    Bits(0, 0, 1, 0, 0, 0, 0, 1, 0, 0, 4, 4, 0);
    XorZero(13);
    Certified(F, [0, 0, 0, 0, 0, 0, 0, 0, 13], [1, 0, 13, 14, 15, 16], [11, 0, 16, 13, 6, 1], [6, 4, 11, 13],
      [31, 9, 0, 17, 4]);
  }

  // the square of power 3 modulo the polynomial

  lemma {:induction false} Reduce4Row3(F: Field)
    requires F == F32() && F.Ok()
    ensures IsPoly(F, [16]) && IsPoly(F, [11, 0, 16, 13, 6, 1])
            && MulPoly(F, [16], [11, 0, 16, 13, 6, 1]) == [1, 0, 13, 14, 15, 16]
  {
    hide F.Ok, F32, GfMul, Xor, DivRem, MulPoly, Powers, Logs, F.El;
    var mon := [11, 0, 16, 13, 6, 1];
    SmallAll(F, mon);
    SmallAll(F, [16]);
    Product(4, 27, 0);
    Small(16);
    MulZero(F, 16);
    Product(4, 4, 8);
    Product(4, 8, 12);
    Product(4, 19, 23);
    Product(4, 0, 4);
    FirstRow(F, 16, mon, [1, 0, 13, 14, 15, 16]);
  }

  lemma {:induction false} Reduce4Row2(F: Field)
    requires F == F32() && F.Ok()
    ensures IsPoly(F, [15, 16]) && IsPoly(F, [11, 0, 16, 13, 6, 1])
            && MulPoly(F, [15, 16], [11, 0, 16, 13, 6, 1]) == [6, 1, 11, 12, 9, 0, 16]
  {
    hide F.Ok, F32, GfMul, Xor, DivRem, MulPoly, Powers, Logs, F.El;
    var mon := [11, 0, 16, 13, 6, 1];
    SmallAll(F, mon);
    SmallAll(F, [15, 16]);
    Reduce4Row3(F);
    Product(23, 27, 19);
    Small(15);
    MulZero(F, 15);
    Product(23, 4, 27);
    Product(23, 8, 0);
    Product(23, 19, 11);
    Product(23, 0, 23);
    XorZero(6);
    XorZero(1);
    XorZero(11);
    Bits(0, 0, 0, 0, 1, 0, 1, 1, 0, 1, 1, 13, 12);
    Bits(0, 0, 1, 1, 1, 0, 1, 1, 1, 0, 7, 14, 9);
    Bits(0, 1, 1, 1, 1, 0, 1, 1, 1, 1, 15, 15, 0);
    XorZero(16);
    Row(F, 15, [16], mon, [6, 0, 11, 1, 7, 15], [1, 0, 13, 14, 15, 16], [6, 1, 11, 12, 9, 0, 16]);
    assert [15] + [16] == [15, 16];
  }

  lemma {:induction false} Reduce4Row1(F: Field)
    requires F == F32() && F.Ok()
    ensures IsPoly(F, [5, 15, 16]) && IsPoly(F, [11, 0, 16, 13, 6, 1])
            && MulPoly(F, [5, 15, 16], [11, 0, 16, 13, 6, 1]) == [2, 6, 27, 23, 18, 12, 0, 16]
  {
    hide F.Ok, F32, GfMul, Xor, DivRem, MulPoly, Powers, Logs, F.El;
    var mon := [11, 0, 16, 13, 6, 1];
    SmallAll(F, mon);
    SmallAll(F, [5, 15, 16]);
    Reduce4Row2(F);
    Product(5, 27, 1);
    Small(5);
    MulZero(F, 5);
    Product(5, 4, 9);
    Product(5, 8, 13);
    Product(5, 19, 24);
    Product(5, 0, 5);
    XorZero(2);
    XorZero(6);
    Bits(1, 1, 0, 1, 0, 0, 0, 0, 0, 1, 26, 1, 27);
    Bits(1, 1, 1, 0, 0, 0, 1, 0, 1, 1, 28, 11, 23);
    Bits(1, 1, 1, 1, 0, 0, 1, 1, 0, 0, 30, 12, 18);
    Bits(0, 0, 1, 0, 1, 0, 1, 0, 0, 1, 5, 9, 12);
    XorZero(0);
    XorZero(16);
    Row(F, 5, [15, 16], mon, [2, 0, 26, 28, 30, 5], [6, 1, 11, 12, 9, 0, 16], [2, 6, 27, 23, 18, 12, 0, 16]);
    assert [5] + [15, 16] == [5, 15, 16];
  }

  lemma {:induction false} Reduce4Row0(F: Field)
    requires F == F32() && F.Ok()
    ensures IsPoly(F, [18, 5, 15, 16]) && IsPoly(F, [11, 0, 16, 13, 6, 1])
            && MulPoly(F, [18, 5, 15, 16], [11, 0, 16, 13, 6, 1]) == [23, 2, 14, 15, 20, 0, 12, 0, 16]
  {
    hide F.Ok, F32, GfMul, Xor, DivRem, MulPoly, Powers, Logs, F.El;
    var mon := [11, 0, 16, 13, 6, 1];
    SmallAll(F, mon);
    SmallAll(F, [18, 5, 15, 16]);
    Reduce4Row1(F);
    Product(30, 27, 26);
    Small(18);
    MulZero(F, 18);
    Product(30, 4, 3);
    Product(30, 8, 7);
    Product(30, 19, 18);
    Product(30, 0, 30);
    XorZero(23);
    XorZero(2);
    Bits(0, 1, 0, 0, 0, 0, 0, 1, 1, 0, 8, 6, 14);
    Bits(1, 0, 1, 0, 0, 1, 1, 0, 1, 1, 20, 27, 15);
    Bits(0, 0, 0, 1, 1, 1, 0, 1, 1, 1, 3, 23, 20);
    Bits(1, 0, 0, 1, 0, 1, 0, 0, 1, 0, 18, 18, 0);
    XorZero(12);
    XorZero(0);
    XorZero(16);
    Row(F, 18, [5, 15, 16], mon, [23, 0, 8, 20, 3, 18], [2, 6, 27, 23, 18, 12, 0, 16],
      [23, 2, 14, 15, 20, 0, 12, 0, 16]);
    assert [18] + [5, 15, 16] == [18, 5, 15, 16];
  }

  lemma {:induction false} Reduce4(F: Field)
    requires F == F32() && F.Ok()
    ensures DivRem(F, [18, 0, 11, 0, 0, 0, 12, 0, 16], [1, 0, 13, 14, 15, 16], [18, 5, 15, 16], [5, 2, 5, 15, 20])
  {
    hide F.Ok, F32, GfMul, Xor, DivRem, MulPoly, Powers, Logs, F.El;
    SmallAll(F, [18, 0, 11, 0, 0, 0, 12, 0, 16]);
    SmallAll(F, [5, 2, 5, 15, 20]);
    PolyMonic(F);
    Reduce4Row0(F);
    Bits(1, 0, 1, 1, 1, 0, 0, 1, 0, 1, 23, 5, 18);
    Bits(0, 0, 0, 1, 0, 0, 0, 0, 1, 0, 2, 2, 0);
    Bits(0, 1, 1, 1, 0, 0, 0, 1, 0, 1, 14, 5, 11);
    Bits(0, 1, 1, 1, 1, 0, 1, 1, 1, 1, 15, 15, 0);
    Bits(1, 0, 1, 0, 0, 1, 0, 1, 0, 0, 20, 20, 0);
    XorZero(0);
    XorZero(12);
    XorZero(16);
    Certified(F, [18, 0, 11, 0, 0, 0, 12, 0, 16], [1, 0, 13, 14, 15, 16], [11, 0, 16, 13, 6, 1], [18, 5, 15, 16],
      [5, 2, 5, 15, 20]);
  }

  // step 1 of Euclid's algorithm

  lemma {:induction false} FirstRemainderMonic(F: Field)
    requires F == F32() && F.Ok()
    ensures IsMonic(F, [26, 9, 1, 30], [27, 5, 20, 1])
  {
    hide F.Ok, F32, GfMul, Xor, DivRem, MulPoly, Powers, Logs, F.El;
    SmallAll(F, [26, 9, 1, 30]);
    SmallAll(F, [27, 5, 20, 1]);
    Product(16, 24, 9);
    Product(5, 24, 29);
    Product(7, 24, 0);
    Product(0, 24, 24);
  }

  lemma {:induction false} FirstRemainderRow2(F: Field)
    requires F == F32() && F.Ok()
    ensures IsPoly(F, [16]) && IsPoly(F, [27, 5, 20, 1]) && MulPoly(F, [16], [27, 5, 20, 1]) == [12, 26, 7, 16]
  {
    hide F.Ok, F32, GfMul, Xor, DivRem, MulPoly, Powers, Logs, F.El;
    var mon := [27, 5, 20, 1];
    SmallAll(F, mon);
    SmallAll(F, [16]);
    Product(4, 16, 20);
    Product(4, 5, 9);
    Product(4, 7, 11);
    Product(4, 0, 4);
    FirstRow(F, 16, mon, [12, 26, 7, 16]);
  }

  lemma {:induction false} FirstRemainderRow1(F: Field)
    requires F == F32() && F.Ok()
    ensures IsPoly(F, [8, 16]) && IsPoly(F, [27, 5, 20, 1]) && MulPoly(F, [8, 16], [27, 5, 20, 1]) == [6, 1, 11, 15, 16]
  {
    hide F.Ok, F32, GfMul, Xor, DivRem, MulPoly, Powers, Logs, F.El;
    var mon := [27, 5, 20, 1];
    SmallAll(F, mon);
    SmallAll(F, [8, 16]);
    FirstRemainderRow2(F);
    Product(3, 16, 19);
    Product(3, 5, 8);
    Product(3, 7, 10);
    Product(3, 0, 3);
    XorZero(6);
    Bits(0, 1, 1, 0, 1, 0, 1, 1, 0, 0, 13, 12, 1);
    Bits(1, 0, 0, 0, 1, 1, 1, 0, 1, 0, 17, 26, 11);
    Bits(0, 1, 0, 0, 0, 0, 0, 1, 1, 1, 8, 7, 15);
    XorZero(16);
    Row(F, 8, [16], mon, [6, 13, 17, 8], [12, 26, 7, 16], [6, 1, 11, 15, 16]);
    assert [8] + [16] == [8, 16];
  }

  lemma {:induction false} FirstRemainderRow0(F: Field)
    requires F == F32() && F.Ok()
    ensures IsPoly(F, [5, 8, 16]) && IsPoly(F, [27, 5, 20, 1])
            && MulPoly(F, [5, 8, 16], [27, 5, 20, 1]) == [24, 23, 15, 14, 15, 16]
  {
    hide F.Ok, F32, GfMul, Xor, DivRem, MulPoly, Powers, Logs, F.El;
    var mon := [27, 5, 20, 1];
    SmallAll(F, mon);
    SmallAll(F, [5, 8, 16]);
    FirstRemainderRow1(F);
    Product(5, 16, 21);
    Product(5, 5, 10);
    Product(5, 7, 12);
    Product(5, 0, 5);
    XorZero(24);
    Bits(1, 0, 0, 0, 1, 0, 0, 1, 1, 0, 17, 6, 23);
    Bits(0, 1, 1, 1, 0, 0, 0, 0, 0, 1, 14, 1, 15);
    Bits(0, 0, 1, 0, 1, 0, 1, 0, 1, 1, 5, 11, 14);
    XorZero(15);
    XorZero(16);
    Row(F, 5, [8, 16], mon, [24, 17, 14, 5], [6, 1, 11, 15, 16], [24, 23, 15, 14, 15, 16]);
    assert [5] + [8, 16] == [5, 8, 16];
  }

  lemma {:induction false} FirstRemainder(F: Field)
    requires F == F32() && F.Ok()
    ensures DivRem(F, [1, 0, 13, 14, 15, 16], [26, 9, 1, 30], [5, 8, 16], [25, 23, 2])
  {
    hide F.Ok, F32, GfMul, Xor, DivRem, MulPoly, Powers, Logs, F.El;
    SmallAll(F, [1, 0, 13, 14, 15, 16]);
    SmallAll(F, [25, 23, 2]);
    FirstRemainderMonic(F);
    FirstRemainderRow0(F);
    Bits(1, 1, 0, 0, 0, 1, 1, 0, 0, 1, 24, 25, 1);
    Bits(1, 0, 1, 1, 1, 1, 0, 1, 1, 1, 23, 23, 0);
    Bits(0, 1, 1, 1, 1, 0, 0, 0, 1, 0, 15, 2, 13);
    XorZero(14);
    XorZero(15);
    XorZero(16);
    Certified(F, [1, 0, 13, 14, 15, 16], [26, 9, 1, 30], [27, 5, 20, 1], [5, 8, 16], [25, 23, 2]);
  }

  // step 2 of Euclid's algorithm

  lemma {:induction false} SecondRemainderMonic(F: Field)
    requires F == F32() && F.Ok()
    ensures IsMonic(F, [25, 23, 2], [30, 25, 1])
  {
    hide F.Ok, F32, GfMul, Xor, DivRem, MulPoly, Powers, Logs, F.El;
    SmallAll(F, [25, 23, 2]);
    SmallAll(F, [30, 25, 1]);
    Product(24, 1, 25);
    Product(25, 1, 26);
    Product(0, 1, 1);
  }

  lemma {:induction false} SecondRemainderRow1(F: Field)
    requires F == F32() && F.Ok()
    ensures IsPoly(F, [30]) && IsPoly(F, [30, 25, 1]) && MulPoly(F, [30], [30, 25, 1]) == [19, 3, 30]
  {
    hide F.Ok, F32, GfMul, Xor, DivRem, MulPoly, Powers, Logs, F.El;
    var mon := [30, 25, 1];
    SmallAll(F, mon);
    SmallAll(F, [30]);
    Product(24, 24, 17);
    Product(24, 25, 18);
    Product(24, 0, 24);
    FirstRow(F, 30, mon, [19, 3, 30]);
  }

  lemma {:induction false} SecondRemainderRow0(F: Field)
    requires F == F32() && F.Ok()
    ensures IsPoly(F, [2, 30]) && IsPoly(F, [30, 25, 1]) && MulPoly(F, [2, 30], [30, 25, 1]) == [25, 4, 1, 30]
  {
    hide F.Ok, F32, GfMul, Xor, DivRem, MulPoly, Powers, Logs, F.El;
    var mon := [30, 25, 1];
    SmallAll(F, mon);
    SmallAll(F, [2, 30]);
    SecondRemainderRow1(F);
    Product(1, 24, 25);
    Product(1, 25, 26);
    Product(1, 0, 1);
    XorZero(25);
    Bits(1, 0, 1, 1, 1, 1, 0, 0, 1, 1, 23, 19, 4);
    Bits(0, 0, 0, 1, 0, 0, 0, 0, 1, 1, 2, 3, 1);
    XorZero(30);
    Row(F, 2, [30], mon, [25, 23, 2], [19, 3, 30], [25, 4, 1, 30]);
    assert [2] + [30] == [2, 30];
  }

  lemma {:induction false} SecondRemainder(F: Field)
    requires F == F32() && F.Ok()
    ensures DivRem(F, [26, 9, 1, 30], [25, 23, 2], [2, 30], [3, 13])
  {
    hide F.Ok, F32, GfMul, Xor, DivRem, MulPoly, Powers, Logs, F.El;
    SmallAll(F, [26, 9, 1, 30]);
    SmallAll(F, [3, 13]);
    SecondRemainderMonic(F);
    SecondRemainderRow0(F);
    Bits(1, 1, 0, 0, 1, 0, 0, 0, 1, 1, 25, 3, 26);
    Bits(0, 0, 1, 0, 0, 0, 1, 1, 0, 1, 4, 13, 9);
    XorZero(1);
    XorZero(30);
    Certified(F, [26, 9, 1, 30], [25, 23, 2], [30, 25, 1], [2, 30], [3, 13]);
  }

  // step 3 of Euclid's algorithm

  lemma {:induction false} LinearMonic(F: Field)
    requires F == F32() && F.Ok()
    ensures IsMonic(F, [3, 13], [17, 1])
  {
    hide F.Ok, F32, GfMul, Xor, DivRem, MulPoly, Powers, Logs, F.El;
    SmallAll(F, [3, 13]);
    SmallAll(F, [17, 1]);
    Product(10, 8, 18);
    Product(0, 8, 8);
  }

  lemma {:induction false} ThirdRemainderRow1(F: Field)
    requires F == F32() && F.Ok()
    ensures IsPoly(F, [2]) && IsPoly(F, [17, 1]) && MulPoly(F, [2], [17, 1]) == [7, 2]
  {
    hide F.Ok, F32, GfMul, Xor, DivRem, MulPoly, Powers, Logs, F.El;
    var mon := [17, 1];
    SmallAll(F, mon);
    SmallAll(F, [2]);
    Product(1, 10, 11);
    Product(1, 0, 1);
    FirstRow(F, 2, mon, [7, 2]);
  }

  lemma {:induction false} ThirdRemainderRow0(F: Field)
    requires F == F32() && F.Ok()
    ensures IsPoly(F, [16, 2]) && IsPoly(F, [17, 1]) && MulPoly(F, [16, 2], [17, 1]) == [29, 23, 2]
  {
    hide F.Ok, F32, GfMul, Xor, DivRem, MulPoly, Powers, Logs, F.El;
    var mon := [17, 1];
    SmallAll(F, mon);
    SmallAll(F, [16, 2]);
    ThirdRemainderRow1(F);
    Product(4, 10, 14);
    Product(4, 0, 4);
    XorZero(29);
    Bits(1, 0, 0, 0, 0, 0, 0, 1, 1, 1, 16, 7, 23);
    XorZero(2);
    Row(F, 16, [2], mon, [29, 16], [7, 2], [29, 23, 2]);
    assert [16] + [2] == [16, 2];
  }

  lemma {:induction false} ThirdRemainder(F: Field)
    requires F == F32() && F.Ok()
    ensures DivRem(F, [25, 23, 2], [3, 13], [16, 2], [4])
  {
    hide F.Ok, F32, GfMul, Xor, DivRem, MulPoly, Powers, Logs, F.El;
    SmallAll(F, [25, 23, 2]);
    SmallAll(F, [4]);
    LinearMonic(F);
    ThirdRemainderRow0(F);
    Bits(1, 1, 1, 0, 1, 0, 0, 1, 0, 0, 29, 4, 25);
    XorZero(23);
    XorZero(2);
    Certified(F, [25, 23, 2], [3, 13], [17, 1], [16, 2], [4]);
  }

  // the polynomial divided by what the algorithm returns

  lemma {:induction false} QuotientRow4(F: Field)
    requires F == F32() && F.Ok()
    ensures IsPoly(F, [16]) && IsPoly(F, [17, 1]) && MulPoly(F, [16], [17, 1]) == [29, 16]
  {
    hide F.Ok, F32, GfMul, Xor, DivRem, MulPoly, Powers, Logs, F.El;
    var mon := [17, 1];
    SmallAll(F, mon);
    SmallAll(F, [16]);
    Product(4, 10, 14);
    Product(4, 0, 4);
    FirstRow(F, 16, mon, [29, 16]);
  }

  lemma {:induction false} QuotientRow3(F: Field)
    requires F == F32() && F.Ok()
    ensures IsPoly(F, [18, 16]) && IsPoly(F, [17, 1]) && MulPoly(F, [18, 16], [17, 1]) == [26, 15, 16]
  {
    hide F.Ok, F32, GfMul, Xor, DivRem, MulPoly, Powers, Logs, F.El;
    var mon := [17, 1];
    SmallAll(F, mon);
    SmallAll(F, [18, 16]);
    QuotientRow4(F);
    Product(30, 10, 9);
    Product(30, 0, 30);
    XorZero(26);
    Bits(1, 0, 0, 1, 0, 1, 1, 1, 0, 1, 18, 29, 15);
    XorZero(16);
    Row(F, 18, [16], mon, [26, 18], [29, 16], [26, 15, 16]);
    assert [18] + [16] == [18, 16];
  }

  lemma {:induction false} QuotientRow2(F: Field)
    requires F == F32() && F.Ok()
    ensures IsPoly(F, [20, 18, 16]) && IsPoly(F, [17, 1]) && MulPoly(F, [20, 18, 16], [17, 1]) == [19, 14, 15, 16]
  {
    hide F.Ok, F32, GfMul, Xor, DivRem, MulPoly, Powers, Logs, F.El;
    var mon := [17, 1];
    SmallAll(F, mon);
    SmallAll(F, [20, 18, 16]);
    QuotientRow3(F);
    Product(7, 10, 17);
    Product(7, 0, 7);
    XorZero(19);
    Bits(1, 0, 1, 0, 0, 1, 1, 0, 1, 0, 20, 26, 14);
    XorZero(15);
    XorZero(16);
    Row(F, 20, [18, 16], mon, [19, 20], [26, 15, 16], [19, 14, 15, 16]);
    assert [20] + [18, 16] == [20, 18, 16];
  }

  lemma {:induction false} QuotientRow1(F: Field)
    requires F == F32() && F.Ok()
    ensures IsPoly(F, [30, 20, 18, 16]) && IsPoly(F, [17, 1])
            && MulPoly(F, [30, 20, 18, 16], [17, 1]) == [8, 13, 14, 15, 16]
  {
    hide F.Ok, F32, GfMul, Xor, DivRem, MulPoly, Powers, Logs, F.El;
    var mon := [17, 1];
    SmallAll(F, mon);
    SmallAll(F, [30, 20, 18, 16]);
    QuotientRow2(F);
    Product(24, 10, 3);
    Product(24, 0, 24);
    XorZero(8);
    Bits(1, 1, 1, 1, 0, 1, 0, 0, 1, 1, 30, 19, 13);
    XorZero(14);
    XorZero(15);
    XorZero(16);
    Row(F, 30, [20, 18, 16], mon, [8, 30], [19, 14, 15, 16], [8, 13, 14, 15, 16]);
    assert [30] + [20, 18, 16] == [30, 20, 18, 16];
  }

  lemma {:induction false} QuotientRow0(F: Field)
    requires F == F32() && F.Ok()
    ensures IsPoly(F, [8, 30, 20, 18, 16]) && IsPoly(F, [17, 1])
            && MulPoly(F, [8, 30, 20, 18, 16], [17, 1]) == [28, 0, 13, 14, 15, 16]
  {
    hide F.Ok, F32, GfMul, Xor, DivRem, MulPoly, Powers, Logs, F.El;
    var mon := [17, 1];
    SmallAll(F, mon);
    SmallAll(F, [8, 30, 20, 18, 16]);
    QuotientRow1(F);
    Product(3, 10, 13);
    Product(3, 0, 3);
    XorZero(28);
    Bits(0, 1, 0, 0, 0, 0, 1, 0, 0, 0, 8, 8, 0);
    XorZero(13);
    XorZero(14);
    XorZero(15);
    XorZero(16);
    Row(F, 8, [30, 20, 18, 16], mon, [28, 8], [8, 13, 14, 15, 16], [28, 0, 13, 14, 15, 16]);
    assert [8] + [30, 20, 18, 16] == [8, 30, 20, 18, 16];
  }

  lemma {:induction false} Quotient(F: Field)
    requires F == F32() && F.Ok()
    ensures DivRem(F, [1, 0, 13, 14, 15, 16], [3, 13], [8, 30, 20, 18, 16], [29])
  {
    hide F.Ok, F32, GfMul, Xor, DivRem, MulPoly, Powers, Logs, F.El;
    SmallAll(F, [1, 0, 13, 14, 15, 16]);
    SmallAll(F, [29]);
    LinearMonic(F);
    QuotientRow0(F);
    Bits(1, 1, 1, 0, 0, 1, 1, 1, 0, 1, 28, 29, 1);
    XorZero(0);
    XorZero(13);
    XorZero(14);
    XorZero(15);
    XorZero(16);
    Certified(F, [1, 0, 13, 14, 15, 16], [3, 13], [17, 1], [8, 30, 20, 18, 16], [29]);
  }

  // ----- the steps

  function Steps(): seq<seq<nat>> {
    [[0, 2], [0, 0, 4], [0, 0, 0, 0, 16], [31, 9, 0, 17, 4], [5, 2, 5, 15, 20]]
  }

  function Chain(): seq<seq<nat>> {
    [[1, 0, 13, 14, 15, 16], [26, 9, 1, 30], [25, 23, 2], [3, 13], [4]]
  }

  function Poly(): seq<nat> { [1, 0, 13, 14, 15, 16] }

  lemma {:induction false} Square0(F: Field)
    requires F == F32() && F.Ok()
    ensures IsPoly(F, [0, 2]) && SquareOf(F, [0, 2]) == [0, 0, 4]
  {
    hide F.Ok, F32, GfMul, GfSqr, Xor, Powers, Logs, F.El;
    SmallAll(F, [0, 2]);
    Square(1, 2);
    ZeroSquare(F);
    var s := SquareOf(F, [0, 2]);
    assert s == [0, 0, 4];
  }

  lemma {:induction false} Square1(F: Field)
    requires F == F32() && F.Ok()
    ensures IsPoly(F, [0, 0, 4]) && SquareOf(F, [0, 0, 4]) == [0, 0, 0, 0, 16]
  {
    hide F.Ok, F32, GfMul, GfSqr, Xor, Powers, Logs, F.El;
    SmallAll(F, [0, 0, 4]);
    Square(2, 4);
    ZeroSquare(F);
    var s := SquareOf(F, [0, 0, 4]);
    assert s == [0, 0, 0, 0, 16];
  }

  lemma {:induction false} Square2(F: Field)
    requires F == F32() && F.Ok()
    ensures IsPoly(F, [0, 0, 0, 0, 16]) && SquareOf(F, [0, 0, 0, 0, 16]) == [0, 0, 0, 0, 0, 0, 0, 0, 13]
  {
    hide F.Ok, F32, GfMul, GfSqr, Xor, Powers, Logs, F.El;
    SmallAll(F, [0, 0, 0, 0, 16]);
    Square(4, 8);
    ZeroSquare(F);
    var s := SquareOf(F, [0, 0, 0, 0, 16]);
    assert s == [0, 0, 0, 0, 0, 0, 0, 0, 13];
  }

  lemma {:induction false} Square3(F: Field)
    requires F == F32() && F.Ok()
    ensures IsPoly(F, [31, 9, 0, 17, 4]) && SquareOf(F, [31, 9, 0, 17, 4]) == [18, 0, 11, 0, 0, 0, 12, 0, 16]
  {
    hide F.Ok, F32, GfMul, GfSqr, Xor, Powers, Logs, F.El;
    SmallAll(F, [31, 9, 0, 17, 4]);
    Square(2, 4);
    Square(29, 27);
    Square(10, 20);
    Square(15, 30);
    ZeroSquare(F);
    var s := SquareOf(F, [31, 9, 0, 17, 4]);
    assert s == [18, 0, 11, 0, 0, 0, 12, 0, 16];
  }

  lemma {:induction false} Sum1(F: Field)
    requires F == F32() && F.Ok()
    ensures Total(Steps(), 1, 6) == [0, 2, 0, 0, 0, 0]
  {
    hide F.Ok, F32, GfMul, GfSqr, Xor, Powers, Logs, F.El, Total;
    var zs := Steps();
    XorZero(0);
    XorZero(2);
    TotalStep(zs, 0, 6);
    assert Total(zs, 0, 6) == [0, 0, 0, 0, 0, 0];
    var s := XorSeq(Total(zs, 0, 6), Padded(zs[0], 6));
    assert s == [0, 2, 0, 0, 0, 0];
  }

  lemma {:induction false} Sum2(F: Field)
    requires F == F32() && F.Ok()
    ensures Total(Steps(), 2, 6) == [0, 2, 4, 0, 0, 0]
  {
    hide F.Ok, F32, GfMul, GfSqr, Xor, Powers, Logs, F.El, Total;
    Sum1(F);
    var zs := Steps();
    XorZero(0);
    XorZero(2);
    XorZero(4);
    TotalStep(zs, 1, 6);
    assert Total(zs, 1, 6) == [0, 2, 0, 0, 0, 0];
    var s := XorSeq(Total(zs, 1, 6), Padded(zs[1], 6));
    assert s == [0, 2, 4, 0, 0, 0];
  }

  lemma {:induction false} Sum3(F: Field)
    requires F == F32() && F.Ok()
    ensures Total(Steps(), 3, 6) == [0, 2, 4, 0, 16, 0]
  {
    hide F.Ok, F32, GfMul, GfSqr, Xor, Powers, Logs, F.El, Total;
    Sum2(F);
    var zs := Steps();
    XorZero(0);
    XorZero(2);
    XorZero(4);
    XorZero(16);
    TotalStep(zs, 2, 6);
    assert Total(zs, 2, 6) == [0, 2, 4, 0, 0, 0];
    var s := XorSeq(Total(zs, 2, 6), Padded(zs[2], 6));
    assert s == [0, 2, 4, 0, 16, 0];
  }

  lemma {:induction false} Sum4(F: Field)
    requires F == F32() && F.Ok()
    ensures Total(Steps(), 4, 6) == [31, 11, 4, 17, 20, 0]
  {
    hide F.Ok, F32, GfMul, GfSqr, Xor, Powers, Logs, F.El, Total;
    Sum3(F);
    var zs := Steps();
    XorZero(31);
    Bits(0, 0, 0, 1, 0, 0, 1, 0, 0, 1, 2, 9, 11);
    XorZero(4);
    XorZero(17);
    Bits(1, 0, 0, 0, 0, 0, 0, 1, 0, 0, 16, 4, 20);
    XorZero(0);
    TotalStep(zs, 3, 6);
    assert Total(zs, 3, 6) == [0, 2, 4, 0, 16, 0];
    var s := XorSeq(Total(zs, 3, 6), Padded(zs[3], 6));
    assert s == [31, 11, 4, 17, 20, 0];
  }

  lemma {:induction false} Sum5(F: Field)
    requires F == F32() && F.Ok()
    ensures Total(Steps(), 5, 6) == [26, 9, 1, 30, 0, 0]
  {
    hide F.Ok, F32, GfMul, GfSqr, Xor, Powers, Logs, F.El, Total;
    Sum4(F);
    var zs := Steps();
    Bits(1, 1, 1, 1, 1, 0, 0, 1, 0, 1, 31, 5, 26);
    Bits(0, 1, 0, 1, 1, 0, 0, 0, 1, 0, 11, 2, 9);
    Bits(0, 0, 1, 0, 0, 0, 0, 1, 0, 1, 4, 5, 1);
    Bits(1, 0, 0, 0, 1, 0, 1, 1, 1, 1, 17, 15, 30);
    Bits(1, 0, 1, 0, 0, 1, 0, 1, 0, 0, 20, 20, 0);
    XorZero(0);
    TotalStep(zs, 4, 6);
    assert Total(zs, 4, 6) == [31, 11, 4, 17, 20, 0];
    var s := XorSeq(Total(zs, 4, 6), Padded(zs[4], 6));
    assert s == [26, 9, 1, 30, 0, 0];
  }

  lemma {:induction false} RootOfDivisor(F: Field)
    requires F == F32() && F.Ok()
    ensures IsPoly(F, [3, 13]) && RootOf(F, [3, 13], 17)
  {
    hide F.Ok, F32, GfMul, GfSqr, Xor, Powers, Logs, F.El, Eval;
    Small(17);
    SmallAll(F, [13]);
    ConstantValue(F, [13], 17);
    Product(10, 8, 18);
    Bits(0, 0, 0, 1, 1, 0, 0, 0, 1, 1, 3, 3, 0);
    Horner(F, 3, [13], 17, 13, 3, [3, 13]);
  }

  lemma {:induction false} Root1(F: Field)
    requires F == F32() && F.Ok()
    ensures IsPoly(F, [8, 30, 20, 18, 16]) && RootOf(F, [8, 30, 20, 18, 16], 1)
  {
    hide F.Ok, F32, GfMul, GfSqr, Xor, Powers, Logs, F.El, Eval;
    Small(1);
    SmallAll(F, [16]);
    ConstantValue(F, [16], 1);
    Product(0, 4, 4);
    Bits(1, 0, 0, 1, 0, 1, 0, 0, 0, 0, 18, 16, 2);
    Horner(F, 18, [16], 1, 16, 16, [18, 16]);
    Product(0, 1, 1);
    Bits(1, 0, 1, 0, 0, 0, 0, 0, 1, 0, 20, 2, 22);
    Horner(F, 20, [18, 16], 1, 2, 2, [20, 18, 16]);
    Product(0, 28, 28);
    Bits(1, 1, 1, 1, 0, 1, 0, 1, 1, 0, 30, 22, 8);
    Horner(F, 30, [20, 18, 16], 1, 22, 22, [30, 20, 18, 16]);
    Product(0, 3, 3);
    Bits(0, 1, 0, 0, 0, 0, 1, 0, 0, 0, 8, 8, 0);
    Horner(F, 8, [30, 20, 18, 16], 1, 8, 8, [8, 30, 20, 18, 16]);
  }

  lemma {:induction false} Root7(F: Field)
    requires F == F32() && F.Ok()
    ensures IsPoly(F, [8, 30, 20, 18, 16]) && RootOf(F, [8, 30, 20, 18, 16], 7)
  {
    hide F.Ok, F32, GfMul, GfSqr, Xor, Powers, Logs, F.El, Eval;
    Small(7);
    SmallAll(F, [16]);
    ConstantValue(F, [16], 7);
    Product(11, 4, 15);
    Bits(1, 0, 0, 1, 0, 1, 1, 1, 1, 1, 18, 31, 13);
    Horner(F, 18, [16], 7, 16, 31, [18, 16]);
    Product(11, 8, 19);
    Bits(1, 0, 1, 0, 0, 0, 0, 1, 1, 0, 20, 6, 18);
    Horner(F, 20, [18, 16], 7, 13, 6, [20, 18, 16]);
    Product(11, 30, 10);
    Bits(1, 1, 1, 1, 0, 1, 0, 0, 0, 1, 30, 17, 15);
    Horner(F, 30, [20, 18, 16], 7, 18, 17, [30, 20, 18, 16]);
    Product(11, 23, 3);
    Bits(0, 1, 0, 0, 0, 0, 1, 0, 0, 0, 8, 8, 0);
    Horner(F, 8, [30, 20, 18, 16], 7, 15, 8, [8, 30, 20, 18, 16]);
  }

  lemma {:induction false} Root9(F: Field)
    requires F == F32() && F.Ok()
    ensures IsPoly(F, [8, 30, 20, 18, 16]) && RootOf(F, [8, 30, 20, 18, 16], 9)
  {
    hide F.Ok, F32, GfMul, GfSqr, Xor, Powers, Logs, F.El, Eval;
    Small(9);
    SmallAll(F, [16]);
    ConstantValue(F, [16], 9);
    Product(29, 4, 2);
    Bits(1, 0, 0, 1, 0, 0, 0, 1, 0, 0, 18, 4, 22);
    Horner(F, 18, [16], 9, 16, 4, [18, 16]);
    Product(29, 28, 26);
    Bits(1, 0, 1, 0, 0, 1, 0, 1, 1, 1, 20, 23, 3);
    Horner(F, 20, [18, 16], 9, 22, 23, [20, 18, 16]);
    Product(29, 18, 16);
    Bits(1, 1, 1, 1, 0, 1, 1, 0, 1, 1, 30, 27, 5);
    Horner(F, 30, [20, 18, 16], 9, 3, 27, [30, 20, 18, 16]);
    Product(29, 5, 3);
    Bits(0, 1, 0, 0, 0, 0, 1, 0, 0, 0, 8, 8, 0);
    Horner(F, 8, [30, 20, 18, 16], 9, 5, 8, [8, 30, 20, 18, 16]);
  }

  lemma {:induction false} Root24(F: Field)
    requires F == F32() && F.Ok()
    ensures IsPoly(F, [8, 30, 20, 18, 16]) && RootOf(F, [8, 30, 20, 18, 16], 24)
  {
    hide F.Ok, F32, GfMul, GfSqr, Xor, Powers, Logs, F.El, Eval;
    Small(24);
    SmallAll(F, [16]);
    ConstantValue(F, [16], 24);
    Product(21, 4, 25);
    Bits(1, 0, 0, 1, 0, 1, 1, 0, 0, 1, 18, 25, 11);
    Horner(F, 18, [16], 24, 16, 25, [18, 16]);
    Product(21, 27, 17);
    Bits(1, 0, 1, 0, 0, 1, 0, 0, 1, 1, 20, 19, 7);
    Horner(F, 20, [18, 16], 24, 11, 19, [20, 18, 16]);
    Product(21, 11, 1);
    Bits(1, 1, 1, 1, 0, 0, 0, 0, 1, 0, 30, 2, 28);
    Horner(F, 30, [20, 18, 16], 24, 7, 2, [30, 20, 18, 16]);
    Product(21, 13, 3);
    Bits(0, 1, 0, 0, 0, 0, 1, 0, 0, 0, 8, 8, 0);
    Horner(F, 8, [30, 20, 18, 16], 24, 28, 8, [8, 30, 20, 18, 16]);
  }

  // ----- put together

  lemma {:induction false} StepsPolys(F: Field)
    requires F == F32()
    ensures |Steps()| == 5 && forall i :: 0 <= i < 5 ==> Trimmed(F, Steps()[i]) && |Steps()[i]| < 6
  {
    hide F.El, F32;
    var zs := Steps();
    SmallAll(F, zs[0]);
    SmallAll(F, zs[1]);
    SmallAll(F, zs[2]);
    SmallAll(F, zs[3]);
    SmallAll(F, zs[4]);
  }

  lemma {:induction false} StepsArePowers(F: Field)
    requires F == F32() && F.Ok()
    ensures IsPowers(F, 1, Poly(), Steps())
  {
    hide F.Ok, F32, GfMul, GfSqr, Xor, Powers, Logs, DivRem, SquareOf, A, F.El, Trimmed;
    StepsPolys(F);
    var zs, f := Steps(), Poly();
    Value(1);
    PowIs(1);
    Square0(F);
    Square1(F);
    Square2(F);
    Square3(F);
    Reduce3(F);
    Reduce4(F);
    assert NextPower(F, f, zs, 0);
    assert NextPower(F, f, zs, 1);
    assert HasRem(F, [0, 0, 0, 0, 0, 0, 0, 0, 13], f, zs[3]);
    assert NextPower(F, f, zs, 2);
    assert HasRem(F, [18, 0, 11, 0, 0, 0, 12, 0, 16], f, zs[4]);
    assert NextPower(F, f, zs, 3);
    forall i: nat | i < |zs| - 1 ensures NextPower(F, f, zs, i) { }
  }

  lemma {:induction false} TraceIs(F: Field)
    requires F == F32() && F.Ok()
    ensures IsTrace(F, 1, Poly(), Steps(), [26, 9, 1, 30])
  {
    hide F.Ok, F32, Total, IsPowers, F.El;
    StepsArePowers(F);
    Sum5(F);
    SmallAll(F, [26, 9, 1, 30]);
    StepsPolys(F);
    Sizes32(F);
    assert Padded([26, 9, 1, 30], 6) == [26, 9, 1, 30, 0, 0];
  }

  lemma {:induction false} Sizes32(F: Field)
    requires F == F32()
    ensures F.m == 5 && F.N() == 31
  {
    Sizes();
  }

  lemma {:induction false} ChainIs(F: Field)
    requires F == F32() && F.Ok()
    ensures IsChain(F, Chain())
  {
    hide F.Ok, F32, DivRem, F.El;
    var s := Chain();
    SmallAll(F, s[0]);
    SmallAll(F, s[1]);
    SmallAll(F, s[2]);
    SmallAll(F, s[3]);
    SmallAll(F, s[4]);
    FirstRemainder(F);
    SecondRemainder(F);
    ThirdRemainder(F);
    assert HasRem(F, s[0], s[1], s[2]);
    assert HasRem(F, s[1], s[2], s[3]);
    assert HasRem(F, s[2], s[3], s[4]);
    assert IsRem(F, s, 0) && IsRem(F, s, 1) && IsRem(F, s, 2);
  }

  function Factors(): Factoring {
    Parts(Steps(), Chain(), [8, 30, 20, 18, 16], [29], Leaf, Leaf)
  }

  /** These are the steps of the root finder on the polynomial. */
  lemma {:induction false} FactorsFit(F: Field)
    requires F == F32() && F.Ok()
    ensures Fits(F, 1, Poly(), Factors())
  {
    hide F.Ok, F32, DivRem, IsChain, IsTrace;
    Sizes32(F);
    ChainIs(F);
    TraceIs(F);
    Quotient(F);
  }

  lemma {:induction false} PositionIs(F: Field, i: nat)
    requires F == F32() && F.Ok() && 0 < i < 31
    ensures F.El(Pow(i)) && Pow(i) != 0 && Position(F, Pow(i)) == 31 - i
  {
    hide F.Ok, Powers, Logs, Pow, A;
    PowIs(i);
    Small(Pow(i));
    Sizes32(F);
    LogTable(i);
  }

  lemma {:induction false} DivisorBelow(F: Field)
    requires F == F32() && F.Ok()
    ensures IsPoly(F, [3, 13]) && SplitsBelow(F, [3, 13], 1, 28)
  {
    hide F.Ok, F32, RootOf, IsRoot, Position, F.El;
    RootOfDivisor(F);
    var xs := [17];
    SplitsPositions(F, [3, 13], xs);
    PositionIs(F, 10);
    var ps := PositionsOf(F, xs);
    assert AllRoots(F, [3, 13], 1, 28, ps);
  }

  lemma {:induction false} QuotientBelow(F: Field)
    requires F == F32() && F.Ok()
    ensures IsPoly(F, [8, 30, 20, 18, 16]) && SplitsBelow(F, [8, 30, 20, 18, 16], 4, 28)
  {
    hide F.Ok, F32, RootOf, IsRoot, Position, F.El;
    Root7(F);
    Root9(F);
    Root24(F);
    Root1(F);
    var xs := [1, 7, 9, 24];
    SplitsPositions(F, [8, 30, 20, 18, 16], xs);
    FirstPosition(F);
    PositionIs(F, 11);
    PositionIs(F, 29);
    PositionIs(F, 21);
    var ps := PositionsOf(F, xs);
    assert AllRoots(F, [8, 30, 20, 18, 16], 4, 28, ps);
  }

  lemma {:induction false} FirstPosition(F: Field)
    requires F == F32() && F.Ok()
    ensures F.El(1) && Position(F, 1) == 0
  {
    hide F.Ok, Powers, Logs, Pow, A;
    TableSizes();
    Small(1);
    Sizes32(F);
    LogTable(0);
  }

  /** The finder reports five positions below 28, the bits of a message of one byte, for a polynomial that does not
      split, because it divides with a remainder. */
  lemma {:induction false} FiveFalseRoots(F: Field)
    requires F == F32() && F.Ok()
    ensures Trimmed(F, Poly()) && |Poly()| == 6 && !Splits(F, Poly(), 5)
    ensures Fits(F, 1, Poly(), Factors()) && AllBelow(F, Poly(), Factors(), 28) && !Divided(Factors())
  {
    hide F.Ok, F32, Fits, AllBelow, AllSolved, Splits, F.El;
    SmallAll(F, Poly());
    FactorsFit(F);
    BothBelow(F);
    Sizes32(F);
    SplitsIffExact(F, Poly(), Factors());
  }

  lemma {:induction false} BothBelow(F: Field)
    requires F == F32() && F.Ok()
    ensures AllBelow(F, Poly(), Factors(), 28)
  {
    hide F.Ok, F32, SplitsBelow, F.El;
    DivisorBelow(F);
    QuotientBelow(F);
  }

  // ----- syndromes with this locator

  function ExampleSyndromes(): seq<nat> { [0, 0, 14, 0, 28, 30, 8, 0, 7, 23] }

  lemma {:induction false} SyndromeSeries(F: Field)
    requires F == F32() && F.Ok()
    ensures IsPoly(F, ExampleSyndromes()) && IsSer(F, SynSer(ExampleSyndromes())) && SynSer(ExampleSyndromes())(0) == 1
    ensures forall i: nat :: 0 < i <= 10 ==> SynSer(ExampleSyndromes())(i) == ExampleSyndromes()[i - 1]
  {
    hide F.Ok, F32, F.El;
    SmallAll(F, ExampleSyndromes());
    SynSerIsSer(F, ExampleSyndromes());
  }

  /** The last product of a coefficient: a constant, or the coefficient of degree 0. */
  lemma {:induction false} LastTerm(F: Field, c: seq<nat>, k: nat, m: nat)
    requires F == F32() && F.Ok() && |c| >= 1 && (forall i :: 0 <= i < |c| ==> c[i] < 32) && (k == 0 || |c| == 1)
    requires IsSer(F, SynSer(ExampleSyndromes())) && F.El(c[0]) ==> GfMul(F, c[0], SynSer(ExampleSyndromes())(k)) == m
    ensures IsSer(F, SynSer(ExampleSyndromes())) && IsSer(F, Ser1(c))
    ensures Conv(F, Ser1(c), SynSer(ExampleSyndromes()), k) == m
  {
    hide F.Ok, F32, GfMul, Xor, F.El, Conv, Ser1, SynSer;
    SyndromeSeries(F);
    SmallAll(F, c);
    SerAtIs(F, c);
    var u := SynSer(ExampleSyndromes());
    ConvStep(F, Ser1(c), u, k);
    if k > 0 {
      forall i: nat | i <= k - 1 ensures Tail(Ser1(c))(i) == 0 { TailAt(Ser1(c), i); }
      ConvZero(F, Tail(Ser1(c)), u, k - 1);
      XorZero(m);
    }
  }

  lemma {:induction false} MoreTerms(F: Field, c0: nat, c: seq<nat>, k: nat, v: nat, m: nat, d: seq<nat>)
    requires F == F32() && F.Ok() && |c| >= 1 && c0 < 32 && (forall i :: 0 <= i < |c| ==> c[i] < 32) && k > 0
               && d == [c0] + c
    requires IsSer(F, SynSer(ExampleSyndromes())) && IsSer(F, Ser1(c))
    requires Conv(F, Ser1(c), SynSer(ExampleSyndromes()), k - 1) == v
    requires F.El(c0) ==> GfMul(F, c0, SynSer(ExampleSyndromes())(k)) == m
    ensures IsSer(F, Ser1(d)) && Conv(F, Ser1(d), SynSer(ExampleSyndromes()), k) == Xor(m, v)
  {
    hide F.Ok, F32, GfMul, Xor, F.El, Conv, Ser1, SynSer;
    var u := SynSer(ExampleSyndromes());
    Small(c0);
    SmallAll(F, c);
    SmallAll(F, d);
    SerAtIs(F, c);
    SerAtIs(F, d);
    ConvStep(F, Ser1(d), u, k);
    TailIsSer(F, Ser1(d));
    forall i: nat | i <= k - 1 ensures Tail(Ser1(d))(i) == Ser1(c)(i) { TailAt(Ser1(d), i); }
    ConvCong(F, Tail(Ser1(d)), Ser1(c), u, u, k - 1);
  }

  lemma {:induction false} Identity1(F: Field)
    requires F == F32() && F.Ok()
    ensures IsSer(F, SynSer(ExampleSyndromes())) && IsSer(F, Ser1([1, 0, 13, 14, 15, 16]))
            && Conv(F, Ser1([1, 0, 13, 14, 15, 16]), SynSer(ExampleSyndromes()), 1) == 0
  {
    hide F.Ok, F32, GfMul, Xor, Powers, Logs, F.El, Conv, Ser1, SynSer;
    var u := SynSer(ExampleSyndromes());
    SyndromeSeries(F);
    Small(1);
    MulZero(F, 1);
    LastTerm(F, [0, 13, 14, 15, 16], 0, 0);
    Small(1);
    MulZero(F, 1);
    XorZero(0);
    MoreTerms(F, 1, [0, 13, 14, 15, 16], 1, 0, 0, [1, 0, 13, 14, 15, 16]);
  }

  lemma {:induction false} Identity3(F: Field)
    requires F == F32() && F.Ok()
    ensures IsSer(F, SynSer(ExampleSyndromes())) && IsSer(F, Ser1([1, 0, 13, 14, 15, 16]))
            && Conv(F, Ser1([1, 0, 13, 14, 15, 16]), SynSer(ExampleSyndromes()), 3) == 0
  {
    hide F.Ok, F32, GfMul, Xor, Powers, Logs, F.El, Conv, Ser1, SynSer;
    var u := SynSer(ExampleSyndromes());
    SyndromeSeries(F);
    Product(12, 0, 12);
    LastTerm(F, [14, 15, 16], 0, 14);
    Small(13);
    MulZero(F, 13);
    XorZero(14);
    MoreTerms(F, 13, [14, 15, 16], 1, 14, 0, [13, 14, 15, 16]);
    Small(0);
    MulZero(F, 0);
    XorZero(14);
    MoreTerms(F, 0, [13, 14, 15, 16], 2, 14, 0, [0, 13, 14, 15, 16]);
    Product(0, 12, 12);
    Bits(0, 1, 1, 1, 0, 0, 1, 1, 1, 0, 14, 14, 0);
    MoreTerms(F, 1, [0, 13, 14, 15, 16], 3, 14, 14, [1, 0, 13, 14, 15, 16]);
  }

  lemma {:induction false} Identity5(F: Field)
    requires F == F32() && F.Ok()
    ensures IsSer(F, SynSer(ExampleSyndromes())) && IsSer(F, Ser1([1, 0, 13, 14, 15, 16]))
            && Conv(F, Ser1([1, 0, 13, 14, 15, 16]), SynSer(ExampleSyndromes()), 5) == 0
  {
    hide F.Ok, F32, GfMul, Xor, Powers, Logs, F.El, Conv, Ser1, SynSer;
    var u := SynSer(ExampleSyndromes());
    SyndromeSeries(F);
    Product(4, 0, 4);
    LastTerm(F, [16], 0, 16);
    Small(15);
    MulZero(F, 15);
    XorZero(16);
    MoreTerms(F, 15, [16], 1, 16, 0, [15, 16]);
    Small(14);
    MulZero(F, 14);
    XorZero(16);
    MoreTerms(F, 14, [15, 16], 2, 16, 0, [14, 15, 16]);
    Product(8, 12, 20);
    Bits(0, 1, 1, 0, 0, 1, 0, 0, 0, 0, 12, 16, 28);
    MoreTerms(F, 13, [14, 15, 16], 3, 16, 12, [13, 14, 15, 16]);
    Small(0);
    MulZero(F, 0);
    XorZero(28);
    MoreTerms(F, 0, [13, 14, 15, 16], 4, 28, 0, [0, 13, 14, 15, 16]);
    Product(0, 13, 13);
    Bits(1, 1, 1, 0, 0, 1, 1, 1, 0, 0, 28, 28, 0);
    MoreTerms(F, 1, [0, 13, 14, 15, 16], 5, 28, 28, [1, 0, 13, 14, 15, 16]);
  }

  lemma {:induction false} Identity7(F: Field)
    requires F == F32() && F.Ok()
    ensures IsSer(F, SynSer(ExampleSyndromes())) && IsSer(F, Ser1([1, 0, 13, 14, 15, 16]))
            && Conv(F, Ser1([1, 0, 13, 14, 15, 16]), SynSer(ExampleSyndromes()), 7) == 0
  {
    hide F.Ok, F32, GfMul, Xor, Powers, Logs, F.El, Conv, Ser1, SynSer;
    var u := SynSer(ExampleSyndromes());
    SyndromeSeries(F);
    Small(16);
    MulZero(F, 16);
    LastTerm(F, [16], 2, 0);
    Product(23, 12, 4);
    XorZero(16);
    MoreTerms(F, 15, [16], 3, 0, 16, [15, 16]);
    Small(14);
    MulZero(F, 14);
    XorZero(16);
    MoreTerms(F, 14, [15, 16], 4, 16, 0, [14, 15, 16]);
    Product(8, 13, 21);
    Bits(1, 1, 0, 0, 0, 1, 0, 0, 0, 0, 24, 16, 8);
    MoreTerms(F, 13, [14, 15, 16], 5, 16, 24, [13, 14, 15, 16]);
    Small(30);
    MulZero(F, 30);
    XorZero(8);
    MoreTerms(F, 0, [13, 14, 15, 16], 6, 8, 0, [0, 13, 14, 15, 16]);
    Product(0, 3, 3);
    Bits(0, 1, 0, 0, 0, 0, 1, 0, 0, 0, 8, 8, 0);
    MoreTerms(F, 1, [0, 13, 14, 15, 16], 7, 8, 8, [1, 0, 13, 14, 15, 16]);
  }

  lemma {:induction false} Identity9(F: Field)
    requires F == F32() && F.Ok()
    ensures IsSer(F, SynSer(ExampleSyndromes())) && IsSer(F, Ser1([1, 0, 13, 14, 15, 16]))
            && Conv(F, Ser1([1, 0, 13, 14, 15, 16]), SynSer(ExampleSyndromes()), 9) == 0
  {
    hide F.Ok, F32, GfMul, Xor, Powers, Logs, F.El, Conv, Ser1, SynSer;
    var u := SynSer(ExampleSyndromes());
    SyndromeSeries(F);
    Small(16);
    MulZero(F, 16);
    LastTerm(F, [16], 4, 0);
    Product(23, 13, 5);
    XorZero(5);
    MoreTerms(F, 15, [16], 5, 0, 5, [15, 16]);
    Product(12, 24, 5);
    Bits(0, 0, 1, 0, 1, 0, 0, 1, 0, 1, 5, 5, 0);
    MoreTerms(F, 14, [15, 16], 6, 5, 5, [14, 15, 16]);
    Product(8, 3, 11);
    XorZero(7);
    MoreTerms(F, 13, [14, 15, 16], 7, 0, 7, [13, 14, 15, 16]);
    Small(0);
    MulZero(F, 0);
    XorZero(7);
    MoreTerms(F, 0, [13, 14, 15, 16], 8, 7, 0, [0, 13, 14, 15, 16]);
    Product(0, 11, 11);
    Bits(0, 0, 1, 1, 1, 0, 0, 1, 1, 1, 7, 7, 0);
    MoreTerms(F, 1, [0, 13, 14, 15, 16], 9, 7, 7, [1, 0, 13, 14, 15, 16]);
  }

  lemma {:induction false} Shorter1(F: Field)
    requires F == F32() && F.Ok()
    ensures IsSer(F, SynSer(ExampleSyndromes())) && IsSer(F, Ser1([1, 0, 2, 14, 17]))
            && Conv(F, Ser1([1, 0, 2, 14, 17]), SynSer(ExampleSyndromes()), 1) == 0
  {
    hide F.Ok, F32, GfMul, Xor, Powers, Logs, F.El, Conv, Ser1, SynSer;
    var u := SynSer(ExampleSyndromes());
    SyndromeSeries(F);
    Small(1);
    MulZero(F, 1);
    LastTerm(F, [0, 2, 14, 17], 0, 0);
    Small(1);
    MulZero(F, 1);
    XorZero(0);
    MoreTerms(F, 1, [0, 2, 14, 17], 1, 0, 0, [1, 0, 2, 14, 17]);
  }

  lemma {:induction false} Shorter3(F: Field)
    requires F == F32() && F.Ok()
    ensures IsSer(F, SynSer(ExampleSyndromes())) && IsSer(F, Ser1([1, 0, 2, 14, 17]))
            && Conv(F, Ser1([1, 0, 2, 14, 17]), SynSer(ExampleSyndromes()), 3) == 0
  {
    hide F.Ok, F32, GfMul, Xor, Powers, Logs, F.El, Conv, Ser1, SynSer;
    var u := SynSer(ExampleSyndromes());
    SyndromeSeries(F);
    Product(12, 0, 12);
    LastTerm(F, [14, 17], 0, 14);
    Small(2);
    MulZero(F, 2);
    XorZero(14);
    MoreTerms(F, 2, [14, 17], 1, 14, 0, [2, 14, 17]);
    Small(0);
    MulZero(F, 0);
    XorZero(14);
    MoreTerms(F, 0, [2, 14, 17], 2, 14, 0, [0, 2, 14, 17]);
    Product(0, 12, 12);
    Bits(0, 1, 1, 1, 0, 0, 1, 1, 1, 0, 14, 14, 0);
    MoreTerms(F, 1, [0, 2, 14, 17], 3, 14, 14, [1, 0, 2, 14, 17]);
  }

  lemma {:induction false} Shorter5(F: Field)
    requires F == F32() && F.Ok()
    ensures IsSer(F, SynSer(ExampleSyndromes())) && IsSer(F, Ser1([1, 0, 2, 14, 17]))
            && Conv(F, Ser1([1, 0, 2, 14, 17]), SynSer(ExampleSyndromes()), 5) == 0
  {
    hide F.Ok, F32, GfMul, Xor, Powers, Logs, F.El, Conv, Ser1, SynSer;
    var u := SynSer(ExampleSyndromes());
    SyndromeSeries(F);
    Small(17);
    MulZero(F, 17);
    LastTerm(F, [17], 1, 0);
    Small(14);
    MulZero(F, 14);
    XorZero(0);
    MoreTerms(F, 14, [17], 2, 0, 0, [14, 17]);
    Product(1, 12, 13);
    XorZero(28);
    MoreTerms(F, 2, [14, 17], 3, 0, 28, [2, 14, 17]);
    Small(0);
    MulZero(F, 0);
    XorZero(28);
    MoreTerms(F, 0, [2, 14, 17], 4, 28, 0, [0, 2, 14, 17]);
    Product(0, 13, 13);
    Bits(1, 1, 1, 0, 0, 1, 1, 1, 0, 0, 28, 28, 0);
    MoreTerms(F, 1, [0, 2, 14, 17], 5, 28, 28, [1, 0, 2, 14, 17]);
  }

  lemma {:induction false} Shorter7(F: Field)
    requires F == F32() && F.Ok()
    ensures IsSer(F, SynSer(ExampleSyndromes())) && IsSer(F, Ser1([1, 0, 2, 14, 17]))
            && Conv(F, Ser1([1, 0, 2, 14, 17]), SynSer(ExampleSyndromes()), 7) == 0
  {
    hide F.Ok, F32, GfMul, Xor, Powers, Logs, F.El, Conv, Ser1, SynSer;
    var u := SynSer(ExampleSyndromes());
    SyndromeSeries(F);
    Product(10, 12, 22);
    LastTerm(F, [17], 3, 21);
    Small(14);
    MulZero(F, 14);
    XorZero(21);
    MoreTerms(F, 14, [17], 4, 21, 0, [14, 17]);
    Product(1, 13, 14);
    Bits(1, 1, 1, 0, 1, 1, 0, 1, 0, 1, 29, 21, 8);
    MoreTerms(F, 2, [14, 17], 5, 21, 29, [2, 14, 17]);
    Small(30);
    MulZero(F, 30);
    XorZero(8);
    MoreTerms(F, 0, [2, 14, 17], 6, 8, 0, [0, 2, 14, 17]);
    Product(0, 3, 3);
    Bits(0, 1, 0, 0, 0, 0, 1, 0, 0, 0, 8, 8, 0);
    MoreTerms(F, 1, [0, 2, 14, 17], 7, 8, 8, [1, 0, 2, 14, 17]);
  }

  lemma {:induction false} Shorter9(F: Field)
    requires F == F32() && F.Ok()
    ensures IsSer(F, SynSer(ExampleSyndromes())) && IsSer(F, Ser1([1, 0, 2, 14, 17]))
            && Conv(F, Ser1([1, 0, 2, 14, 17]), SynSer(ExampleSyndromes()), 9) == 29
  {
    hide F.Ok, F32, GfMul, Xor, Powers, Logs, F.El, Conv, Ser1, SynSer;
    var u := SynSer(ExampleSyndromes());
    SyndromeSeries(F);
    Product(10, 13, 23);
    LastTerm(F, [17], 5, 15);
    Product(12, 24, 5);
    Bits(0, 0, 1, 0, 1, 0, 1, 1, 1, 1, 5, 15, 10);
    MoreTerms(F, 14, [17], 6, 15, 5, [14, 17]);
    Product(1, 3, 4);
    Bits(1, 0, 0, 0, 0, 0, 1, 0, 1, 0, 16, 10, 26);
    MoreTerms(F, 2, [14, 17], 7, 10, 16, [2, 14, 17]);
    Small(0);
    MulZero(F, 0);
    XorZero(26);
    MoreTerms(F, 0, [2, 14, 17], 8, 26, 0, [0, 2, 14, 17]);
    Product(0, 11, 11);
    Bits(0, 0, 1, 1, 1, 1, 1, 0, 1, 0, 7, 26, 29);
    MoreTerms(F, 1, [0, 2, 14, 17], 9, 26, 7, [1, 0, 2, 14, 17]);
  }

  lemma {:induction false} SolvesFrom(F: Field, c: seq<nat>, n: nat)
    requires F == F32() && F.Ok() && |c| >= 1 && c[0] == 1 && (forall i :: 0 <= i < |c| ==> c[i] < 32)
    requires IsSer(F, SynSer(ExampleSyndromes())) && IsSer(F, Ser1(c))
    requires forall k: nat :: k < n && k % 2 == 1 ==> Conv(F, Ser1(c), SynSer(ExampleSyndromes()), k) == 0
    ensures Solves(F, SynSer(ExampleSyndromes()), Ser1(c), |c| - 1, n)
  {
    hide F.Ok, F32, F.El, Conv, Ser1, SynSer;
    SmallAll(F, c);
    SerAtIs(F, c);
    SyndromeSeries(F);
    forall k: nat | k < n && k % 2 == 1 ensures Conv(F, SynSer(ExampleSyndromes()), Ser1(c), k) == 0 {
      ConvComm(F, SynSer(ExampleSyndromes()), Ser1(c), k);
    }
  }

  /** The polynomial is what Berlekamp-Massey looks for: no shorter one satisfies the ten identities, because the
      shortest one for the first eight fails at the last. */
  lemma {:induction false} PolyIsLocator(F: Field)
    requires F == F32() && F.Ok()
    ensures IsPoly(F, ExampleSyndromes()) && IsLocator(F, 5, ExampleSyndromes(), Poly())
  {
    hide F.Ok, F32, F.El, Conv, SynSer, Solves, Minimal, SerTo;
    SyndromeSeries(F);
    SmallAll(F, Poly());
    var u, f, w := SynSer(ExampleSyndromes()), Poly(), [1, 0, 2, 14, 17];
    Identity1(F);
    Identity3(F);
    Identity5(F);
    Identity7(F);
    Identity9(F);
    SolvesFrom(F, f, 10);
    Shorter1(F);
    Shorter3(F);
    Shorter5(F);
    Shorter7(F);
    Shorter9(F);
    SolvesFrom(F, w, 8);
    ConvComm(F, u, Ser1(w), 9);
    LongerIsMinimal(F, u, Ser1(w), 4, 4, 5);
  }

  // ----- no other locator

  /** Two terms of a coefficient of a product. */
  lemma {:induction false} TwoTerms(F: Field, a: Ser, u: Ser, k: nat)
    requires F.Ok() && IsSer(F, a) && IsSer(F, u) && k >= 2
    ensures IsSer(F, Tail(Tail(a)))
    ensures Conv(F, a, u, k) == Xor(GfMul(F, a(0), u(k)),
            Xor(GfMul(F, a(1), u(k - 1)), Conv(F, Tail(Tail(a)), u, k - 2)))
  {
    hide F.Ok, GfMul, Xor, Conv, F.El;
    TailIsSer(F, a);
    TailIsSer(F, Tail(a));
    ConvStep(F, a, u, k);
    ConvStep(F, Tail(a), u, k - 1);
  }

  lemma {:induction false} LastTerms(F: Field, a: Ser, u: Ser, k: nat)
    requires F.Ok() && IsSer(F, a) && IsSer(F, u) && k >= 1 && (k > 1 ==> DegreeAtMost(a, 1))
    ensures Conv(F, a, u, k) == Xor(GfMul(F, a(0), u(k)), GfMul(F, a(1), u(k - 1)))
  {
    hide F.Ok, GfMul, Xor, Conv, F.El;
    TailIsSer(F, a);
    var b := Tail(a);
    TailIsSer(F, b);
    ConvStep(F, a, u, k);
    ConvStep(F, b, u, k - 1);
    if k > 1 {
      forall i: nat | i <= k - 2 ensures Tail(b)(i) == 0 { assert a(i + 2) == 0; }
      ConvZero(F, Tail(b), u, k - 2);
      XorZero(GfMul(F, a(1), u(k - 1)));
    }
  }

  /** A coefficient of the product with a polynomial of degree at most 5. */
  lemma {:induction false} Expand(F: Field, a: Ser, u: Ser, k: nat)
    requires F.Ok() && IsSer(F, a) && IsSer(F, u) && DegreeAtMost(a, 5)
    ensures k == 1 ==> Conv(F, a, u, k) == Xor(GfMul(F, a(0), u(1)), GfMul(F, a(1), u(0)))
    ensures k == 3 ==> Conv(F, a, u, k) == Xor(GfMul(F, a(0), u(3)), Xor(GfMul(F, a(1), u(2)),
                         Xor(GfMul(F, a(2), u(1)), GfMul(F, a(3), u(0)))))
    ensures k >= 5 ==> Conv(F, a, u, k)
                       == Xor(GfMul(F, a(0), u(k)), Xor(GfMul(F, a(1), u(k - 1)), Xor(GfMul(F, a(2), u(k - 2)),
                         Xor(GfMul(F, a(3), u(k - 3)), Xor(GfMul(F, a(4), u(k - 4)), GfMul(F, a(5), u(k - 5)))))))
  {
    hide F.Ok, GfMul, Xor, Conv, F.El, IsSer;
    if k == 1 {
      LastTerms(F, a, u, 1);
    } else if k == 3 {
      TwoTerms(F, a, u, 3);
      LastTerms(F, Tail(Tail(a)), u, 1);
    } else if k >= 5 {
      TwoTerms(F, a, u, k);
      var b := Tail(Tail(a));
      TwoTerms(F, b, u, k - 2);
      LastTerms(F, Tail(Tail(b)), u, k - 4);
    }
  }

  /** The sum vanishes when it has one term besides zeros. */
  lemma {:induction false} OneTerm(x: nat)
    ensures Xor(0, x) == x && Xor(x, 0) == x && Xor(0, 0) == 0
  {
    hide Xor;
    XorZero(x);
    XorZero(0);
  }

  /** Multiplication by a zero of the syndromes, or of the difference. */
  lemma {:induction false} ZeroTerm(F: Field, x: nat)
    requires F.Ok() && F.El(x)
    ensures F.El(0) && GfMul(F, x, 0) == 0 && GfMul(F, 0, x) == 0 && F.El(1) && GfMul(F, x, 1) == x
  {
    hide F.Ok, GfMul;
    MulZero(F, x);
    MulOne(F, x);
  }

  /** What the identities of odd index say about a difference of two solutions. */
  lemma {:induction false} Relations(F: Field, a: Ser, u: Ser)
    requires F == F32() && F.Ok() && IsSer(F, a) && DegreeAtMost(a, 5) && a(0) == 0 && IsSer(F, u)
             && u == SynSer(ExampleSyndromes())
    requires forall k: nat :: k < 10 && k % 2 == 1 ==> Conv(F, a, u, k) == 0
    ensures a(1) == 0 && a(3) == 0 && F.El(a(2)) && F.El(a(4)) && F.El(28) && F.El(14) && F.El(8)
    ensures GfMul(F, a(2), 28) == GfMul(F, a(4), 14) && GfMul(F, a(2), 8) == GfMul(F, a(4), 28)
            && a(5) == GfMul(F, a(2), 14)
  {
    SyndromeValues(F, u);
    hide F.Ok, F32, GfMul, Xor, Conv, F.El, SynSer;
    forall i: nat | i <= 10 ensures F.El(u(i)) { SerAt(F, u, i); }
    forall i: nat | i <= 5 ensures F.El(a(i)) && GfMul(F, a(i), 0) == 0 && GfMul(F, a(i), 1) == a(i) {
      SerAt(F, a, i);
      ZeroTerm(F, a(i));
    }
    forall i: nat | i <= 10 ensures GfMul(F, 0, u(i)) == 0 { ZeroTerm(F, u(i)); }
    Expand(F, a, u, 1);
    OneTerm(a(1));
    Expand(F, a, u, 3);
    OneTerm(a(3));
    Expand(F, a, u, 5);
    OneTerm(a(5));
    OneTerm(Xor(GfMul(F, a(2), 14), a(5)));
    XorZero(GfMul(F, a(2), 14));
    Expand(F, a, u, 7);
    OneTerm(GfMul(F, a(4), 14));
    OneTerm(Xor(GfMul(F, a(2), 28), GfMul(F, a(4), 14)));
    Expand(F, a, u, 9);
    OneTerm(GfMul(F, a(4), 28));
    OneTerm(Xor(GfMul(F, a(2), 8), GfMul(F, a(4), 28)));
    XorEqualZero(GfMul(F, a(2), 14), a(5));
    XorEqualZero(GfMul(F, a(2), 28), GfMul(F, a(4), 14));
    XorEqualZero(GfMul(F, a(2), 8), GfMul(F, a(4), 28));
  }

  lemma {:induction false} SyndromeValues(F: Field, u: Ser)
    requires F == F32() && F.Ok() && u == SynSer(ExampleSyndromes())
    ensures u(0) == 1 && u(1) == 0 && u(2) == 0 && u(3) == 14 && u(4) == 0 && u(5) == 28 && u(6) == 30 && u(7) == 8
            && u(8) == 0 && u(9) == 7
  {
  }

  /** The two equations for the coefficients of degree 2 and 4 have the zero solution only. */
  lemma {:induction false} Independent(F: Field, x: nat, y: nat)
    requires F == F32() && F.Ok() && F.El(x) && F.El(y) && F.El(28) && F.El(14) && F.El(8)
    requires GfMul(F, x, 28) == GfMul(F, y, 14) && GfMul(F, x, 8) == GfMul(F, y, 28)
    ensures x == 0 && y == 0
  {
    hide F.Ok, F32, GfMul, Xor, Powers, Logs, F.El;
    Small(2);
    Small(29);
    Small(21);
    // 28 = 2 * 14, so y = 2 x
    Product(1, 12, 13);
    MulAssoc(F, x, 2, 14);
    MulComm(F, GfMul(F, x, 2), 14);
    MulComm(F, y, 14);
    MulCancel(F, 14, GfMul(F, x, 2), y);
    // 8 x = 28 y = 29 x, and 8 + 29 = 21
    Product(1, 13, 14);
    MulAssoc(F, x, 2, 28);
    Bits(0, 1, 0, 0, 0, 1, 1, 1, 0, 1, 8, 29, 21);
    MulDistrib(F, x, 8, 29);
    XorSelf(GfMul(F, x, 8));
    if x != 0 { MulNonzero(F, x, 21); }
    MulZero(F, 2);
  }

  /** The polynomial is the only locator of these syndromes. */
  lemma {:induction false} OnlyLocator(F: Field, loc: seq<nat>)
    requires F == F32() && F.Ok() && IsPoly(F, ExampleSyndromes()) && IsLocator(F, 5, ExampleSyndromes(), loc)
    ensures loc == Poly()
  {
    hide F.Ok, F32, GfMul, Xor, Conv, F.El, SynSer, Minimal, Sum;
    PolyIsLocator(F);
    SmallAll(F, Poly());
    var u, f := SynSer(ExampleSyndromes()), Poly();
    SameLength(F, u, loc, f);
    SerAtIs(F, f);
    SerAtIs(F, loc);
    var a := Sum(Ser1(loc), Ser1(f));
    SumDegree(F, Ser1(loc), Ser1(f), 5);
    SumAt(F, Ser1(loc), Ser1(f));
    XorSelf(1);
    forall k: nat | k < 10 && k % 2 == 1 ensures Conv(F, a, u, k) == 0 {
      ConvAddLeft(F, Ser1(loc), Ser1(f), u, k);
      ConvComm(F, u, Ser1(loc), k);
      ConvComm(F, u, Ser1(f), k);
      XorZero(0);
    }
    Relations(F, a, u);
    Independent(F, a(2), a(4));
    Small(14);
    MulZero(F, 14);
    forall i | 0 <= i < 6 ensures loc[i] == f[i] {
      assert a(i) == Xor(loc[i], f[i]);
      assert a(i) == 0;
      XorEqualZero(loc[i], f[i]);
    }
  }

  lemma {:induction false} SameLength(F: Field, u: Ser, loc: seq<nat>, f: seq<nat>)
    requires F.Ok() && |f| == 6 && u == SynSer(ExampleSyndromes()) && IsPoly(F, ExampleSyndromes())
    requires IsLocator(F, 5, ExampleSyndromes(), loc) && IsLocator(F, 5, ExampleSyndromes(), f)
    ensures |loc| == 6 && IsPoly(F, loc) && IsPoly(F, f) && Solves(F, u, Ser1(loc), 5, 10)
            && Solves(F, u, Ser1(f), 5, 10)
  {
    hide F.Ok, Solves, SerTo;
  }

  lemma {:induction false} SyndromesSquare(F: Field)
    requires F == F32() && F.Ok()
    ensures |ExampleSyndromes()| == 10 && Squares(F, 5, ExampleSyndromes())
  {
    hide F.Ok, F32, GfSqr, Powers, Logs, F.El;
    SmallAll(F, ExampleSyndromes());
    ZeroSquare(F);
    Square(12, 24);
    Square(13, 26);
  }

  /** Whatever locations the decoder returns for these syndromes and a message of one byte, it does return some, and
      no errors have these syndromes. */
  lemma {:induction false} FalseLocations(F: Field, xi: seq<nat>, swap: bool, r: Outcome, ps: seq<nat>, loc: seq<nat>,
                                          T: Factoring)
    requires F == F32() && F.Ok() && |ExampleSyndromes()| == 10 && IsPoly(F, ExampleSyndromes())
    requires Answers(F, 5, ExampleSyndromes(), swap, 28, r, ps)
    requires loc == [] ==> r.BadMessage? && Minimal(F, SynSer(ExampleSyndromes()), 6, 10)
    requires loc != [] ==> IsLocator(F, 5, ExampleSyndromes(), loc) && Fits(F, 1, loc, T)
                           && (r.Located? <==> FindsAll(F, ByDegree(xi), loc, T, 28))
    ensures IsPoly(F, loc) && |loc| == 6 && !Splits(F, loc, 5)
    ensures r.Located? && loc == Poly() && T == Factors() && !Divided(T)
    ensures Squares(F, 5, ExampleSyndromes()) && forall qs: seq<nat> :: !Explains(F, 5, ExampleSyndromes(), qs)
  {
    hide F.Ok, F32, Fits, AllBelow, Splits, F.El, Explains, Solves, SynSer, Answers, SerTo, Minimal;
    NothingExplains(F);
    PolyIsLocator(F);
    NotNone(F);
    OnlyLocator(F, loc);
    FiveFalseRoots(F);
    FactoringUnique(F, 1, loc, T, Factors());
  }

  /** No errors have the syndromes, though they are consistent: the even ones are squares. */
  lemma {:induction false} NothingExplains(F: Field)
    requires F == F32() && F.Ok()
    ensures |ExampleSyndromes()| == 10 && IsPoly(F, ExampleSyndromes()) && Squares(F, 5, ExampleSyndromes())
    ensures forall qs: seq<nat> :: !Explains(F, 5, ExampleSyndromes(), qs)
  {
    hide F.Ok, F32, Fits, AllBelow, Splits, F.El, Explains, Solves, SynSer, SerTo, Minimal, Squares;
    Sizes28(F);
    SyndromesSquare(F);
    PolyIsLocator(F);
    FiveFalseRoots(F);
    forall qs: seq<nat> ensures !Explains(F, 5, ExampleSyndromes(), qs) {
      if Explains(F, 5, ExampleSyndromes(), qs) { ExplainedSplits(F, Poly(), qs); }
    }
  }

  /** The run: for these syndromes and a message of one byte the decoder with the default root finder returns
      locations, although no errors have these syndromes. */
  method ReportsFalseErrors(swap: bool) returns (r: Outcome)
    ensures r.Located? && F32().Ok() && |ExampleSyndromes()| == 10 && IsPoly(F32(), ExampleSyndromes())
    ensures forall qs: seq<nat> :: !Explains(F32(), 5, ExampleSyndromes(), qs)
  {
    hide Fits, AllBelow, Splits, Explains, Solves, SynSer, SerTo, Minimal, F32, Powers, Logs, BaseOk, IsLocator,
         FindsAll, Divided, Names, Squares;
    var F := F32();
    IsField();
    hide F.Ok;
    Sizes28(F);
    var ok, xi, ak := BuildDeg2Base(F);
    ghost var ps, loc, T;
    r, ps, loc, T := LocateErrors(F, 5, ExampleSyndromes(), ByDegree(xi), swap, 28);
    FalseLocations(F, xi, swap, r, ps, loc, T);
  }

  lemma {:induction false} Sizes28(F: Field)
    requires F == F32() && F.Ok()
    ensures F.m == 5 && F.N() == 31 && |ExampleSyndromes()| == 10 && IsPoly(F, ExampleSyndromes())
  {
    hide F.Ok, Powers, Logs, F.El;
    SmallAll(F, ExampleSyndromes());
  }

  lemma {:induction false} NotNone(F: Field)
    requires F.Ok() && IsPoly(F, ExampleSyndromes()) && IsLocator(F, 5, ExampleSyndromes(), Poly())
    ensures !Minimal(F, SynSer(ExampleSyndromes()), 6, 10)
  {
    hide F.Ok, Solves, SerTo, SynSer;
    assert Solves(F, SynSer(ExampleSyndromes()), SerTo(Poly(), 5), 5, 10);
  }

  lemma {:induction false} ExplainedSplits(F: Field, loc: seq<nat>, qs: seq<nat>)
    requires F.Ok() && |ExampleSyndromes()| == 10 && IsPoly(F, ExampleSyndromes())
    requires IsLocator(F, 5, ExampleSyndromes(), loc)
             && Explains(F, 5, ExampleSyndromes(), qs)
    ensures Splits(F, loc, |loc| - 1)
  {
    hide F.Ok, Explains, Solves, SynSer, SerTo, Minimal, AllRoots;
    WithinN(F, 5, ExampleSyndromes(), qs);
    ExplainsAllRoots(F, 5, ExampleSyndromes(), loc, |loc| - 1, qs, F.N());
  }
}
