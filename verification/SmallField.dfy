/** GF(32) with the default polynomial of the codec for m = 5, as numbers, and calculations with them. */
module SmallField {
  import opened Gf2
  import opened GaloisField
  import opened FieldLaws

  function Powers(): seq<nat> {
    [1, 2, 4, 8, 16, 5, 10, 20, 13, 26, 17, 7, 14, 28, 29, 31, 27, 19, 3, 6, 12, 24, 21, 15, 30, 25, 23, 11, 22, 9,
      18, 1]
  }

  function Logs(): seq<nat> {
    [0, 0, 1, 18, 2, 5, 19, 11, 3, 29, 6, 27, 20, 8, 12, 23, 4, 10, 30, 17, 7, 22, 28, 26, 21, 25, 9, 16, 13, 14, 24,
      15]
  }

  function F32(): Field { Field(5, 0x25, Powers(), Logs()) }

  lemma {:induction false} Append(a: nat, x: nat, b: nat, y: nat)
    requires x < 2 && y < 2
    ensures Xor(2 * a + x, 2 * b + y) == 2 * Xor(a, b) + if x == y then 0 else 1
  {
    hide Xor;
    XorHalves(2 * a + x, 2 * b + y);
    assert (2 * a + x) / 2 == a && (2 * b + y) / 2 == b;
  }

  /** Exclusive or of numbers of five bits. */
  lemma {:induction false} Bits(a4: nat, a3: nat, a2: nat, a1: nat, a0: nat, b4: nat, b3: nat, b2: nat, b1: nat,
                                b0: nat, a: nat, b: nat, c: nat)
    requires a4 < 2 && a3 < 2 && a2 < 2 && a1 < 2 && a0 < 2 && b4 < 2 && b3 < 2 && b2 < 2 && b1 < 2 && b0 < 2
    requires a == 16 * a4 + 8 * a3 + 4 * a2 + 2 * a1 + a0 && b == 16 * b4 + 8 * b3 + 4 * b2 + 2 * b1 + b0
    requires c == (if a4 == b4 then 0 else 16) + (if a3 == b3 then 0 else 8) + (if a2 == b2 then 0 else 4)
                + (if a1 == b1 then 0 else 2) + (if a0 == b0 then 0 else 1)
    ensures Xor(a, b) == c
  {
    hide Xor;
    var p3, q3 := 2 * a4 + a3, 2 * b4 + b3;
    var p2, q2 := 2 * p3 + a2, 2 * q3 + b2;
    var p1, q1 := 2 * p2 + a1, 2 * q2 + b1;
    Append(p1, a0, q1, b0);
    Append(p2, a1, q2, b1);
    Append(p3, a2, q3, b2);
    Append(a4, a3, b4, b3);
    Append(0, a4, 0, b4);
    XorZero(0);
  }

  lemma {:induction false} Sizes()
    ensures Pow2(5) == 32 && Order(5) == 31 && IsDivisor(0x25, 5)
  {
  }

  /** Reducing 2x by the polynomial, for 16 <= x. */
  lemma {:induction false} Reduces(x: nat, y: nat)
    requires x < 16 && y == Xor(2 * x, 5)
    ensures Xor(2 * (16 + x), 0x25) == y
  {
    hide Xor;
    Pow2Values();
    assert Pow2(5) == 32;
    XorSplit(1, 2 * x, 1, 5, 5);
    XorSelf(1);
  }

  lemma {:induction false} Doubles()
    ensures Xor(0, 5) == 5 && Xor(8, 5) == 13 && Xor(20, 5) == 17 && Xor(2, 5) == 7 && Xor(24, 5) == 29
            && Xor(26, 5) == 31
    ensures Xor(30, 5) == 27 && Xor(22, 5) == 19 && Xor(6, 5) == 3 && Xor(16, 5) == 21 && Xor(10, 5) == 15
            && Xor(28, 5) == 25
    ensures Xor(18, 5) == 23 && Xor(14, 5) == 11 && Xor(12, 5) == 9 && Xor(4, 5) == 1
  {
    hide Xor;
    Bits(0, 0, 0, 0, 0, 0, 0, 1, 0, 1, 0, 5, 5);
    Bits(0, 1, 0, 0, 0, 0, 0, 1, 0, 1, 8, 5, 13);
    Bits(1, 0, 1, 0, 0, 0, 0, 1, 0, 1, 20, 5, 17);
    Bits(0, 0, 0, 1, 0, 0, 0, 1, 0, 1, 2, 5, 7);
    Bits(1, 1, 0, 0, 0, 0, 0, 1, 0, 1, 24, 5, 29);
    Bits(1, 1, 0, 1, 0, 0, 0, 1, 0, 1, 26, 5, 31);
    Bits(1, 1, 1, 1, 0, 0, 0, 1, 0, 1, 30, 5, 27);
    Bits(1, 0, 1, 1, 0, 0, 0, 1, 0, 1, 22, 5, 19);
    Bits(0, 0, 1, 1, 0, 0, 0, 1, 0, 1, 6, 5, 3);
    Bits(1, 0, 0, 0, 0, 0, 0, 1, 0, 1, 16, 5, 21);
    Bits(0, 1, 0, 1, 0, 0, 0, 1, 0, 1, 10, 5, 15);
    Bits(1, 1, 1, 0, 0, 0, 0, 1, 0, 1, 28, 5, 25);
    Bits(1, 0, 0, 1, 0, 0, 0, 1, 0, 1, 18, 5, 23);
    Bits(0, 1, 1, 1, 0, 0, 0, 1, 0, 1, 14, 5, 11);
    Bits(0, 1, 1, 0, 0, 0, 0, 1, 0, 1, 12, 5, 9);
    Bits(0, 0, 1, 0, 0, 0, 0, 1, 0, 1, 4, 5, 1);
  }

  /** The next power of a. */
  function Next(x: nat): nat
    requires x < 32
  {
    if x < 16 then 2 * x else if x == 16 then 5 else if x == 20 then 13 else if x == 26 then 17
    else if x == 17 then 7 else if x == 28 then 29 else if x == 29 then 31 else if x == 31 then 27
    else if x == 27 then 19 else if x == 19 then 3 else if x == 24 then 21 else if x == 21 then 15
    else if x == 30 then 25 else if x == 25 then 23 else if x == 23 then 11 else if x == 22 then 9 else 1
  }

  lemma {:induction false} NextIs(x: nat)
    requires x < 32
    ensures Next(x) == if 2 * x >= 32 then Xor(2 * x, 0x25) else 2 * x
  {
    hide Xor;
    Doubles();
    if x >= 16 { Reduces(x - 16, Xor(2 * (x - 16), 5)); }
  }

  lemma {:induction false} TableStep(i: nat)
    requires i < 31
    ensures |Powers()| == 32 && Powers()[i] < 32 && Powers()[i + 1] == Next(Powers()[i])
  {
  }

  lemma {:induction false} TableSizes()
    ensures |Powers()| == |Logs()| == 32 && Powers()[0] == 1 && Powers()[31] == 1 && Logs()[0] == 0
  {
  }

  lemma {:induction false} Tabulates(i: nat)
    requires i <= 31
    ensures |Powers()| == 32 && IsDivisor(0x25, 5) && APow(0x25, 5, i) == Powers()[i]
  {
    hide Powers;
    TableSizes();
    Sizes();
    if i == 0 {
      APowBase(0x25, 5);
    } else {
      Tabulates(i - 1);
      hide Xor, APow, Pow2, Next;
      TableStep(i - 1);
      NextIs(Powers()[i - 1]);
      APowNext(0x25, 5, i - 1);
    }
  }

  lemma {:induction false} LogTable(i: nat)
    requires i < 31
    ensures |Powers()| == |Logs()| == 32 && 0 < Powers()[i] < 32 && Logs()[Powers()[i]] == i
  {
  }

  lemma {:induction false} PowerTable(x: nat)
    requires 0 < x < 32
    ensures |Powers()| == |Logs()| == 32 && Logs()[x] < 31 && Powers()[Logs()[x]] == x
  {
  }

  lemma {:induction false} IsField()
    ensures F32().Ok()
  {
    hide Powers, Logs;
    TableSizes();
    Sizes();
    hide APow, Pow2;
    var pow, log := Powers(), Logs();
    forall i | 0 <= i <= 31 ensures pow[i] == APow(0x25, 5, i) { Tabulates(i); }
    forall i | 0 <= i < 31 ensures 0 < pow[i] < 32 && log[pow[i]] == i { LogTable(i); }
    forall x | 0 < x < 32 ensures log[x] < 31 && pow[log[x]] == x { PowerTable(x); }
    var F := Field(5, 0x25, pow, log);
    assert F.m == 5 && F.poly == 0x25 && F.pow == pow && F.log == log && F.N() == 31;
    assert F.Ok();
  }

  lemma {:induction false} Value(i: nat)
    requires i < 31
    ensures F32().Ok() && |Powers()| == 32 && A(F32(), i) == A(F32(), i + 31) == Powers()[i]
  {
    hide Powers, Logs;
    TableSizes();
    IsField();
    Sizes();
    hide APow, Pow2, A, F32().Ok;
    ALookup(F32(), i);
    APeriod(F32(), i);
  }

  /** a^i, for i below 31. */
  function Pow(i: nat): nat {
    if i == 0 then 1 else if i == 1 then 2 else if i == 2 then 4 else if i == 3 then 8 else if i == 4 then 16
    else if i == 5 then 5 else if i == 6 then 10 else if i == 7 then 20 else if i == 8 then 13
    else if i == 9 then 26 else if i == 10 then 17 else if i == 11 then 7 else if i == 12 then 14
    else if i == 13 then 28 else if i == 14 then 29 else if i == 15 then 31 else if i == 16 then 27
    else if i == 17 then 19 else if i == 18 then 3 else if i == 19 then 6 else if i == 20 then 12
    else if i == 21 then 24 else if i == 22 then 21 else if i == 23 then 15 else if i == 24 then 30
    else if i == 25 then 25 else if i == 26 then 23 else if i == 27 then 11 else if i == 28 then 22
    else if i == 29 then 9 else 18
  }

  lemma {:induction false} PowIs(i: nat)
    requires i < 31
    ensures |Powers()| == 32 && Powers()[i] == Pow(i) && 0 < Pow(i) < 32
  {
  }

  /** Multiplication by logarithms. */
  lemma {:induction false} Product(i: nat, j: nat, k: nat)
    requires i < 31 && j < 31 && k == (if i + j < 31 then i + j else i + j - 31) && F32().Ok()
    ensures F32().El(Pow(i)) && F32().El(Pow(j)) && GfMul(F32(), Pow(i), Pow(j)) == Pow(k)
  {
    hide Powers, Logs, Pow, A, GfMul, F32().Ok;
    Value(i);
    Value(j);
    Value(k);
    PowIs(i);
    PowIs(j);
    PowIs(k);
    MulPowers(F32(), i, j);
  }

  lemma {:induction false} Square(i: nat, k: nat)
    requires i < 31 && k == (if 2 * i < 31 then 2 * i else 2 * i - 31) && F32().Ok()
    ensures F32().El(Pow(i)) && GfSqr(F32(), Pow(i)) == Pow(k)
  {
    hide Powers, Logs, Pow, GfMul, GfSqr, F32().Ok;
    Product(i, i, k);
    SqrIsMul(F32(), Pow(i));
  }

  lemma {:induction false} Small(x: nat)
    ensures F32().El(x) <==> x < 32
  {
    Sizes();
  }
}
