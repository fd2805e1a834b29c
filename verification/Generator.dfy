/** The generator polynomial of the code: its roots, its binary coefficients, and the words it is
    stored in. */
module Generator {
  import opened Arithmetic
  import opened Gf2
  import opened GaloisField
  import opened FieldLaws
  import opened FieldPoly

  // ----- binary polynomials evaluated at elements of GF(2^m)

  /** The value at x of the polynomial over GF(2) whose coefficients are the bits of v. */
  ghost function EvalBin(F: Field, v: nat, x: nat): (y: nat)
    requires F.Ok() && F.El(x)
    ensures F.El(y)
    decreases v
  {
    FieldShape(F);
    if v == 0 then 0
    else
      XorBound(v % 2, GfMul(F, x, EvalBin(F, v / 2, x)), F.m);
      Xor(v % 2, GfMul(F, x, EvalBin(F, v / 2, x)))
  }

  lemma {:induction false} EvalBinUnfold(F: Field, v: nat, x: nat)
    requires F.Ok() && F.El(x)
    ensures EvalBin(F, v, x) == Xor(v % 2, GfMul(F, x, EvalBin(F, v / 2, x)))
  {
    MulZero(F, x);
    XorZero(0);
  }

  lemma {:induction false} EvalBinLinear(F: Field, a: nat, b: nat, x: nat)
    requires F.Ok() && F.El(x)
    ensures EvalBin(F, Xor(a, b), x) == Xor(EvalBin(F, a, x), EvalBin(F, b, x))
    decreases a + b
  {
    if a == 0 && b == 0 {
      XorZero(0);
    } else {
      EvalBinLinear(F, a / 2, b / 2, x);
      hide Xor, GfMul, F.Ok, EvalBin;
      XorHalves(a, b);
      EvalBinUnfold(F, a, x);
      EvalBinUnfold(F, b, x);
      EvalBinUnfold(F, Xor(a, b), x);
      var u, v := EvalBin(F, a / 2, x), EvalBin(F, b / 2, x);
      MulDistrib(F, x, u, v);
      XorSwap4(a % 2, b % 2, GfMul(F, x, u), GfMul(F, x, v));
      XorOfBits(a % 2, b % 2);
    }
  }

  lemma {:induction false} XorOfBits(x: nat, y: nat)
    requires x < 2 && y < 2
    ensures Xor(x, y) == if x == y then 0 else 1
  {
    XorZero(0);
    XorSelf(x);
    XorZero(1);
  }

  lemma {:induction false} EvalBinStep(F: Field, g: nat, e: nat, r: nat, b: nat, x: nat)
    requires F.Ok() && F.El(x) && IsDivisor(g, e) && EvalBin(F, g, x) == 0 && r < Pow2(e) && b < 2
    ensures EvalBin(F, Step(g, e, r, b), x) == Xor(b, GfMul(F, x, EvalBin(F, r, x)))
  {
    hide Xor, GfMul, F.Ok, EvalBin, Pow2, Step;
    var s := 2 * r + b;
    StepDef(g, e, r, b);
    EvalBinUnfold(F, s, x);
    EvalBinLinear(F, s, g, x);
    XorZero(EvalBin(F, s, x));
  }

  /** Long division by g does not change the value at a root of g. */
  lemma {:induction false} EvalBinMod(F: Field, g: nat, e: nat, a: nat, x: nat)
    requires F.Ok() && F.El(x) && IsDivisor(g, e) && EvalBin(F, g, x) == 0
    ensures EvalBin(F, Mod(g, e, a), x) == EvalBin(F, a, x)
    decreases a
  {
    hide Xor, GfMul, F.Ok, EvalBin, Mod;
    if a == 0 {
      ModSmall(g, e, 0);
    } else {
      EvalBinMod(F, g, e, a / 2, x);
      ModUnfold(g, e, a);
      EvalBinStep(F, g, e, Mod(g, e, a / 2), a % 2, x);
      EvalBinUnfold(F, a, x);
    }
  }

  /** X^k at a^j is a^(jk). */
  lemma {:induction false} EvalBinPower(F: Field, k: nat, j: nat)
    requires F.Ok()
    ensures EvalBin(F, Pow2(k), A(F, j)) == A(F, j * k)
  {
    hide Xor, GfMul, F.Ok, EvalBin, A;
    var x := A(F, j);
    EvalBinUnfold(F, Pow2(k), x);
    if k == 0 {
      EvalBinZero(F, x);
      MulZero(F, x);
      XorZero(1);
      AZero(F);
      assert j * 0 == 0;
    } else {
      EvalBinPower(F, k - 1, j);
      assert Pow2(k) == 2 * Pow2(k - 1);
      XorZero(GfMul(F, x, EvalBin(F, Pow2(k - 1), x)));
      MulPowers(F, j, j * (k - 1));
      assert j + j * (k - 1) == j * k;
    }
  }

  lemma {:induction false} EvalBinZero(F: Field, x: nat)
    requires F.Ok() && F.El(x)
    ensures EvalBin(F, 0, x) == 0
  {
  }

  /** v(x^2) = v(x)^2 for a polynomial with binary coefficients. */
  lemma {:induction false} EvalBinSqr(F: Field, v: nat, x: nat)
    requires F.Ok() && F.El(x)
    ensures EvalBin(F, v, GfSqr(F, x)) == GfSqr(F, EvalBin(F, v, x))
    decreases v
  {
    hide Xor, GfMul, F.Ok, EvalBin, GfSqr;
    FieldShape(F);
    SqrIsMul(F, 0);
    SqrIsMul(F, 1);
    MulZero(F, 0);
    MulOne(F, 1);
    if v == 0 {
      EvalBinZero(F, x);
      EvalBinZero(F, GfSqr(F, x));
    } else {
      EvalBinSqr(F, v / 2, x);
      EvalBinUnfold(F, v, x);
      EvalBinUnfold(F, v, GfSqr(F, x));
      var u := EvalBin(F, v / 2, x);
      SqrXor(F, v % 2, GfMul(F, x, u));
      SqrMul(F, x, u);
    }
  }

  // ----- the product of X + a^k over a set of exponents

  ghost function Count(flags: seq<bool>): (c: nat)
    ensures c <= |flags|
  {
    if flags == [] then 0
    else Count(flags[..|flags| - 1]) + if flags[|flags| - 1] then 1 else 0
  }

  ghost function Product(F: Field, flags: seq<bool>): (c: seq<nat>)
    requires F.Ok()
    ensures IsPoly(F, c) && |c| == Count(flags) + 1
  {
    FieldShape(F);
    if flags == [] then [1]
    else
      var k := |flags| - 1;
      var p := Product(F, flags[..k]);
      if flags[k] then MulRoot(F, p, A(F, k)) else p
  }

  lemma {:induction false} ProductMonic(F: Field, flags: seq<bool>)
    requires F.Ok()
    ensures Product(F, flags)[Count(flags)] == 1
  {
    hide F.Ok, A, GfMul;
    if flags != [] {
      var k := |flags| - 1;
      ProductMonic(F, flags[..k]);
      XorZero(1);
    }
  }

  /** The product vanishes at a^k exactly for the chosen exponents. */
  lemma {:induction false} ProductRoots(F: Field, flags: seq<bool>, k: nat)
    requires F.Ok() && |flags| <= F.N() && k < F.N()
    ensures Eval(F, Product(F, flags), A(F, k)) == 0 <==> k < |flags| && flags[k]
  {
    hide A, GfMul, Xor, MulRoot;
    var x := A(F, k);
    if flags == [] {
      assert Product(F, flags)[1..] == [];
      MulZero(F, x);
      XorZero(1);
    } else {
      var j := |flags| - 1;
      var p := Product(F, flags[..j]);
      ProductRoots(F, flags[..j], k);
      if flags[j] {
        var r := A(F, j);
        EvalMulRoot(F, p, r, x);
        var s := Xor(x, r);
        if k == j {
          XorSelf(x);
          MulZero(F, Eval(F, p, x));
        } else {
          if s == 0 {
            XorEqualZero(x, r);
            AInjective(F, k, j);
          }
          if Eval(F, p, x) == 0 {
            MulZero(F, s);
          } else {
            MulNonzero(F, s, Eval(F, p, x));
          }
        }
      }
    }
  }

  /** The chosen powers of a, as a list. */
  ghost function RootList(F: Field, flags: seq<bool>): (r: seq<nat>)
    requires F.Ok()
    ensures |r| == Count(flags) && IsPoly(F, r)
  {
    if flags == [] then []
    else
      var k := |flags| - 1;
      RootList(F, flags[..k]) + if flags[k] then [A(F, k)] else []
  }

  ghost predicate IsChosen(F: Field, flags: seq<bool>, x: nat)
    requires F.Ok()
  {
    exists k :: 0 <= k < |flags| && flags[k] && x == A(F, k)
  }

  lemma {:induction false} RootListSpec(F: Field, flags: seq<bool>)
    requires F.Ok() && |flags| <= F.N()
    ensures forall i :: 0 <= i < |RootList(F, flags)| ==> IsChosen(F, flags, RootList(F, flags)[i])
    ensures forall i, j :: 0 <= i < j < |RootList(F, flags)| ==> RootList(F, flags)[i] != RootList(F, flags)[j]
  {
    hide F.Ok, A;
    if flags != [] {
      var n := |flags| - 1;
      var prev, all := RootList(F, flags[..n]), RootList(F, flags);
      RootListSpec(F, flags[..n]);
      forall i | 0 <= i < |prev| ensures IsChosen(F, flags, all[i]) && all[i] != A(F, n) {
        assert IsChosen(F, flags[..n], prev[i]);
        var k :| 0 <= k < n && flags[..n][k] && prev[i] == A(F, k);
        assert flags[k];
        if A(F, k) == A(F, n) { AInjective(F, k, n); }
      }
      if flags[n] {
        assert IsChosen(F, flags, A(F, n));
      }
    }
  }

  ghost predicate HasHalves(n: nat, flags: seq<bool>)
    requires |flags| == n
  {
    forall k :: 0 <= k < n && flags[k] ==> exists h :: 0 <= h < n && flags[h] && k == ModS(n, 2 * h)
  }

  /** A set of exponents closed under halving gives a product whose coefficients are all 0 or 1. */
  lemma {:induction false} BinaryCoefficients(F: Field, flags: seq<bool>)
    requires F.Ok() && |flags| == F.N() && HasHalves(F.N(), flags)
    ensures forall i :: 0 <= i <= Count(flags) ==> Product(F, flags)[i] == 0 || Product(F, flags)[i] == 1
  {
    hide A, GfMul, GfSqr, Xor, F.Ok, Product, Eval, Count;
    var c := Product(F, flags);
    var d := Count(flags);
    var sq := SqrCoefs(F, c);
    var diff := XorSeq(c, sq);
    AddIsPoly(F, c, sq);
    ProductMonic(F, flags);
    FieldShape(F);
    SqrIsMul(F, 1);
    MulOne(F, 1);
    XorSelf(1);
    assert diff[d] == 0;
    var low := diff[..d];
    assert diff == low + [0];
    var roots := RootList(F, flags);
    RootListSpec(F, flags);
    forall i | 0 <= i < |roots| ensures Eval(F, low, roots[i]) == 0 {
      EvalAppendZero(F, low, roots[i]);
      DifferenceVanishes(F, flags, roots[i]);
    }
    RootsBound(F, low, roots);
    forall i | 0 <= i <= d ensures c[i] == 0 || c[i] == 1 {
      assert diff[i] == 0 by { if i < d { assert low[i] == 0; } }
      XorEqualZero(c[i], sq[i]);
      SqrFixed(F, c[i]);
    }
  }

  lemma {:induction false} DifferenceVanishes(F: Field, flags: seq<bool>, x: nat)
    requires F.Ok() && |flags| == F.N() && HasHalves(F.N(), flags) && F.El(x)
    requires IsChosen(F, flags, x)
    ensures var c := Product(F, flags);
            IsPoly(F, XorSeq(c, SqrCoefs(F, c))) && Eval(F, XorSeq(c, SqrCoefs(F, c)), x) == 0
  {
    hide A, GfMul, GfSqr, Xor, F.Ok, Product, Eval, SqrCoefs, XorSeq, Count;
    var n := F.N();
    var c := Product(F, flags);
    var h := ChosenRoot(F, flags, x);
    EvalSqrCoefs(F, c, A(F, h));
    FieldShape(F);
    SqrIsMul(F, 0);
    MulZero(F, 0);
    EvalAdd(F, c, SqrCoefs(F, c), x);
    XorZero(0);
  }

  lemma {:induction false} HalfPower(F: Field, h: nat)
    requires F.Ok() && h < F.N()
    ensures A(F, ModS(F.N(), 2 * h)) == GfSqr(F, A(F, h))
  {
    hide A, GfSqr, F.Ok;
    SqrPower(F, h);
    if 2 * h >= F.N() { APeriod(F, 2 * h - F.N()); }
  }

  /** A chosen root is the square of another chosen root; the product vanishes at both. */
  lemma {:induction false} ChosenRoot(F: Field, flags: seq<bool>, x: nat) returns (h: nat)
    requires F.Ok() && |flags| == F.N() && HasHalves(F.N(), flags) && F.El(x)
    requires IsChosen(F, flags, x)
    ensures x == GfSqr(F, A(F, h))
    ensures Eval(F, Product(F, flags), x) == 0 && Eval(F, Product(F, flags), A(F, h)) == 0
  {
    hide A, GfSqr, F.Ok, Product, Eval, Count, ModS;
    var k :| 0 <= k < |flags| && flags[k] && x == A(F, k);
    h :| 0 <= h < F.N() && flags[h] && k == ModS(F.N(), 2 * h);
    ProductRoots(F, flags, k);
    ProductRoots(F, flags, h);
    HalfPower(F, h);
  }

  // ----- the exponents the codec chooses: cyclotomic cosets of the odd numbers below 2t

  /** r doubled j times modulo n. */
  function Doubled(n: nat, r: nat, j: nat): (k: nat)
    requires r < n
    ensures k < n
  {
    if j == 0 then r else ModS(n, 2 * Doubled(n, r, j - 1))
  }

  ghost predicate InCoset(n: nat, m: nat, t: nat, k: nat)
    requires 2 * t <= n
  {
    exists r, j :: 0 <= r < 2 * t && r % 2 == 1 && 0 <= j < m && k == Doubled(n, r, j)
  }

  lemma {:induction false} DoubledValue(n: nat, r: nat, j: nat)
    requires r < n
    ensures Doubled(n, r, j) == (r * Pow2(j)) % n
  {
    if j == 0 {
      ModBelow(r, n);
    } else {
      DoubledValue(n, r, j - 1);
      var v := r * Pow2(j - 1);
      DoubleScale(r, j);
      ModAddMod(v, v, n);
      assert v + v == r * Pow2(j);
      var h := v % n;
      if 2 * h >= n { ModSub(2 * h - n, n); ModBelow(2 * h - n, n); } else { ModBelow(2 * h, n); }
    }
  }

  /** Doubling m times modulo 2^m - 1 is the identity. */
  lemma {:induction false} DoubledPeriod(m: nat, r: nat)
    requires r < Order(m)
    ensures Doubled(Order(m), r, m) == r
  {
    var n := Order(m);
    DoubledValue(n, r, m);
    assert r * Pow2(m) == r + r * n;
    ModAddMultiple(r, r, n);
    ModBelow(r, n);
  }

  ghost function GenFlags(m: nat, t: nat): (f: seq<bool>)
    requires 2 * t <= Order(m)
    ensures |f| == Order(m)
  {
    seq(Order(m), k requires 0 <= k < Order(m) => InCoset(Order(m), m, t, k))
  }

  lemma {:induction false} GenFlagsHasHalves(m: nat, t: nat)
    requires m > 0 && 2 * t <= Order(m)
    ensures HasHalves(Order(m), GenFlags(m, t))
  {
    var n := Order(m);
    var f := GenFlags(m, t);
    forall k | 0 <= k < n && f[k]
      ensures exists h :: 0 <= h < n && f[h] && k == ModS(n, 2 * h)
    {
      var r, j :| 0 <= r < 2 * t && r % 2 == 1 && 0 <= j < m && k == Doubled(n, r, j);
      var j' := if j == 0 then m - 1 else j - 1;
      if j == 0 { DoubledPeriod(m, r); }
      var h := Doubled(n, r, j');
      assert InCoset(n, m, t, h);
      assert f[h];
    }
  }

  /** The cosets reach every exponent from 1 to 2t. */
  lemma {:induction false} GenFlagsCover(m: nat, t: nat, k: nat)
    requires m > 0 && 2 * t < Order(m) && 1 <= k <= 2 * t
    ensures InCoset(Order(m), m, t, k)
    decreases k
  {
    var n := Order(m);
    if k % 2 == 1 {
      assert k == Doubled(n, k, 0);
    } else {
      GenFlagsCover(m, t, k / 2);
      var r, j :| 0 <= r < 2 * t && r % 2 == 1 && 0 <= j < m && k / 2 == Doubled(n, r, j);
      assert k == Doubled(n, r, j + 1);
      if j + 1 == m {
        DoubledPeriod(m, r);
      }
    }
  }

  // ----- the generator as a number

  /** The number whose bits tell which coefficients are nonzero. */
  ghost function BinVal(c: seq<nat>): nat {
    if c == [] then 0 else (if c[0] != 0 then 1 else 0) + 2 * BinVal(c[1..])
  }

  lemma {:induction false} BinValEval(F: Field, c: seq<nat>, x: nat)
    requires F.Ok() && F.El(x) && IsPoly(F, c)
    requires forall i :: 0 <= i < |c| ==> c[i] == 0 || c[i] == 1
    ensures EvalBin(F, BinVal(c), x) == Eval(F, c, x)
  {
    if c != [] {
      BinValEval(F, c[1..], x);
      hide Xor, GfMul, F.Ok, EvalBin;
      var v := BinVal(c);
      EvalBinUnfold(F, v, x);
      assert v % 2 == c[0] && v / 2 == BinVal(c[1..]);
    }
  }

  lemma {:induction false} BinValBounds(c: seq<nat>)
    ensures BinVal(c) < Pow2(|c|)
    ensures c != [] && c[|c| - 1] != 0 ==> BinVal(c) >= Pow2(|c| - 1)
  {
    if c != [] {
      BinValBounds(c[1..]);
    }
  }

  lemma {:induction false} BinValConcat(c: seq<nat>, d: seq<nat>)
    ensures BinVal(c + d) == BinVal(c) + Pow2(|c|) * BinVal(d)
  {
    if c == [] {
      assert c + d == d;
    } else {
      BinValConcat(c[1..], d);
      assert (c + d)[1..] == c[1..] + d;
      assert Pow2(|c|) * BinVal(d) == 2 * (Pow2(|c| - 1) * BinVal(d));
    }
  }

  /** The degree of the generator polynomial: the exact number of parity bits. */
  ghost function EccBits(m: nat, t: nat): nat
    requires 2 * t <= Order(m)
  {
    Count(GenFlags(m, t))
  }

  ghost function GenPoly(F: Field, t: nat): nat
    requires F.Ok() && 2 * t <= F.N()
  {
    BinVal(Product(F, GenFlags(F.m, t)))
  }

  /** The generator is a binary polynomial of degree EccBits with roots a, a^2, ..., a^2t. */
  lemma {:induction false} GeneratorRoots(F: Field, t: nat, k: nat)
    requires F.Ok() && 2 * t < F.N() && 1 <= k <= 2 * t
    ensures IsDivisor(GenPoly(F, t), EccBits(F.m, t))
    ensures EvalBin(F, GenPoly(F, t), A(F, k)) == 0
  {
    GeneratorDegree(F, t);
    hide A, GfMul, Xor, F.Ok, Product, Eval, EvalBin, BinVal, Count, InCoset;
    FieldShape(F);
    var flags := GenFlags(F.m, t);
    var c := Product(F, flags);
    GenFlagsHasHalves(F.m, t);
    BinaryCoefficients(F, flags);
    BinValEval(F, c, A(F, k));
    GenFlagsCover(F.m, t, k);
    ProductRoots(F, flags, k);
  }

  lemma {:induction false} GeneratorDegree(F: Field, t: nat)
    requires F.Ok() && 2 * t <= F.N()
    ensures IsDivisor(GenPoly(F, t), EccBits(F.m, t))
  {
    hide A, GfMul, Xor, F.Ok, Product, Count;
    var c := Product(F, GenFlags(F.m, t));
    ProductMonic(F, GenFlags(F.m, t));
    BinValBounds(c);
  }
}
