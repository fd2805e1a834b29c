/** The trace of GF(2^m) over GF(2), x + x^2 + x^4 + ..., and the map z^2 + z whose values are the elements of
    trace 0. */
module TraceMap {
  import opened Common
  import opened Gf2
  import opened GaloisField
  import opened FieldLaws
  import opened FieldPoly
  import opened Generator

  ghost function Frob(F: Field, x: nat, j: nat): (y: nat)
    requires F.Ok() && F.El(x)
    ensures F.El(y)
  {
    if j == 0 then x else GfSqr(F, Frob(F, x, j - 1))
  }

  /** x + x^2 + x^4 + ..., j terms. */
  ghost function TraceSum(F: Field, x: nat, j: nat): (y: nat)
    requires F.Ok() && F.El(x)
    ensures F.El(y)
  {
    FieldShape(F);
    if j == 0 then 0
    else
      XorBound(TraceSum(F, x, j - 1), Frob(F, x, j - 1), F.m);
      Xor(TraceSum(F, x, j - 1), Frob(F, x, j - 1))
  }

  ghost function Trace(F: Field, x: nat): nat
    requires F.Ok() && F.El(x)
  {
    TraceSum(F, x, F.m)
  }

  lemma {:induction false} FrobStep(F: Field, x: nat, j: nat)
    requires F.Ok() && F.El(x)
    ensures Frob(F, x, 0) == x && Frob(F, x, j + 1) == GfSqr(F, Frob(F, x, j))
  {
  }

  lemma {:induction false} TraceStep(F: Field, x: nat, j: nat)
    requires F.Ok() && F.El(x)
    ensures TraceSum(F, x, 0) == 0 && TraceSum(F, x, j + 1) == Xor(TraceSum(F, x, j), Frob(F, x, j))
  {
  }

  lemma {:induction false} FrobPower(F: Field, i: nat, j: nat)
    requires F.Ok()
    ensures Frob(F, A(F, i), j) == A(F, i * Pow2(j))
  {
    assert Pow2(0) == 1;
    hide F.Ok, Frob, A, GfSqr, Pow2;
    if j == 0 {
      FrobStep(F, A(F, i), 0);
      assert i * 1 == i;
    } else {
      FrobPower(F, i, j - 1);
      FrobStep(F, A(F, i), j - 1);
      SqrPower(F, i * Pow2(j - 1));
      Pow2Double(j);
      DoubleProduct(i, Pow2(j - 1));
    }
  }

  /** x^(2^m) = x. */
  lemma {:induction false} FrobFull(F: Field, x: nat)
    requires F.Ok() && F.El(x)
    ensures Frob(F, x, F.m) == x
  {
    hide F.Ok, Frob, A, GfSqr, Pow2;
    if x == 0 {
      FrobZero(F, F.m);
    } else {
      LogEntry(F, x);
      ALog(F, x);
      var i := F.log[x];
      FrobPower(F, i, F.m);
      assert i * Pow2(F.m) == i * F.N() + i;
      AMultiple(F, i, i);
    }
  }

  lemma {:induction false} AMultiple(F: Field, i: nat, k: nat)
    requires F.Ok()
    ensures k * F.N() >= 0 && A(F, k * F.N() + i) == A(F, i)
  {
    hide F.Ok, A, Pow2;
    if k > 0 {
      AMultiple(F, i, k - 1);
      assert k * F.N() == (k - 1) * F.N() + F.N();
      APeriod(F, (k - 1) * F.N() + i);
    }
  }

  lemma {:induction false} FrobZero(F: Field, j: nat)
    requires F.Ok()
    ensures F.El(0) && Frob(F, 0, j) == 0
  {
    hide F.Ok, Frob, Pow2;
    FieldShape(F);
    FrobStep(F, 0, if j == 0 then 0 else j - 1);
    if j > 0 {
      FrobZero(F, j - 1);
      SqrIsMul(F, 0);
      MulZero(F, 0);
    }
  }

  lemma {:induction false} FrobAdd(F: Field, x: nat, y: nat, j: nat)
    requires F.Ok() && F.El(x) && F.El(y)
    ensures F.El(Xor(x, y)) && Frob(F, Xor(x, y), j) == Xor(Frob(F, x, j), Frob(F, y, j))
  {
    hide F.Ok, Frob, GfSqr, Pow2, Xor;
    XorBound(x, y, F.m);
    FrobStep(F, x, if j == 0 then 0 else j - 1);
    FrobStep(F, y, if j == 0 then 0 else j - 1);
    FrobStep(F, Xor(x, y), if j == 0 then 0 else j - 1);
    if j > 0 {
      FrobAdd(F, x, y, j - 1);
      SqrXor(F, Frob(F, x, j - 1), Frob(F, y, j - 1));
    }
  }

  lemma {:induction false} TraceAdd(F: Field, x: nat, y: nat, j: nat)
    requires F.Ok() && F.El(x) && F.El(y)
    ensures F.El(Xor(x, y)) && TraceSum(F, Xor(x, y), j) == Xor(TraceSum(F, x, j), TraceSum(F, y, j))
  {
    hide F.Ok, Frob, TraceSum, Pow2, Xor;
    XorBound(x, y, F.m);
    TraceStep(F, x, if j == 0 then 0 else j - 1);
    TraceStep(F, y, if j == 0 then 0 else j - 1);
    TraceStep(F, Xor(x, y), if j == 0 then 0 else j - 1);
    if j == 0 {
      XorZero(0);
    } else {
      TraceAdd(F, x, y, j - 1);
      FrobAdd(F, x, y, j - 1);
      XorSwap4(TraceSum(F, x, j - 1), TraceSum(F, y, j - 1), Frob(F, x, j - 1), Frob(F, y, j - 1));
    }
  }

  lemma {:induction false} FrobSqr(F: Field, x: nat, j: nat)
    requires F.Ok() && F.El(x)
    ensures Frob(F, GfSqr(F, x), j) == Frob(F, x, j + 1)
  {
    hide F.Ok, Frob, GfSqr, Pow2;
    FrobStep(F, x, j);
    FrobStep(F, GfSqr(F, x), if j == 0 then 0 else j - 1);
    FrobStep(F, x, 0);
    if j > 0 {
      FrobSqr(F, x, j - 1);
    }
  }

  /** Squaring shifts the terms of the sum by one. */
  lemma {:induction false} TraceSqr(F: Field, x: nat, j: nat)
    requires F.Ok() && F.El(x)
    ensures Xor(TraceSum(F, GfSqr(F, x), j), TraceSum(F, x, j)) == Xor(x, Frob(F, x, j))
  {
    hide F.Ok, Frob, TraceSum, GfSqr, Pow2, Xor;
    var y := GfSqr(F, x);
    if j == 0 {
      TraceStep(F, x, 0);
      TraceStep(F, y, 0);
      FrobStep(F, x, 0);
      XorSelf(0);
      XorSelf(x);
    } else {
      TraceSqr(F, x, j - 1);
      TraceStep(F, x, j - 1);
      TraceStep(F, y, j - 1);
      FrobSqr(F, x, j - 1);
      var a, b, f, g := TraceSum(F, y, j - 1), TraceSum(F, x, j - 1), Frob(F, x, j - 1), Frob(F, x, j);
      XorSwap4(a, g, b, f);
      XorSwap4(x, f, g, f);
      XorSelf(f);
      XorZero(Xor(x, g));
      XorComm(g, f);
    }
  }

  ghost function Artin(F: Field, x: nat): (y: nat)
    requires F.Ok() && F.El(x)
    ensures F.El(y)
  {
    XorBound(GfSqr(F, x), x, F.m);
    Xor(GfSqr(F, x), x)
  }

  /** z^2 + z has trace 0. */
  lemma {:induction false} TraceOfArtin(F: Field, x: nat)
    requires F.Ok() && F.El(x)
    ensures Trace(F, Artin(F, x)) == 0
  {
    hide F.Ok, Frob, TraceSum, GfSqr, Pow2, Xor;
    TraceAdd(F, GfSqr(F, x), x, F.m);
    TraceSqr(F, x, F.m);
    FrobFull(F, x);
    XorSelf(x);
  }

  lemma {:induction false} ArtinAdd(F: Field, x: nat, y: nat)
    requires F.Ok() && F.El(x) && F.El(y)
    ensures F.El(Xor(x, y)) && Artin(F, Xor(x, y)) == Xor(Artin(F, x), Artin(F, y))
  {
    hide F.Ok, GfSqr, Pow2, Xor;
    SqrXor(F, x, y);
    XorSwap4(GfSqr(F, x), GfSqr(F, y), x, y);
  }

  // ----- bits as powers of a

  /** The low powers of a are the bits. */
  lemma {:induction false} ABit(F: Field, i: nat)
    requires F.Ok() && i < F.m
    ensures A(F, i) == Pow2(i)
    decreases i
  {
    hide F.Ok, Xor;
    FieldShape(F);
    if i > 0 {
      ABit(F, i - 1);
      assert APow(F.poly, F.m, i) == Step(F.poly, F.m, APow(F.poly, F.m, i - 1), 0);
      StepDef(F.poly, F.m, Pow2(i - 1), 0);
      Pow2Mono(i, F.m - 1);
    }
  }

  lemma {:induction false} ClearTop(x: nat)
    requires x > 0
    ensures Xor(x, Pow2(Deg(x))) == x - Pow2(Deg(x))
  {
    hide Pow2, Xor, Deg;
    var d := Deg(x);
    var y := x - Pow2(d);
    Pow2Double(d + 1);
    XorDisjoint(1, y, d);
    XorSolve(Pow2(d), y);
    XorComm(x, Pow2(d));
  }

  // ----- the trace is 0 or 1, and not always 0

  lemma {:induction false} SumSqr(F: Field, x: nat, j: nat)
    requires F.Ok() && F.El(x)
    ensures GfSqr(F, TraceSum(F, x, j)) == TraceSum(F, GfSqr(F, x), j)
  {
    hide F.Ok, Frob, TraceSum, GfSqr, Pow2, Xor;
    var y := GfSqr(F, x);
    TraceStep(F, x, if j == 0 then 0 else j - 1);
    TraceStep(F, y, if j == 0 then 0 else j - 1);
    if j == 0 {
      FieldShape(F);
      SqrIsMul(F, 0);
      MulZero(F, 0);
    } else {
      SumSqr(F, x, j - 1);
      SqrXor(F, TraceSum(F, x, j - 1), Frob(F, x, j - 1));
      FrobSqr(F, x, j - 1);
      FrobStep(F, x, j - 1);
    }
  }

  lemma {:induction false} TraceBit(F: Field, x: nat)
    requires F.Ok() && F.El(x)
    ensures Trace(F, x) == 0 || Trace(F, x) == 1
  {
    hide F.Ok, Frob, TraceSum, GfSqr, Pow2, Xor;
    SumSqr(F, x, F.m);
    TraceSqr(F, x, F.m);
    FrobFull(F, x);
    XorSelf(x);
    XorEqualZero(TraceSum(F, GfSqr(F, x), F.m), TraceSum(F, x, F.m));
    SqrFixed(F, TraceSum(F, x, F.m));
  }

  /** The coefficients of X + X^2 + X^4 + ..., j + 1 terms. */
  ghost function TraceCoefs(j: nat): (c: seq<nat>)
    ensures |c| == Pow2(j) + 1 && c[Pow2(j)] == 1 && forall i :: 0 <= i < |c| ==> c[i] == 0 || c[i] == 1
  {
    if j == 0 then [0, 1] else TraceCoefs(j - 1) + (Zeros(Pow2(j - 1) - 1) + [1])
  }

  lemma {:induction false} ZerosValue(n: nat)
    ensures BinVal(Zeros(n) + [1]) == Pow2(n)
  {
    if n > 0 {
      ZerosValue(n - 1);
      assert (Zeros(n) + [1])[1..] == Zeros(n - 1) + [1];
    } else {
      assert Zeros(0) + [1] == [1];
      assert BinVal([1]) == 1 + 2 * BinVal([]);
    }
  }

  lemma {:induction false} CoefsStep(j: nat)
    ensures BinVal(TraceCoefs(j + 1)) == Xor(BinVal(TraceCoefs(j)), Pow2(Pow2(j + 1)))
  {
    var c, d := TraceCoefs(j), Zeros(Pow2(j) - 1) + [1];
    assert TraceCoefs(j + 1) == c + d;
    Pow2Double(j + 1);
    hide *;
    ZerosValue(Pow2(j) - 1);
    AppendTerm(c, d, Pow2(j) - 1);
  }

  lemma {:induction false} AppendTerm(c: seq<nat>, d: seq<nat>, n: nat)
    requires BinVal(d) == Pow2(n)
    ensures BinVal(c + d) == Xor(BinVal(c), Pow2(|c| + n))
  {
    hide *;
    var v, k := BinVal(c), |c| + n;
    BinValConcat(c, d);
    BinValBounds(c);
    Pow2Add(|c|, n);
    Pow2Mono(|c|, k);
    XorDisjoint(1, v, k);
    XorComm(v, Pow2(k));
  }

  lemma {:induction false} FirstCoefs()
    ensures BinVal(TraceCoefs(0)) == Pow2(1) && Pow2(0) == 1
  {
    var c := TraceCoefs(0);
    assert c == [0, 1] && c[1..] == [1] && c[1..][1..] == [];
    assert BinVal(c) == 2 * BinVal([1]) && BinVal([1]) == 1 + 2 * BinVal([1][1..]);
  }

  lemma {:induction false} FirstValue(F: Field, i: nat)
    requires F.Ok()
    ensures EvalBin(F, BinVal(TraceCoefs(0)), A(F, i)) == TraceSum(F, A(F, i), 1)
  {
    hide *;
    var x := A(F, i);
    FirstCoefs();
    EvalBinPower(F, 1, i);
    FrobStep(F, x, 0);
    TraceStep(F, x, 0);
    XorComm(0, x);
    XorZero(x);
  }

  lemma {:induction false} CoefsValue(F: Field, i: nat, j: nat)
    requires F.Ok()
    ensures EvalBin(F, BinVal(TraceCoefs(j)), A(F, i)) == TraceSum(F, A(F, i), j + 1)
  {
    hide *;
    if j == 0 {
      FirstValue(F, i);
    } else {
      var x := A(F, i);
      CoefsValue(F, i, j - 1);
      CoefsStep(j - 1);
      EvalBinPower(F, Pow2(j), i);
      FrobPower(F, i, j);
      TraceStep(F, x, j);
      EvalBinLinear(F, BinVal(TraceCoefs(j - 1)), Pow2(Pow2(j)), x);
    }
  }

  /** All nonzero elements. */
  ghost function Nonzero(F: Field): (s: seq<nat>)
    requires F.Ok()
    ensures |s| == F.N() && forall i :: 0 <= i < |s| ==> s[i] == A(F, i)
  {
    seq(F.N(), i requires 0 <= i < F.N() => A(F, i))
  }

  lemma {:induction false} TooManyRoots(F: Field, c: seq<nat>)
    requires F.Ok() && IsPoly(F, c) && |c| <= F.N() && forall i: nat :: i < F.N() ==> Eval(F, c, A(F, i)) == 0
    ensures AllZero(c)
  {
    hide *;
    var roots := Nonzero(F);
    forall i, j | 0 <= i < j < |roots| ensures roots[i] != roots[j] {
      if A(F, i) == A(F, j) { AInjective(F, i, j); }
    }
    RootsIn(F, roots);
    RootsBound(F, c, roots);
  }

  lemma {:induction false} RootsIn(F: Field, roots: seq<nat>)
    requires F.Ok() && forall i :: 0 <= i < |roots| ==> roots[i] == A(F, i)
    ensures IsPoly(F, roots)
  {
    hide A;
  }

  lemma {:induction false} CoefsArePoly(F: Field, j: nat)
    requires F.Ok() && j + 1 < F.m + 1 && F.m > 1
    ensures IsPoly(F, TraceCoefs(j)) && !AllZero(TraceCoefs(j)) && |TraceCoefs(j)| <= F.N()
  {
    hide TraceCoefs, F.Ok;
    FieldShape(F);
    Pow2Mono(1, F.m);
    Pow2Mono(j + 1, F.m);
    Pow2Mono(2, F.m);
    assert TraceCoefs(j)[Pow2(j)] != 0;
  }

  /** Some element has trace 1: the trace is a polynomial of degree 2^(m-1), too low for 2^m roots. */
  lemma {:induction false} SomeTrace(F: Field) returns (x: nat)
    requires F.Ok() && F.m > 1
    ensures F.El(x) && Trace(F, x) == 1
  {
    hide F.Ok, TraceSum, TraceCoefs, IsPoly, AllZero, EvalBin, Eval, A, Pow2, BinVal;
    var c := TraceCoefs(F.m - 1);
    CoefsArePoly(F, F.m - 1);
    if forall i: nat :: i < F.N() ==> TraceSum(F, A(F, i), F.m) == 0 {
      forall i: nat | i < F.N() ensures Eval(F, c, A(F, i)) == 0 {
        CoefsValue(F, i, F.m - 1);
        BinValEval(F, c, A(F, i));
      }
      TooManyRoots(F, c);
      assert false;
    } else {
      var i: nat :| i < F.N() && TraceSum(F, A(F, i), F.m) != 0;
      x := A(F, i);
      TraceBit(F, x);
    }
  }

  /** An element w whose multiples by the first m powers of a all have trace 0: then all its multiples have. */
  lemma {:induction false} AllTraces(F: Field, w: nat, v: nat)
    requires F.Ok() && F.El(w) && F.El(v) && forall i: nat :: i < F.m ==> Trace(F, GfMul(F, A(F, i), w)) == 0
    ensures Trace(F, GfMul(F, v, w)) == 0
    decreases v
  {
    hide F.Ok, TraceSum, GfMul, A, Pow2, Xor, Deg;
    if v == 0 {
      MulZero(F, w);
      MulComm(F, 0, w);
      TraceZero(F);
    } else {
      var d := Deg(v);
      if d >= F.m { Pow2Mono(F.m, d); assert false; }
      ClearTop(v);
      ABit(F, d);
      var u := Xor(v, Pow2(d));
      AllTraces(F, w, u);
      XorSolve(v, Pow2(d));
      MulDistrib(F, w, u, Pow2(d));
      MulComm(F, w, u);
      MulComm(F, w, Pow2(d));
      MulComm(F, w, v);
      TraceAdd(F, GfMul(F, u, w), GfMul(F, Pow2(d), w), F.m);
      XorZero(0);
    }
  }

  lemma {:induction false} TraceZero(F: Field)
    requires F.Ok()
    ensures F.El(0) && Trace(F, 0) == 0
  {
    hide F.Ok, TraceSum, GfMul, A, Pow2, Xor;
    FieldShape(F);
    XorSelf(0);
    TraceAdd(F, 0, 0, F.m);
    XorSelf(TraceSum(F, 0, F.m));
  }

  /** Some power of a between a and a^m gives two different elements different traces. */
  lemma {:induction false} Separates(F: Field, x: nat, y: nat) returns (k: nat)
    requires F.Ok() && F.m > 1 && F.El(x) && F.El(y) && x != y
    ensures 1 <= k <= F.m && Trace(F, GfMul(F, A(F, k), x)) != Trace(F, GfMul(F, A(F, k), y))
  {
    hide F.Ok, TraceSum, GfMul, GfDiv, A, Pow2, Xor;
    XorBound(x, y, F.m);
    if Xor(x, y) == 0 { XorEqualZero(x, y); assert false; }
    var z := Xor(x, y);
    var w := GfMul(F, A(F, 1), z);
    MulNonzero(F, A(F, 1), z);
    if forall i: nat :: i < F.m ==> Trace(F, GfMul(F, A(F, i), w)) == 0 {
      var s := SomeTrace(F);
      AllTraces(F, w, GfDiv(F, s, w));
      DivMul(F, s, w);
      assert false;
    } else {
      var i: nat :| i < F.m && Trace(F, GfMul(F, A(F, i), w)) != 0;
      k := i + 1;
      MulAssoc(F, A(F, i), A(F, 1), z);
      MulPowers(F, i, 1);
      MulDistrib(F, A(F, k), x, y);
      TraceAdd(F, GfMul(F, A(F, k), x), GfMul(F, A(F, k), y), F.m);
      XorSelf(Trace(F, GfMul(F, A(F, k), x)));
    }
  }

  // ----- the elements of trace 0 are the values of z^2 + z

  lemma {:induction false} ArtinSame(F: Field, x: nat, y: nat)
    requires F.Ok() && F.El(x) && F.El(y) && x % 2 == y % 2 && Artin(F, x) == Artin(F, y)
    ensures x == y
  {
    hide F.Ok, GfSqr, Pow2, Xor;
    ArtinAdd(F, x, y);
    XorSelf(Artin(F, x));
    var z := Xor(x, y);
    XorEqualZero(GfSqr(F, z), z);
    SqrFixed(F, z);
    XorHalves(x, y);
    XorEqualZero(x, y);
  }

  ghost function EvenValue(F: Field, i: nat): (v: nat)
    requires F.Ok() && F.m > 1 && i < Pow2(F.m - 1)
    ensures F.El(2 * i) && v == Artin(F, 2 * i)
  {
    hide F.Ok, Artin, GfSqr;
    Pow2Double(F.m);
    Artin(F, 2 * i)
  }

  /** The values at even elements, and then the same plus s; all raised by one, for counting. */
  ghost function Values(F: Field, s: nat): (r: seq<nat>)
    requires F.Ok() && F.m > 1 && F.El(s)
    ensures |r| == Pow2(F.m)
    ensures forall i: nat :: i < Pow2(F.m - 1) ==> r[i] == EvenValue(F, i) + 1
    ensures forall i: nat :: i < Pow2(F.m - 1) ==> r[Pow2(F.m - 1) + i] == Xor(EvenValue(F, i), s) + 1
  {
    hide F.Ok, EvenValue, Xor;
    Pow2Double(F.m);
    var h := Pow2(F.m - 1);
    seq(h, i requires 0 <= i < h => EvenValue(F, i) + 1) + seq(h, i requires 0 <= i < h => Xor(EvenValue(F, i), s) + 1)
  }

  lemma {:induction false} ValueTraces(F: Field, s: nat, x: nat)
    requires F.Ok() && F.El(s) && Trace(F, s) == 1 && F.El(x)
    ensures Trace(F, Artin(F, x)) == 0 && F.El(Xor(Artin(F, x), s)) && Trace(F, Xor(Artin(F, x), s)) == 1
  {
    hide F.Ok, TraceSum, Artin, Pow2, Xor;
    TraceOfArtin(F, x);
    TraceAdd(F, Artin(F, x), s, F.m);
    XorComm(0, 1);
    XorZero(1);
  }

  lemma {:induction false} ValuesDistinct(F: Field, s: nat, i: nat, j: nat)
    requires F.Ok() && F.m > 1 && F.El(s) && Trace(F, s) == 1 && i < j < Pow2(F.m)
    ensures Values(F, s)[i] != Values(F, s)[j]
  {
    hide F.Ok, TraceSum, Artin, Values, Xor, Trace;
    Pow2Double(F.m);
    var h, r := Pow2(F.m - 1), Values(F, s);
    hide Pow2;
    var p, q := if i < h then i else i - h, if j < h then j else j - h;
    assert EvenValue(F, p) == Artin(F, 2 * p) && EvenValue(F, q) == Artin(F, 2 * q);
    ValueTraces(F, s, 2 * p);
    ValueTraces(F, s, 2 * q);
    XorSolve(Artin(F, 2 * p), s);
    XorSolve(Artin(F, 2 * q), s);
    if Artin(F, 2 * p) == Artin(F, 2 * q) { ArtinSame(F, 2 * p, 2 * q); }
    assert i < h ==> r[i] == Artin(F, 2 * p) + 1;
    assert i >= h ==> r[h + p] == Xor(Artin(F, 2 * p), s) + 1;
    assert j < h ==> r[j] == Artin(F, 2 * q) + 1;
    assert j >= h ==> r[h + q] == Xor(Artin(F, 2 * q), s) + 1;
  }

  lemma {:induction false} ValueRange(F: Field, s: nat, i: nat) returns (p: nat)
    requires F.Ok() && F.m > 1 && F.El(s) && Trace(F, s) == 1 && i < Pow2(F.m)
    ensures F.El(p) && (Values(F, s)[i] == Artin(F, p) + 1 || Values(F, s)[i] == Xor(Artin(F, p), s) + 1)
    ensures 1 <= Values(F, s)[i] <= Pow2(F.m)
  {
    hide F.Ok, TraceSum, Artin, Values, Xor, Trace;
    Pow2Double(F.m);
    var h, r := Pow2(F.m - 1), Values(F, s);
    hide Pow2;
    var q := if i < h then i else i - h;
    p := 2 * q;
    assert EvenValue(F, q) == Artin(F, 2 * q);
    ValueTraces(F, s, p);
    assert i < h ==> r[i] == Artin(F, 2 * q) + 1;
    assert i >= h ==> r[h + q] == Xor(Artin(F, 2 * q), s) + 1;
  }

  /** Every element of trace 0 is z^2 + z for some z. */
  lemma {:induction false} ArtinOnto(F: Field, u: nat) returns (z: nat)
    requires F.Ok() && F.m > 1 && F.El(u) && Trace(F, u) == 0
    ensures F.El(z) && Artin(F, z) == u
  {
    hide F.Ok, TraceSum, Artin, Values, Xor, Trace, Pow2;
    var s := SomeTrace(F);
    var r := Values(F, s);
    forall i, j | 0 <= i < j < |r| ensures r[i] != r[j] { ValuesDistinct(F, s, i, j); }
    forall i | 0 <= i < |r| ensures 1 <= r[i] <= |r| { var p := ValueRange(F, s, i); }
    Pigeonhole(r, u + 1);
    var i :| 0 <= i < |r| && r[i] == u + 1;
    z := ValueRange(F, s, i);
    ValueTraces(F, s, z);
  }
}
