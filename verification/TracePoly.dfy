/** The trace of a^k X modulo a polynomial f: at every root x of f it has the trace of a^k x as its value. */
module TracePoly {
  import opened Gf2
  import opened GaloisField
  import opened FieldLaws
  import opened FieldPoly
  import opened TraceMap
  import opened EuclidChain

  // ----- squares

  /** The square of a polynomial: squared coefficients at even places. */
  ghost function SquareOf(F: Field, z: seq<nat>): (s: seq<nat>)
    requires F.Ok() && IsPoly(F, z) && |z| >= 1
    ensures |s| == 2 * |z| - 1 && IsPoly(F, s)
    ensures forall i :: 0 <= i < |s| ==> s[i] == if i % 2 == 0 then GfSqr(F, z[i / 2]) else 0
  {
    FieldShape(F);
    seq(2 * |z| - 1, i requires 0 <= i < 2 * |z| - 1 => if i % 2 == 0 then GfSqr(F, z[i / 2]) else 0)
  }

  lemma {:induction false} SqrNonzero(F: Field, x: nat)
    requires F.Ok() && F.El(x) && x != 0
    ensures GfSqr(F, x) != 0
  {
    hide F.Ok, GfMul;
    SqrIsMul(F, x);
    MulNonzero(F, x, x);
  }

  lemma {:induction false} SquareTrimmed(F: Field, z: seq<nat>)
    requires F.Ok() && Trimmed(F, z)
    ensures Trimmed(F, SquareOf(F, z))
  {
    hide F.Ok, GfSqr;
    if |z| > 1 { SqrNonzero(F, z[|z| - 1]); }
  }

  /** Evaluation from the lowest coefficient. */
  lemma {:induction false} EvalCons(F: Field, c0: nat, c: seq<nat>, x: nat)
    requires F.Ok() && F.El(c0) && IsPoly(F, c) && F.El(x)
    ensures IsPoly(F, [c0] + c) && Eval(F, [c0] + c, x) == Xor(c0, GfMul(F, x, Eval(F, c, x)))
  {
    hide F.Ok, GfMul, Xor;
    assert ([c0] + c)[1..] == c;
  }

  lemma {:induction false} EvalSquare(F: Field, z: seq<nat>, x: nat)
    requires F.Ok() && IsPoly(F, z) && |z| >= 1 && F.El(x)
    ensures Eval(F, SquareOf(F, z), x) == GfSqr(F, Eval(F, z, x))
  {
    hide F.Ok, GfMul, GfSqr, Xor, Eval;
    var s := SquareOf(F, z);
    if |z| == 1 {
      ConstantValue(F, z, x);
      ConstantValue(F, s, x);
    } else {
      var rest := z[1..];
      var t := SquareOf(F, rest);
      EvalSquare(F, rest, x);
      FieldShape(F);
      assert s == [GfSqr(F, z[0])] + ([0] + t);
      assert z == [z[0]] + rest;
      EvalCons(F, 0, t, x);
      EvalCons(F, GfSqr(F, z[0]), [0] + t, x);
      EvalCons(F, z[0], rest, x);
      var v := Eval(F, rest, x);
      var v2, x2 := GfSqr(F, v), GfSqr(F, x);
      XorZero(GfMul(F, x, v2));
      MulAssoc(F, x, x, v2);
      SqrIsMul(F, x);
      SqrXor(F, z[0], GfMul(F, x, v));
      SqrMul(F, x, v);
    }
  }

  // ----- the powers of a^k X modulo f

  /** z_0 = a^k X, and every further one is the square of the one before modulo f. */
  ghost predicate IsPowers(F: Field, k: nat, f: seq<nat>, zs: seq<seq<nat>>)
    requires F.Ok()
  {
    && |zs| >= 1 && zs[0] == [0, A(F, k)] && (forall i :: 0 <= i < |zs| ==> Trimmed(F, zs[i]) && |zs[i]| < |f|)
    && forall i: nat :: i < |zs| - 1 ==> NextPower(F, f, zs, i)
  }

  ghost predicate NextPower(F: Field, f: seq<nat>, zs: seq<seq<nat>>, i: nat)
    requires F.Ok() && i + 1 < |zs|
  {
    Trimmed(F, zs[i]) && RemIs(F, SquareOf(F, zs[i]), f, zs[i + 1])
  }

  lemma {:induction false} PowersUnique(F: Field, k: nat, f: seq<nat>, zs: seq<seq<nat>>, zs': seq<seq<nat>>, i: nat)
    requires F.Ok() && IsPowers(F, k, f, zs) && IsPowers(F, k, f, zs') && i < |zs| && i < |zs'|
    ensures zs[i] == zs'[i]
  {
    hide F.Ok, RemIs, SquareOf, A;
    if i > 0 {
      PowersUnique(F, k, f, zs, zs', i - 1);
      assert NextPower(F, f, zs, i - 1) && NextPower(F, f, zs', i - 1);
      RemUnique(F, SquareOf(F, zs[i - 1]), f, zs[i], zs'[i]);
    }
  }

  lemma {:induction false} PowerValue(F: Field, k: nat, f: seq<nat>, zs: seq<seq<nat>>, i: nat, x: nat)
    requires F.Ok() && IsPowers(F, k, f, zs) && i < |zs| && F.El(x) && Trimmed(F, f) && Eval(F, f, x) == 0
    ensures Trimmed(F, zs[i]) && Eval(F, zs[i], x) == Frob(F, GfMul(F, A(F, k), x), i)
  {
    hide F.Ok, SquareOf, A, GfMul, GfSqr, Frob, Eval, Xor;
    var y := GfMul(F, A(F, k), x);
    if i == 0 {
      FrobStep(F, y, 0);
      FirstPower(F, A(F, k), x);
    } else {
      PowerValue(F, k, f, zs, i - 1, x);
      FrobStep(F, y, i - 1);
      assert NextPower(F, f, zs, i - 1);
      var s := SquareOf(F, zs[i - 1]);
      EvalSquare(F, zs[i - 1], x);
      RemValue(F, s, f, zs[i], x);
    }
  }

  lemma {:induction false} FirstPower(F: Field, a: nat, x: nat)
    requires F.Ok() && F.El(a) && F.El(x)
    ensures IsPoly(F, [0, a]) && Eval(F, [0, a], x) == GfMul(F, a, x)
  {
    hide F.Ok, GfMul, Xor, Eval;
    FieldShape(F);
    ConstantValue(F, [a], x);
    assert [0] + [a] == [0, a];
    EvalCons(F, 0, [a], x);
    XorZero(GfMul(F, x, a));
    MulComm(F, x, a);
  }

  lemma {:induction false} RemValue(F: Field, a: seq<nat>, b: seq<nat>, r: seq<nat>, x: nat)
    requires F.Ok() && RemIs(F, a, b, r) && IsPoly(F, a) && Trimmed(F, b) && F.El(x) && Eval(F, b, x) == 0
             && Trimmed(F, r)
    ensures Eval(F, r, x) == Eval(F, a, x)
  {
    hide F.Ok, DivRem, Eval;
    if |a| >= |b| {
      var q: seq<nat> :| DivRem(F, a, b, q, r);
      DivEval(F, a, b, q, r, x);
    }
  }

  // ----- their sum

  function Coef(c: seq<nat>, i: nat): nat { if i < |c| then c[i] else 0 }

  /** The first n of the polynomials, added coefficient by coefficient. */
  ghost function Total(zs: seq<seq<nat>>, n: nat, len: nat): (c: seq<nat>)
    requires n <= |zs|
    ensures |c| == len
  {
    if n == 0 then seq(len, i => 0) else XorSeq(Total(zs, n - 1, len), Padded(zs[n - 1], len))
  }

  ghost function Padded(c: seq<nat>, len: nat): (p: seq<nat>)
    ensures |p| == len && forall i :: 0 <= i < len ==> p[i] == Coef(c, i)
  {
    seq(len, i requires 0 <= i < len => Coef(c, i))
  }

  lemma {:induction false} PaddedValue(F: Field, c: seq<nat>, len: nat, x: nat)
    requires F.Ok() && IsPoly(F, c) && |c| <= len && F.El(x)
    ensures IsPoly(F, Padded(c, len)) && Eval(F, Padded(c, len), x) == Eval(F, c, x)
    decreases len
  {
    hide F.Ok, Eval;
    FieldShape(F);
    if |c| == len {
      assert Padded(c, len) == c;
    } else {
      PaddedValue(F, c, len - 1, x);
      EvalAppendZero(F, Padded(c, len - 1), x);
      assert Padded(c, len) == Padded(c, len - 1) + [0];
    }
  }

  lemma {:induction false} ZeroTotal(F: Field, len: nat, x: nat)
    requires F.Ok() && F.El(x)
    ensures F.El(0) && IsPoly(F, seq(len, i => 0)) && Eval(F, seq(len, i => 0), x) == 0
  {
    hide F.Ok;
    FieldShape(F);
    EvalZero(F, seq(len, i => 0), x);
  }

  lemma {:induction false} TotalValue(F: Field, k: nat, f: seq<nat>, zs: seq<seq<nat>>, n: nat, x: nat)
    requires F.Ok() && IsPowers(F, k, f, zs) && n <= |zs| && F.El(x) && Trimmed(F, f) && Eval(F, f, x) == 0
    ensures IsPoly(F, Total(zs, n, |f|)) && Eval(F, Total(zs, n, |f|), x) == TraceSum(F, GfMul(F, A(F, k), x), n)
  {
    hide F.Ok, A, GfMul, Frob, TraceSum, Eval, Xor, Padded;
    var y := GfMul(F, A(F, k), x);
    if n == 0 {
      ZeroTotal(F, |f|, x);
      TraceStep(F, y, 0);
    } else {
      TotalValue(F, k, f, zs, n - 1, x);
      TraceStep(F, y, n - 1);
      PowerValue(F, k, f, zs, n - 1, x);
      PaddedValue(F, zs[n - 1], |f|, x);
      EvalAdd(F, Total(zs, n - 1, |f|), Padded(zs[n - 1], |f|), x);
    }
  }

  /** t is the sum of m powers, without leading zeros. */
  ghost predicate IsTrace(F: Field, k: nat, f: seq<nat>, zs: seq<seq<nat>>, t: seq<nat>)
    requires F.Ok()
  {
    IsPowers(F, k, f, zs) && |zs| == F.m && Trimmed(F, t) && |t| < |f| && Padded(t, |f|) == Total(zs, F.m, |f|)
  }

  /** Its value at a root of f. */
  lemma {:induction false} TraceValue(F: Field, k: nat, f: seq<nat>, zs: seq<seq<nat>>, t: seq<nat>, x: nat)
    requires F.Ok() && IsTrace(F, k, f, zs, t) && F.El(x) && Trimmed(F, f) && Eval(F, f, x) == 0
    ensures IsPoly(F, t) && Eval(F, t, x) == Trace(F, GfMul(F, A(F, k), x))
  {
    hide F.Ok, A, GfMul, TraceSum, Eval, Total, IsPowers, Padded;
    TotalValue(F, k, f, zs, F.m, x);
    PaddedValue(F, t, |f|, x);
  }

  lemma {:induction false} TraceUnique(F: Field, k: nat, f: seq<nat>, zs: seq<seq<nat>>, t: seq<nat>,
                                       zs': seq<seq<nat>>, t': seq<nat>)
    requires F.Ok() && IsTrace(F, k, f, zs, t) && IsTrace(F, k, f, zs', t')
    ensures zs == zs' && t == t'
  {
    hide F.Ok, Total, IsPowers;
    forall i | 0 <= i < F.m ensures zs[i] == zs'[i] { PowersUnique(F, k, f, zs, zs', i); }
    assert zs == zs';
    var p := Padded(t, |f|);
    assert forall i :: 0 <= i < |f| ==> p[i] == Coef(t, i) && p[i] == Coef(t', i);
    assert Coef(t, |t| - 1) == Coef(t', |t| - 1);
    assert Coef(t, |t'| - 1) == Coef(t', |t'| - 1);
    forall i | 0 <= i < |t| ensures t[i] == t'[i] { assert p[i] == Coef(t', i); }
  }

  // ----- the computation

  /** The coefficients from j on have been squared, those below are as before. */
  ghost predicate HalfSquared(F: Field, zs: seq<nat>, z: seq<nat>, zdeg: nat, j: nat)
    requires F.Ok() && IsPoly(F, zs) && zdeg < |zs|
  {
    && |z| == |zs| && 2 * zdeg + 1 < |z| && IsPoly(F, z) && j <= zdeg + 1
    && (forall i :: 0 <= i < j ==> z[i] == zs[i])
    && forall i :: 2 * j <= i < 2 * zdeg + 2 ==> z[i] == if i % 2 == 0 then GfSqr(F, zs[i / 2]) else 0
  }

  lemma {:induction false} SquareOne(F: Field, zs: seq<nat>, z: seq<nat>, zdeg: nat, j: nat)
    requires F.Ok() && IsPoly(F, zs) && zdeg < |zs| && HalfSquared(F, zs, z, zdeg, j + 1)
    ensures z[j] == zs[j] && F.El(zs[j]) && HalfSquared(F, zs, z[2 * j := GfSqr(F, zs[j])][2 * j + 1 := 0], zdeg, j)
  {
    hide F.Ok, GfSqr;
    FieldShape(F);
    var y := z[2 * j := GfSqr(F, zs[j])][2 * j + 1 := 0];
    forall i | 2 * j <= i < 2 * zdeg + 2 ensures y[i] == if i % 2 == 0 then GfSqr(F, zs[i / 2]) else 0 {
      assert i == 2 * j || i == 2 * j + 1 || i >= 2 * (j + 1);
    }
  }

  /** One round: adds z to out and squares z, both in place, from the highest coefficient down. */
  method AddAndSquare(F: Field, z: array<nat>, zdeg: nat, out: array<nat>)
    requires F.Ok() && z != out && IsPoly(F, z[..]) && IsPoly(F, out[..]) && 2 * zdeg + 1 < z.Length
             && zdeg < out.Length
    modifies z, out
    ensures IsPoly(F, z[..]) && z[..2 * zdeg + 1] == SquareOf(F, old(z[..zdeg + 1]))
    ensures IsPoly(F, out[..]) && out[..] == XorSeq(old(out[..]), Padded(old(z[..zdeg + 1]), out.Length))
  {
    hide F.Ok, GfSqr, Xor, SquareOf, HalfSquared;
    ghost var zs, os := z[..], out[..];
    StartSquares(F, zs, zdeg);
    var j := zdeg + 1;
    while j > 0
      invariant 0 <= j <= zdeg + 1 && HalfSquared(F, zs, z[..], zdeg, j) && IsPoly(F, out[..])
      invariant forall i :: 0 <= i < out.Length ==> out[i] == if j <= i <= zdeg then Xor(os[i], zs[i]) else os[i]
    {
      j := j - 1;
      ghost var was := z[..];
      SquareOne(F, zs, was, zdeg, j);
      XorBound(out[j], z[j], F.m);
      var v := z[j];
      out[j] := Xor(out[j], v);
      z[2 * j] := GfSqr(F, v);
      z[2 * j + 1] := 0;
      assert z[..] == was[2 * j := GfSqr(F, zs[j])][2 * j + 1 := 0];
    }
    EndSquares(F, zs, z[..], zdeg);
    assert z[..][..2 * zdeg + 1] == z[..2 * zdeg + 1];
    AddedIs(os, zs, zdeg, out[..]);
  }

  lemma {:induction false} StartSquares(F: Field, zs: seq<nat>, zdeg: nat)
    requires F.Ok() && IsPoly(F, zs) && 2 * zdeg + 1 < |zs|
    ensures HalfSquared(F, zs, zs, zdeg, zdeg + 1)
  {
    hide F.Ok, GfSqr;
  }

  lemma {:induction false} EndSquares(F: Field, zs: seq<nat>, z: seq<nat>, zdeg: nat)
    requires F.Ok() && IsPoly(F, zs) && zdeg < |zs| && HalfSquared(F, zs, z, zdeg, 0)
    ensures IsPoly(F, z) && 2 * zdeg + 1 < |z| && z[..2 * zdeg + 1] == SquareOf(F, zs[..zdeg + 1])
  {
    hide F.Ok, GfSqr, SquareOf;
    SquaredIs(F, zs, zdeg, z);
  }

  lemma {:induction false} SquaredIs(F: Field, zs: seq<nat>, zdeg: nat, z: seq<nat>)
    requires F.Ok() && IsPoly(F, zs) && zdeg < |zs| && 2 * zdeg + 1 < |z|
    requires forall i :: 0 <= i < 2 * zdeg + 2 ==> z[i] == if i % 2 == 0 then GfSqr(F, zs[i / 2]) else 0
    ensures z[..2 * zdeg + 1] == SquareOf(F, zs[..zdeg + 1])
  {
    hide F.Ok, GfSqr;
  }

  lemma {:induction false} AddedIs(os: seq<nat>, zs: seq<nat>, zdeg: nat, out: seq<nat>)
    requires zdeg < |zs| && zdeg < |os| == |out|
    requires forall i :: 0 <= i < |os| ==> out[i] == if 0 <= i <= zdeg then Xor(os[i], zs[i]) else os[i]
    ensures out == XorSeq(os, Padded(zs[..zdeg + 1], |os|))
  {
    hide Xor;
    var a := XorSeq(os, Padded(zs[..zdeg + 1], |os|));
    forall i | 0 <= i < |os| ensures out[i] == a[i] { XorZero(os[i]); }
  }

  /** The degree without leading zeros, given that it is at most deg. */
  method TrimDegree(c: array<nat>, deg: nat) returns (d: nat)
    requires deg < c.Length && forall i :: deg < i < c.Length ==> c[i] == 0
    ensures d <= deg && (d > 0 ==> c[d] != 0) && forall i :: d < i < c.Length ==> c[i] == 0
  {
    d := deg;
    while c[d] == 0 && d > 0
      invariant 0 <= d <= deg && forall i :: d < i < c.Length ==> c[i] == 0
    {
      d := d - 1;
    }
  }

  lemma {:induction false} FirstIsPower(F: Field, k: nat, f: seq<nat>, zs: seq<seq<nat>>)
    requires F.Ok() && |f| > 2 && zs == [[0, A(F, k)]]
    ensures IsPowers(F, k, f, zs)
  {
    hide A;
    FieldShape(F);
  }

  lemma {:induction false} MorePowers(F: Field, k: nat, f: seq<nat>, zs: seq<seq<nat>>, z: seq<nat>)
    requires F.Ok() && IsPowers(F, k, f, zs) && Trimmed(F, z) && |z| < |f|
    requires Trimmed(F, zs[|zs| - 1]) && RemIs(F, SquareOf(F, zs[|zs| - 1]), f, z)
    ensures IsPowers(F, k, f, zs + [z])
  {
    hide F.Ok, A, RemIs, SquareOf;
    var s := zs + [z];
    forall i: nat | i < |s| - 1 ensures NextPower(F, f, s, i) {
      if i < |zs| - 1 { assert NextPower(F, f, zs, i); }
    }
  }

  lemma {:induction false} TotalStep(zs: seq<seq<nat>>, n: nat, len: nat)
    requires n < |zs|
    ensures Total(zs, 0, len) == seq(len, i => 0)
    ensures Total(zs, n + 1, len) == XorSeq(Total(zs, n, len), Padded(zs[n], len))
  {
  }

  lemma {:induction false} TotalMore(zs: seq<seq<nat>>, z: seq<nat>, n: nat, len: nat)
    requires n <= |zs|
    ensures Total(zs + [z], n, len) == Total(zs, n, len)
  {
    hide Xor;
    if n > 0 { TotalMore(zs, z, n - 1, len); }
  }

  /** The state after i rounds: z holds the next power while one is needed, out the sum so far. */
  ghost predicate Round(F: Field, k: nat, f: seq<nat>, zs: seq<seq<nat>>, i: nat, z: seq<nat>, zdeg: nat,
                        out: seq<nat>, outdeg: nat)
    requires F.Ok()
  {
    && IsPowers(F, k, f, zs) && i <= |zs| && IsPoly(F, z) && IsPoly(F, out) && |out| == |f| && |z| == 2 * |f|
    && zdeg + 1 < |f| && outdeg + 1 < |f| && out == Total(zs, i, |f|) && (forall j :: outdeg < j < |f| ==> out[j] == 0)
    && (i < |zs| ==> |zs| == i + 1 && z[..zdeg + 1] == zs[i])
  }

  lemma {:induction false} StartRound(F: Field, k: nat, f: seq<nat>, z: seq<nat>, out: seq<nat>)
    requires F.Ok() && |f| > 2 && |z| == 2 * |f| && z[0] == 0 && z[1] == A(F, k) && IsPoly(F, z)
    requires |out| == |f| && forall i :: 0 <= i < |f| ==> out[i] == 0
    ensures Round(F, k, f, [[0, A(F, k)]], 0, z, 1, out, 0)
  {
    hide F.Ok, A;
    FieldShape(F);
    var zs := [[0, A(F, k)]];
    FirstIsPower(F, k, f, zs);
    assert z[..2] == [0, A(F, k)];
    assert out == Total(zs, 0, |f|);
  }

  lemma {:induction false} OutRound(F: Field, k: nat, f: seq<nat>, zs: seq<seq<nat>>, i: nat, z: seq<nat>, zdeg: nat,
                                    out: seq<nat>, outdeg: nat, out': seq<nat>)
    requires F.Ok() && Round(F, k, f, zs, i, z, zdeg, out, outdeg) && i < |zs|
    requires out' == XorSeq(out, Padded(z[..zdeg + 1], |f|))
    ensures out' == Total(zs, i + 1, |f|)
    ensures var d := if zdeg > outdeg then zdeg else outdeg; d + 1 < |f| && forall j :: d < j < |f| ==> out'[j] == 0
  {
    hide F.Ok, A, IsPowers, Xor;
    XorZero(0);
  }

  lemma {:induction false} NextRound(F: Field, k: nat, f: seq<nat>, zs: seq<seq<nat>>, i: nat, z: seq<nat>,
                                     zdeg: nat, out: seq<nat>, outdeg: nat)
    requires F.Ok() && IsPowers(F, k, f, zs) && |zs| == i + 1 && IsPoly(F, z) && IsPoly(F, out) && |out| == |f|
             && |z| == 2 * |f|
    requires zdeg + 1 < |f| && outdeg + 1 < |f| && out == Total(zs, i + 1, |f|) && forall j :: outdeg < j < |f| ==>
               out[j] == 0
    requires Trimmed(F, z[..zdeg + 1]) && Trimmed(F, zs[i]) && RemIs(F, SquareOf(F, zs[i]), f, z[..zdeg + 1])
    ensures Round(F, k, f, zs + [z[..zdeg + 1]], i + 1, z, zdeg, out, outdeg)
  {
    hide F.Ok, A, IsPowers, RemIs, SquareOf, Total;
    MorePowers(F, k, f, zs, z[..zdeg + 1]);
    TotalMore(zs, z[..zdeg + 1], i + 1, |f|);
  }

  lemma {:induction false} RoundFacts(F: Field, k: nat, f: seq<nat>, zs: seq<seq<nat>>, i: nat, z: seq<nat>,
                                      zdeg: nat, out: seq<nat>, outdeg: nat)
    requires F.Ok() && Round(F, k, f, zs, i, z, zdeg, out, outdeg) && i < |zs|
    ensures IsPoly(F, z) && IsPoly(F, out) && |out| == |f| && |z| == 2 * |f| && zdeg + 1 < |f| && |zs| == i + 1
    ensures z[..zdeg + 1] == zs[i] && Trimmed(F, zs[i]) && IsPowers(F, k, f, zs)
  {
    hide F.Ok, A, Total;
  }

  /** compute_trace_bk_mod. */
  method ComputeTraceBkMod(F: Field, k: nat, f: seq<nat>) returns (t: seq<nat>, ghost zs: seq<seq<nat>>)
    requires F.Ok() && k <= F.N() && Trimmed(F, f) && |f| > 2
    ensures IsTrace(F, k, f, zs, t)
  {
    hide F.Ok, A, Round, Pow2, IsPowers, Total, Padded, RemIs, DivRem, SquareOf;
    FieldShape(F);
    PowEntry(F, k);
    ALookup(F, k);
    var z, out := new nat[2 * |f|](_ => 0), new nat[|f|](_ => 0);
    z[1] := F.pow[k];
    var zdeg, outdeg := 1, 0;
    zs := [[0, A(F, k)]];
    StartRound(F, k, f, z[..], out[..]);
    for i := 0 to F.m
      invariant |zs| == (if i < F.m then i + 1 else F.m) && Round(F, k, f, zs, i, z[..], zdeg, out[..], outdeg)
    {
      RoundFacts(F, k, f, zs, i, z[..], zdeg, out[..], outdeg);
      assert z[..][..zdeg + 1] == z[..zdeg + 1];
      ghost var before, was := z[..], out[..];
      AddAndSquare(F, z, zdeg, out);
      OutRound(F, k, f, zs, i, before, zdeg, was, outdeg, out[..]);
      if zdeg > outdeg { outdeg := zdeg; }
      if i < F.m - 1 {
        SquareTrimmed(F, zs[i]);
        zdeg := ReduceBy(F, z, 2 * zdeg, f);
        assert z[..][..zdeg + 1] == z[..zdeg + 1];
        NextRound(F, k, f, zs, i, z[..], zdeg, out[..], outdeg);
        zs := zs + [z[..zdeg + 1]];
      } else {
        LastRound(F, k, f, zs, i, z[..], zdeg, out[..], outdeg);
      }
    }
    AfterRounds(F, k, f, zs, z[..], zdeg, out[..], outdeg);
    var d := TrimDegree(out, outdeg);
    t := out[..d + 1];
    TrimmedTotal(F, k, f, zs, out[..], d);
    assert out[..][..d + 1] == t;
  }

  lemma {:induction false} LastRound(F: Field, k: nat, f: seq<nat>, zs: seq<seq<nat>>, i: nat, z: seq<nat>,
                                     zdeg: nat, out: seq<nat>, outdeg: nat)
    requires F.Ok() && IsPowers(F, k, f, zs) && |zs| == i + 1 && IsPoly(F, z) && IsPoly(F, out) && |out| == |f|
             && |z| == 2 * |f|
    requires zdeg + 1 < |f| && outdeg + 1 < |f| && out == Total(zs, i + 1, |f|) && forall j :: outdeg < j < |f| ==>
               out[j] == 0
    ensures Round(F, k, f, zs, i + 1, z, zdeg, out, outdeg)
  {
    hide F.Ok, IsPowers, Total;
  }

  lemma {:induction false} AfterRounds(F: Field, k: nat, f: seq<nat>, zs: seq<seq<nat>>, z: seq<nat>, zdeg: nat,
                                       out: seq<nat>, outdeg: nat)
    requires F.Ok() && Round(F, k, f, zs, F.m, z, zdeg, out, outdeg) && |zs| == F.m
    ensures IsPowers(F, k, f, zs) && |out| == |f| && IsPoly(F, out) && out == Total(zs, F.m, |f|) && outdeg + 1 < |f|
    ensures forall j :: outdeg < j < |f| ==> out[j] == 0
  {
    hide F.Ok, IsPowers, Total;
  }

  lemma {:induction false} TrimmedTotal(F: Field, k: nat, f: seq<nat>, zs: seq<seq<nat>>, out: seq<nat>, d: nat)
    requires F.Ok() && IsPowers(F, k, f, zs) && |zs| == F.m && |out| == |f| && IsPoly(F, out)
             && out == Total(zs, F.m, |f|)
    requires d + 1 < |f| && (d > 0 ==> out[d] != 0) && forall i :: d < i < |f| ==> out[i] == 0
    ensures IsTrace(F, k, f, zs, out[..d + 1])
  {
    hide F.Ok, IsPowers, Total;
    var t := out[..d + 1];
    assert Padded(t, |f|) == out;
  }
}
