/** Polynomials with coefficients in GF(2^m), lowest coefficient first. */
module FieldPoly {
  import opened Gf2
  import opened GaloisField
  import opened FieldLaws

  ghost predicate IsPoly(F: Field, c: seq<nat>) {
    forall i :: 0 <= i < |c| ==> F.El(c[i])
  }

  ghost predicate AllZero(c: seq<nat>) {
    forall i :: 0 <= i < |c| ==> c[i] == 0
  }

  /** The value of the polynomial at x. */
  ghost function Eval(F: Field, c: seq<nat>, x: nat): (v: nat)
    requires F.Ok() && IsPoly(F, c) && F.El(x)
    ensures F.El(v)
  {
    if c == [] then FieldShape(F); 0
    else
      XorBound(c[0], GfMul(F, x, Eval(F, c[1..], x)), F.m);
      Xor(c[0], GfMul(F, x, Eval(F, c[1..], x)))
  }

  lemma {:induction false} AddIsPoly(F: Field, c: seq<nat>, d: seq<nat>)
    requires |c| == |d| && IsPoly(F, c) && IsPoly(F, d)
    ensures IsPoly(F, XorSeq(c, d))
  {
    forall i | 0 <= i < |c| ensures F.El(XorSeq(c, d)[i]) { XorBound(c[i], d[i], F.m); }
  }

  lemma {:induction false} EvalAdd(F: Field, c: seq<nat>, d: seq<nat>, x: nat)
    requires F.Ok() && |c| == |d| && IsPoly(F, c) && IsPoly(F, d) && F.El(x)
    ensures IsPoly(F, XorSeq(c, d))
    ensures Eval(F, XorSeq(c, d), x) == Xor(Eval(F, c, x), Eval(F, d, x))
  {
    hide Xor, GfMul, F.Ok;
    AddIsPoly(F, c, d);
    if c == [] {
      XorZero(0);
    } else {
      assert XorSeq(c, d)[1..] == XorSeq(c[1..], d[1..]);
      EvalAdd(F, c[1..], d[1..], x);
      var u, v := Eval(F, c[1..], x), Eval(F, d[1..], x);
      MulDistrib(F, x, u, v);
      XorSwap4(c[0], d[0], GfMul(F, x, u), GfMul(F, x, v));
    }
  }

  lemma {:induction false} EvalZero(F: Field, c: seq<nat>, x: nat)
    requires F.Ok() && AllZero(c) && IsPoly(F, c) && F.El(x)
    ensures Eval(F, c, x) == 0
  {
    if c != [] {
      EvalZero(F, c[1..], x);
      MulZero(F, x);
      XorZero(0);
    }
  }

  // ----- at most as many roots as the degree

  /** The quotient of c by X + r (synthetic division). */
  ghost function DivRoot(F: Field, c: seq<nat>, r: nat): (q: seq<nat>)
    requires F.Ok() && IsPoly(F, c) && F.El(r)
    ensures IsPoly(F, q) && |q| == if c == [] then 0 else |c| - 1
  {
    if |c| <= 1 then [] else [Eval(F, c[1..], r)] + DivRoot(F, c[1..], r)
  }

  lemma {:induction false} DivRootEval(F: Field, c: seq<nat>, r: nat, x: nat)
    requires F.Ok() && IsPoly(F, c) && F.El(r) && F.El(x)
    ensures F.El(Xor(x, r))
    ensures Eval(F, c, x) == Xor(GfMul(F, Xor(x, r), Eval(F, DivRoot(F, c, r), x)), Eval(F, c, r))
  {
    hide Xor, GfMul, F.Ok;
    XorBound(x, r, F.m);
    var s := Xor(x, r);
    if c == [] {
      MulZero(F, s);
      XorZero(0);
    } else if |c| == 1 {
      MulZero(F, s);
      MulZero(F, x);
      MulZero(F, r);
      XorZero(c[0]);
    } else {
      var rest := c[1..];
      DivRootEval(F, rest, r, x);
      var q := DivRoot(F, rest, r);
      var v, w := Eval(F, q, x), Eval(F, rest, r);
      var full := DivRoot(F, c, r);
      assert full[1..] == q;
      assert Eval(F, full, x) == Xor(w, GfMul(F, x, v));
      DivRootStep(F, c[0], x, r, v, w);
    }
  }

  lemma {:induction false} DivRootStep(F: Field, c0: nat, x: nat, r: nat, v: nat, w: nat)
    requires F.Ok() && F.El(c0) && F.El(x) && F.El(r) && F.El(v) && F.El(w)
    ensures F.El(Xor(x, r)) && F.El(Xor(w, GfMul(F, x, v))) && F.El(Xor(GfMul(F, Xor(x, r), v), w))
    ensures Xor(c0, GfMul(F, x, Xor(GfMul(F, Xor(x, r), v), w)))
         == Xor(GfMul(F, Xor(x, r), Xor(w, GfMul(F, x, v))), Xor(c0, GfMul(F, r, w)))
  {
    hide Xor, GfMul, F.Ok;
    XorBound(x, r, F.m);
    var s := Xor(x, r);
    XorBound(w, GfMul(F, x, v), F.m);
    XorBound(GfMul(F, s, v), w, F.m);
    var p := GfMul(F, x, GfMul(F, s, v));
    var xw, rw := GfMul(F, x, w), GfMul(F, r, w);
    MulDistrib(F, x, GfMul(F, s, v), w);
    MulDistrib(F, s, w, GfMul(F, x, v));
    MulDistrib(F, w, x, r);
    MulComm(F, w, s);
    MulComm(F, w, x);
    MulComm(F, w, r);
    MulAssoc(F, s, x, v);
    MulComm(F, s, x);
    MulAssoc(F, x, s, v);
    assert GfMul(F, s, GfMul(F, x, v)) == p;
    assert GfMul(F, s, w) == Xor(xw, rw);
    calc {
      Xor(Xor(Xor(xw, rw), p), Xor(c0, rw));
      { XorComm(c0, rw); XorComm(Xor(xw, rw), p); XorAssoc(p, xw, rw); }
      Xor(Xor(Xor(p, xw), rw), Xor(rw, c0));
      { XorAssoc(Xor(p, xw), rw, Xor(rw, c0)); XorSolve(rw, c0); }
      Xor(Xor(p, xw), c0);
      { XorComm(Xor(p, xw), c0); }
      Xor(c0, Xor(p, xw));
    }
  }

  lemma {:induction false} ZeroQuotient(F: Field, c: seq<nat>, r: nat)
    requires F.Ok() && IsPoly(F, c) && F.El(r)
    requires AllZero(DivRoot(F, c, r)) && Eval(F, c, r) == 0
    ensures AllZero(c)
  {
    hide Xor, GfMul, F.Ok;
    if c != [] {
      var rest := c[1..];
      if |c| > 1 {
        var q := DivRoot(F, c, r);
        assert q[0] == Eval(F, rest, r);
        assert q[1..] == DivRoot(F, rest, r);
        assert AllZero(q[1..]);
        ZeroQuotient(F, rest, r);
      }
      MulZero(F, r);
      XorZero(c[0]);
      assert c == [c[0]] + rest;
    }
  }

  /** A polynomial with at least as many distinct roots as coefficients is zero. */
  lemma {:induction false} RootsBound(F: Field, c: seq<nat>, roots: seq<nat>)
    requires F.Ok() && IsPoly(F, c) && IsPoly(F, roots)
    requires |roots| >= |c|
    requires forall i, j :: 0 <= i < j < |roots| ==> roots[i] != roots[j]
    requires forall i :: 0 <= i < |roots| ==> Eval(F, c, roots[i]) == 0
    ensures AllZero(c)
    decreases |c|
  {
    hide Xor, GfMul, F.Ok, Eval, DivRoot;
    if c != [] {
      var k := |roots| - 1;
      var r := roots[k];
      var q := DivRoot(F, c, r);
      forall i | 0 <= i < k
        ensures Eval(F, q, roots[i]) == 0
      {
        var x := roots[i];
        DivRootEval(F, c, r, x);
        XorZero(GfMul(F, Xor(x, r), Eval(F, q, x)));
        if Eval(F, q, x) != 0 {
          if Xor(x, r) == 0 { XorEqualZero(x, r); }
          MulNonzero(F, Xor(x, r), Eval(F, q, x));
        }
      }
      RootsBound(F, q, roots[..k]);
      ZeroQuotient(F, c, r);
    }
  }

  // ----- squaring coefficients

  ghost function SqrCoefs(F: Field, c: seq<nat>): (r: seq<nat>)
    requires F.Ok() && IsPoly(F, c)
    ensures |r| == |c| && IsPoly(F, r)
  {
    seq(|c|, i requires 0 <= i < |c| => GfSqr(F, c[i]))
  }

  lemma {:induction false} EvalSqrCoefs(F: Field, c: seq<nat>, x: nat)
    requires F.Ok() && IsPoly(F, c) && F.El(x)
    ensures Eval(F, SqrCoefs(F, c), GfSqr(F, x)) == GfSqr(F, Eval(F, c, x))
  {
    hide Xor, GfMul, F.Ok;
    if c == [] {
    } else {
      hide GfSqr;
      var rest := c[1..];
      EvalSqrCoefs(F, rest, x);
      assert SqrCoefs(F, c)[1..] == SqrCoefs(F, rest);
      var v := Eval(F, rest, x);
      SqrXor(F, c[0], GfMul(F, x, v));
      SqrMul(F, x, v);
    }
  }

  // ----- multiplying by X + r

  /** Coefficient i of c times X + r. */
  ghost function MulRootCoef(F: Field, c: seq<nat>, r: nat, i: nat): (v: nat)
    requires F.Ok() && IsPoly(F, c) && F.El(r) && i <= |c|
    ensures F.El(v)
  {
    FieldShape(F);
    var u, w := if i < |c| then GfMul(F, c[i], r) else 0, if i > 0 then c[i - 1] else 0;
    XorBound(u, w, F.m);
    Xor(u, w)
  }

  ghost function MulRoot(F: Field, c: seq<nat>, r: nat): (d: seq<nat>)
    requires F.Ok() && IsPoly(F, c) && F.El(r)
    ensures |d| == |c| + 1 && IsPoly(F, d)
  {
    seq(|c| + 1, i requires 0 <= i <= |c| => MulRootCoef(F, c, r, i))
  }

  ghost function Scale(F: Field, c: seq<nat>, r: nat): (d: seq<nat>)
    requires F.Ok() && IsPoly(F, c) && F.El(r)
    ensures |d| == |c| && IsPoly(F, d)
  {
    seq(|c|, i requires 0 <= i < |c| => GfMul(F, c[i], r))
  }

  lemma {:induction false} EvalScale(F: Field, c: seq<nat>, r: nat, x: nat)
    requires F.Ok() && IsPoly(F, c) && F.El(r) && F.El(x)
    ensures Eval(F, Scale(F, c, r), x) == GfMul(F, r, Eval(F, c, x))
  {
    hide Xor, GfMul, F.Ok;
    if c == [] {
      MulZero(F, r);
    } else {
      var rest := c[1..];
      assert Scale(F, c, r)[1..] == Scale(F, rest, r);
      EvalScale(F, rest, r, x);
      var v := Eval(F, rest, x);
      MulDistrib(F, r, c[0], GfMul(F, x, v));
      MulComm(F, r, c[0]);
      MulAssoc(F, r, x, v);
      MulComm(F, r, x);
      MulAssoc(F, x, r, v);
    }
  }

  lemma {:induction false} EvalAppendZero(F: Field, c: seq<nat>, x: nat)
    requires F.Ok() && IsPoly(F, c) && F.El(x)
    ensures IsPoly(F, c + [0]) && Eval(F, c + [0], x) == Eval(F, c, x)
  {
    hide Xor, GfMul, F.Ok;
    FieldShape(F);
    if c == [] {
      assert (c + [0])[1..] == [];
      MulZero(F, x);
      XorZero(0);
    } else {
      EvalAppendZero(F, c[1..], x);
      assert (c + [0])[1..] == c[1..] + [0];
    }
  }

  lemma {:induction false} MulRootSum(F: Field, c: seq<nat>, r: nat)
    requires F.Ok() && IsPoly(F, c) && F.El(r)
    ensures F.El(0) && MulRoot(F, c, r) == XorSeq(Scale(F, c, r) + [0], [0] + c)
  {
    hide Xor, GfMul, F.Ok;
    FieldShape(F);
    var lhs, rhs := MulRoot(F, c, r), XorSeq(Scale(F, c, r) + [0], [0] + c);
    forall i | 0 <= i <= |c| ensures lhs[i] == rhs[i] {
    }
  }

  lemma {:induction false} EvalMulRoot(F: Field, c: seq<nat>, r: nat, x: nat)
    requires F.Ok() && IsPoly(F, c) && F.El(r) && F.El(x)
    ensures F.El(Xor(x, r))
    ensures Eval(F, MulRoot(F, c, r), x) == GfMul(F, Xor(x, r), Eval(F, c, x))
  {
    hide Xor, GfMul, F.Ok, MulRoot, Scale, XorSeq;
    FieldShape(F);
    MulRootSum(F, c, r);
    EvalAppendZero(F, Scale(F, c, r), x);
    EvalAdd(F, Scale(F, c, r) + [0], [0] + c, x);
    EvalScale(F, c, r, x);
    var v := Eval(F, c, x);
    assert ([0] + c)[1..] == c;
    assert Eval(F, [0] + c, x) == Xor(0, GfMul(F, x, v));
    XorZero(GfMul(F, x, v));
    XorBound(x, r, F.m);
    MulDistrib(F, v, x, r);
    MulComm(F, v, Xor(x, r));
    MulComm(F, v, x);
    MulComm(F, v, r);
    XorComm(GfMul(F, r, v), GfMul(F, x, v));
  }
}
