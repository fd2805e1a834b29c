/** Products of polynomials row by row, and how a product certifies a division. */
module PolyProduct {
  import opened Common
  import opened Gf2
  import opened GaloisField
  import opened FieldLaws
  import opened FieldPoly
  import opened PowerSeries
  import opened Newton
  import opened BerlekampMassey
  import opened Locator
  import opened Chien
  import LowRoots
  import opened PolyDivision
  import opened EuclidChain
  import opened TracePoly

  /** The product of q and b: one row for every coefficient of q. */
  ghost function MulPoly(F: Field, q: seq<nat>, b: seq<nat>): (p: seq<nat>)
    requires F.Ok() && IsPoly(F, q) && IsPoly(F, b) && |q| >= 1 && |b| >= 1
    ensures |p| == |q| + |b| - 1 && IsPoly(F, p)
  {
    if |q| == 1 then Scale(F, b, q[0])
    else
      FieldShape(F);
      AddIsPoly(F, Scale(F, b, q[0]) + Zeros(|q| - 1), [0] + MulPoly(F, q[1..], b));
      XorSeq(Scale(F, b, q[0]) + Zeros(|q| - 1), [0] + MulPoly(F, q[1..], b))
  }

  lemma {:induction false} ScaleAt(F: Field, b: seq<nat>, c: nat, n: nat)
    requires F.Ok() && IsPoly(F, b) && F.El(c) && |b| >= 1
    ensures IsSer(F, Ser1(b)) && Coef(Scale(F, b, c), n) == GfMul(F, c, Ser1(b)(n))
  {
    hide F.Ok, GfMul;
    SerAtIs(F, b);
    if n < |b| { MulComm(F, b[n], c); } else { MulZero(F, c); }
  }

  lemma {:induction false} RowAt(F: Field, q: seq<nat>, b: seq<nat>, n: nat)
    requires F.Ok() && IsPoly(F, q) && IsPoly(F, b) && |q| >= 2 && |b| >= 1
    ensures F.El(q[0]) && IsSer(F, Ser1(b))
    ensures Coef(MulPoly(F, q, b), n)
            == Xor(GfMul(F, q[0], Ser1(b)(n)), if n == 0 then 0 else Coef(MulPoly(F, q[1..], b), n - 1))
  {
    hide F.Ok, GfMul, Xor;
    ScaleAt(F, b, q[0], n);
    var s, m := Scale(F, b, q[0]), MulPoly(F, q[1..], b);
    var x, y := s + Zeros(|q| - 1), [0] + m;
    assert MulPoly(F, q, b) == XorSeq(x, y);
    assert Coef(x, n) == Coef(s, n);
    assert Coef(y, n) == if n == 0 then 0 else Coef(m, n - 1);
    XorZero(0);
  }

  /** The rows add up to the product of series. */
  lemma {:induction false} MulPolyConv(F: Field, q: seq<nat>, b: seq<nat>, n: nat)
    requires F.Ok() && IsPoly(F, q) && IsPoly(F, b) && |q| >= 1 && |b| >= 1
    ensures IsSer(F, Ser1(q)) && IsSer(F, Ser1(b)) && Coef(MulPoly(F, q, b), n) == Conv(F, Ser1(q), Ser1(b), n)
    decreases |q|
  {
    hide F.Ok, GfMul, Xor, Conv, Ser1, Scale;
    SerAtIs(F, q);
    SerAtIs(F, b);
    ConvStep(F, Ser1(q), Ser1(b), n);
    if |q| == 1 {
      ScaleAt(F, b, q[0], n);
      if n > 0 {
        forall i: nat | i <= n - 1 ensures Tail(Ser1(q))(i) == 0 { TailAt(Ser1(q), i); }
        ConvZero(F, Tail(Ser1(q)), Ser1(b), n - 1);
        XorZero(GfMul(F, q[0], Ser1(b)(n)));
      }
    } else {
      RowAt(F, q, b, n);
      XorZero(GfMul(F, q[0], Ser1(b)(0)));
      if n > 0 {
        MulPolyConv(F, q[1..], b, n - 1);
        SerAtIs(F, q[1..]);
        forall i: nat | i <= n - 1 ensures Tail(Ser1(q))(i) == Ser1(q[1..])(i) { TailAt(Ser1(q), i); }
        ConvCong(F, Tail(Ser1(q)), Ser1(q[1..]), Ser1(b), Ser1(b), n - 1);
      }
    }
  }

  /** mon is b divided by its leading coefficient. */
  ghost predicate IsMonic(F: Field, b: seq<nat>, mon: seq<nat>)
    requires F.Ok()
  {
    && Trimmed(F, b) && |b| > 1 && |mon| == |b| && IsPoly(F, mon)
    && forall i :: 0 <= i < |b| ==> b[i] == GfMul(F, mon[i], b[|b| - 1])
  }

  lemma {:induction false} MonicIs(F: Field, b: seq<nat>, mon: seq<nat>, i: nat)
    requires F.Ok() && IsMonic(F, b, mon)
    ensures IsSer(F, Ser1(mon)) && Monic(F, b, |b| - 1)(i) == Ser1(mon)(i)
  {
    hide F.Ok, GfMul, GfDiv, Monic, Ser1, DegreeAtMost;
    var d := |b| - 1;
    SerAtIs(F, mon);
    MonicShape(F, b, d);
    DegreeDef(Monic(F, b, d), d);
    if i <= d {
      MonicAt(F, b, d, i);
      DivMul(F, b[i], b[d]);
      MulComm(F, mon[i], b[d]);
      MulComm(F, GfDiv(F, b[i], b[d]), b[d]);
      LowRoots.MulCancel(F, b[d], mon[i], GfDiv(F, b[i], b[d]));
    }
  }

  /** A product plus a short rest is a division with remainder. */
  lemma {:induction false} Certified(F: Field, a: seq<nat>, b: seq<nat>, mon: seq<nat>, q: seq<nat>, r: seq<nat>)
    requires F.Ok() && Trimmed(F, a) && IsMonic(F, b, mon) && IsPoly(F, q) && Trimmed(F, r) && |b| <= |a|
             && |r| < |b| && |q| == |a| - |b| + 1
    requires forall i :: 0 <= i < |a| ==> a[i] == Xor(MulPoly(F, q, mon)[i], Coef(r, i))
    ensures DivRem(F, a, b, q, r)
  {
    hide F.Ok, GfMul, Xor, Conv, Ser1, Monic, MulPoly;
    var m := Monic(F, b, |b| - 1);
    SerAtIs(F, a);
    SerAtIs(F, q);
    SerAtIs(F, r);
    forall n: nat ensures Ser1(a)(n) == Xor(Conv(F, m, Ser1(q), n), Ser1(r)(n)) {
      MulPolyConv(F, q, mon, n);
      forall i: nat | i <= n ensures m(i) == Ser1(mon)(i) { MonicIs(F, b, mon, i); }
      ConvCong(F, m, Ser1(mon), Ser1(q), Ser1(q), n);
      ConvComm(F, Ser1(mon), Ser1(q), n);
      XorZero(0);
    }
    DivisionIntro(F, Ser1(a), m, Ser1(q), Ser1(r));
  }

  /** The product by a constant. */
  lemma {:induction false} FirstRow(F: Field, c: nat, b: seq<nat>, s: seq<nat>)
    requires F.Ok() && F.El(c) && IsPoly(F, b) && |b| >= 1 && |s| == |b| && forall i :: 0 <= i < |b| ==>
               s[i] == GfMul(F, c, b[i])
    ensures IsPoly(F, [c]) && MulPoly(F, [c], b) == s
  {
    hide F.Ok, GfMul;
    var m := Scale(F, b, c);
    forall i | 0 <= i < |b| ensures m[i] == s[i] { MulComm(F, c, b[i]); }
  }

  /** One more row: s is c times b, p the product so far. */
  lemma {:induction false} Row(F: Field, c: nat, qs: seq<nat>, b: seq<nat>, s: seq<nat>, p: seq<nat>, out: seq<nat>)
    requires F.Ok() && F.El(c) && IsPoly(F, qs) && IsPoly(F, b) && |qs| >= 1 && |b| >= 1 && MulPoly(F, qs, b) == p
    requires |s| == |b| && forall i :: 0 <= i < |b| ==> s[i] == GfMul(F, c, b[i])
    requires |out| == |p| + 1 && forall n :: 0 <= n < |out| ==> out[n] == Xor(Coef(s, n), Before(p, n))
    ensures IsPoly(F, [c] + qs) && MulPoly(F, [c] + qs, b) == out
  {
    hide F.Ok, GfMul, Xor, MulPoly, Ser1;
    var q := [c] + qs;
    assert q[1..] == qs;
    var m := MulPoly(F, q, b);
    SerAtIs(F, b);
    forall n: nat | n < |m| ensures m[n] == out[n] {
      RowAt(F, q, b, n);
      MulZero(F, c);
    }
  }

  function Before(p: seq<nat>, n: nat): nat { if 0 < n <= |p| then p[n - 1] else 0 }
}
