/** Common divisors of polynomials over GF(2^m), and what a constant remainder says about them. */
module PolyGcd {
  import opened Gf2
  import opened GaloisField
  import opened FieldLaws
  import opened FieldPoly
  import opened PowerSeries
  import opened Newton
  import opened BerlekampMassey
  import opened Chien
  import opened PolyDivision

  lemma {:induction false} MonicDef(F: Field, b: seq<nat>, d: nat)
    requires F.Ok() && IsPoly(F, b) && d < |b| && b[d] != 0
    ensures IsSer(F, SerTo(b, d)) && Monic(F, b, d) == Times(F, GfInv(F, b[d]), SerTo(b, d))
  {
    SerToIsSer(F, b, d);
  }

  /** A divisor of the divisor divides the dividend exactly when it divides the remainder. */
  lemma {:induction false} RemainderDivisors(F: Field, a: Ser, b: seq<nat>, d: nat, q: Ser, n: nat, r: Ser, h: Ser)
    requires F.Ok() && IsPoly(F, b) && d < |b| && b[d] != 0 && DegreeAtMost(q, n)
    requires Division(F, a, Monic(F, b, d), q, r) && Divides(F, h, SerTo(b, d))
    ensures Divides(F, h, a) <==> Divides(F, h, r)
  {
    hide F.Ok, Conv, Divides, Division, Times, Prod, SerTo, GfInv, Xor, Monic;
    var m := Monic(F, b, d);
    MonicDef(F, b, d);
    DivisionSer(F, a, m, q, r);
    DividesTimes(F, h, GfInv(F, b[d]), SerTo(b, d));
    var p := Prod(F, m, q);
    forall k: nat ensures p(k) == Conv(F, m, q, k) && a(k) == Xor(p(k), r(k)) && r(k) == Xor(p(k), a(k)) {
      ProdAt(F, m, q, k);
      DivisionAt(F, a, m, q, r, k);
      XorSolve(p(k), r(k));
    }
    DividesProduct(F, h, m, q, n, p);
    if Divides(F, h, r) { DividesSum(F, h, p, r, a); }
    if Divides(F, h, a) { DividesSum(F, h, p, a, r); }
  }

  /** The pairs a, b and a', b' have the same common divisors. */
  ghost predicate SameDivisors(F: Field, a: Ser, b: Ser, a': Ser, b': Ser)
    requires F.Ok()
  {
    forall h: Ser :: (Divides(F, h, a) && Divides(F, h, b)) <==> (Divides(F, h, a') && Divides(F, h, b'))
  }

  ghost predicate IsGcd(F: Field, a: Ser, b: Ser, g: Ser)
    requires F.Ok()
  {
    && Divides(F, g, a) && Divides(F, g, b)
    && forall h: Ser :: Divides(F, h, a) && Divides(F, h, b) ==> Divides(F, h, g)
  }

  /** h has a nonzero coefficient of positive degree. */
  ghost predicate Nonconstant(h: Ser) {
    exists i: nat :: i > 0 && h(i) != 0
  }

  /** Common polynomial divisors are constants. */
  ghost predicate Coprime(F: Field, a: Ser, b: Ser)
    requires F.Ok()
  {
    forall h: Ser, m: nat :: DegreeAtMost(h, m) && Divides(F, h, a) && Divides(F, h, b) ==> !Nonconstant(h)
  }

  lemma {:induction false} SameDivisorsTrans(F: Field, a: Ser, b: Ser, c: Ser, d: Ser, e: Ser, f: Ser)
    requires F.Ok() && SameDivisors(F, a, b, c, d) && SameDivisors(F, c, d, e, f)
    ensures SameDivisors(F, a, b, e, f)
  {
    hide Divides, F.Ok;
  }

  lemma {:induction false} SameDivisorsSwap(F: Field, a: Ser, b: Ser)
    requires F.Ok()
    ensures SameDivisors(F, a, b, b, a) && SameDivisors(F, a, b, a, b)
  {
    hide Divides, F.Ok;
  }

  /** The product of two polynomials has the product of the leading coefficients on top. */
  lemma {:induction false} LeadingProduct(F: Field, a: Ser, d: nat, b: Ser, e: nat)
    requires F.Ok() && IsSer(F, a) && IsSer(F, b) && DegreeAtMost(a, d) && DegreeAtMost(b, e)
    ensures F.El(a(d)) && F.El(b(e)) && Conv(F, a, b, d + e) == GfMul(F, a(d), b(e))
    decreases d
  {
    hide *;
    SerAt(F, a, 0);
    SerAt(F, a, d);
    SerAt(F, b, e);
    Locator.DegreeDef(a, d);
    Locator.DegreeDef(b, e);
    ConvStep(F, a, b, d + e);
    TailIsSer(F, a);
    if d == 0 {
      if e > 0 {
        forall i: nat | i <= e - 1 ensures Tail(a)(i) == 0 { TailAt(a, i); }
        ConvZero(F, Tail(a), b, e - 1);
        XorZero(GfMul(F, a(0), b(e)));
      }
    } else {
      Locator.TailDegree(a, d);
      LeadingProduct(F, Tail(a), d - 1, b, e);
      TailAt(a, d - 1);
      MulZero(F, a(0));
      XorZero(GfMul(F, a(d), b(e)));
    }
  }

  /** The exact degree of a polynomial that is not zero. */
  lemma {:induction false} ExactDegree(q: Ser, n: nat) returns (d: nat)
    requires DegreeAtMost(q, n)
    ensures DegreeAtMost(q, d) && d <= n && (q(d) == 0 ==> d == 0)
  {
    d := n;
    if n > 0 && q(n) == 0 {
      assert forall i: nat :: i > n - 1 ==> q(i) == 0;
      d := ExactDegree(q, n - 1);
    }
  }

  /** Only constants divide a nonzero constant. */
  lemma {:induction false} ConstantDivisors(F: Field, h: Ser, m: nat, z: Ser)
    requires F.Ok() && Divides(F, h, z) && IsSer(F, h) && DegreeAtMost(h, m) && z(0) != 0 && forall i: nat ::
               i > 0 ==> z(i) == 0
    ensures !Nonconstant(h)
  {
    hide F.Ok, Conv, Divides, GfMul;
    var q, n := DividesElim(F, h, z);
    var d := ExactDegree(q, n);
    var e := ExactDegree(h, m);
    LeadingProduct(F, q, d, h, e);
    if q(d) == 0 {
      forall i: nat ensures q(i) == 0 { }
      ConvZero(F, q, h, 0);
    } else if e > 0 {
      MulNonzero(F, q(d), h(e));
    }
  }

  lemma {:induction false} Finish(F: Field, x: Ser, y: Ser, a: seq<nat>, adeg: nat, b: seq<nat>)
    requires F.Ok() && IsPoly(F, a) && IsPoly(F, b) && |b| > 0
    requires SameDivisors(F, x, y, SerTo(a, adeg), SerTo(b, 0))
    ensures b[0] == 0 ==> IsGcd(F, x, y, SerTo(a, adeg))
    ensures b[0] != 0 ==> Coprime(F, x, y)
  {
    hide F.Ok, Divides, SerTo, Nonconstant, DegreeAtMost;
    var g, z := SerTo(a, adeg), SerTo(b, 0);
    SerToIsSer(F, a, adeg);
    SerToIsSer(F, b, 0);
    forall i: nat ensures z(i) == if i == 0 then b[0] else 0 { SerToAt(b, 0, i); }
    if b[0] == 0 {
      DividesSelf(F, g);
      DividesZero(F, g, z);
    } else {
      forall h: Ser, m: nat | DegreeAtMost(h, m) && Divides(F, h, x) && Divides(F, h, y) ensures !Nonconstant(h) {
        DividesSer(F, h, x);
        ConstantDivisors(F, h, m, z);
      }
    }
  }
}
