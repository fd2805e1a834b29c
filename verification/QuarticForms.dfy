/** The substitutions that turn polynomials of degree 3 and 4 into X^4 + a X^2 + b X + c. */
module QuarticForms {
  import opened Gf2
  import opened GaloisField
  import opened FieldLaws
  import opened PowerSeries
  import opened AffineRoots

  // ----- sums of several terms

  lemma {:induction false} Sum6(t1: nat, t2: nat, t3: nat, t4: nat, t5: nat, t6: nat)
    ensures Xor(Xor(t1, t2), Xor(Xor(t3, t4), Xor(t5, t6))) == Xor(Xor(Xor(t5, Xor(t6, t3)), Xor(t4, t1)), t2)
  {
    hide Xor;
    // (t3 + t4) + (t5 + t6) = (t5 + (t6 + t3)) + t4
    XorComm(Xor(t3, t4), Xor(t5, t6));
    XorAssoc(t5, t6, Xor(t3, t4));
    XorAssoc(t6, t3, t4);
    XorAssoc(t5, Xor(t6, t3), t4);
    var u := Xor(t5, Xor(t6, t3));
    // (t1 + t2) + (u + t4) = (u + (t4 + t1)) + t2
    XorComm(Xor(t1, t2), Xor(u, t4));
    XorAssoc(Xor(u, t4), t1, t2);
    XorAssoc(u, t4, t1);
  }

  /** Cancels a term on both sides of a sum of two. */
  lemma {:induction false} SumZero(x: nat, y: nat)
    ensures Xor(x, y) == 0 <==> x == y
  {
    hide Xor;
    XorSelf(x);
    if Xor(x, y) == 0 { XorEqualZero(x, y); }
  }

  lemma {:induction false} Sum3(x: nat, y: nat, z: nat)
    ensures Xor(x, Xor(y, z)) == Xor(Xor(x, y), z) == Xor(y, Xor(x, z))
  {
    hide Xor;
    XorAssoc(x, y, z);
    XorComm(x, y);
    XorAssoc(y, x, z);
  }

  // ----- products of several factors

  lemma {:induction false} Product3(F: Field, x: nat, y: nat, z: nat)
    requires F.Ok() && F.El(x) && F.El(y) && F.El(z)
    ensures GfMul(F, x, GfMul(F, y, z)) == GfMul(F, GfMul(F, x, y), z) == GfMul(F, y, GfMul(F, x, z))
  {
    hide F.Ok, GfMul;
    MulAssoc(F, x, y, z);
    MulComm(F, x, y);
    MulAssoc(F, y, x, z);
  }

  lemma {:induction false} In(F: Field, x: nat, y: nat)
    requires F.El(x) && F.El(y)
    ensures F.El(Xor(x, y))
  {
    XorBound(x, y, F.m);
  }

  // ----- degree 3

  /** x (x + a) = x^2 + a x, and its square. */
  lemma {:induction false} Shifted(F: Field, x: nat, a: nat)
    requires F.Ok() && F.El(x) && F.El(a)
    ensures F.El(Xor(x, a)) && F.El(Xor(a, x))
    ensures GfMul(F, x, Xor(a, x)) == GfMul(F, Xor(x, a), x) == Xor(GfSqr(F, x), GfMul(F, a, x))
    ensures GfSqr(F, GfMul(F, x, Xor(a, x))) == Xor(GfSqr(F, GfSqr(F, x)), GfMul(F, GfSqr(F, a), GfSqr(F, x)))
  {
    hide F.Ok, GfMul, GfSqr, Xor;
    In(F, x, a);
    XorComm(x, a);
    MulComm(F, Xor(x, a), x);
    MulDistrib(F, x, x, a);
    SqrIsMul(F, x);
    MulComm(F, x, a);
    SqrXor(F, GfSqr(F, x), GfMul(F, a, x));
    SqrMul(F, a, x);
  }

  /** (x + a) times x^3 + a x^2 + b x + c is x^4 + (a^2 + b) x^2 + (a b + c) x + a c. */
  lemma {:induction false} CubicProduct(F: Field, a: nat, b: nat, c: nat, x: nat, u: nat, q: nat, p: nat)
    requires F.Ok() && F.El(a) && F.El(b) && F.El(c) && F.El(x) && F.El(Xor(a, x)) && u == GfMul(F, x, Xor(a, x))
    requires q == Xor(b, u) && F.El(q) && p == Xor(c, GfMul(F, x, q)) && F.El(p)
    ensures F.El(Xor(x, a)) && F.El(Xor(GfSqr(F, a), b)) && F.El(Xor(GfMul(F, a, b), c))
    ensures GfMul(F, Xor(x, a), p) == Xor(Linear(F, Xor(GfSqr(F, a), b), Xor(GfMul(F, a, b), c), x), GfMul(F, a, c))
  {
    hide F.Ok, GfMul, GfSqr, Xor, Linear;
    var s, x2 := Xor(x, a), GfSqr(F, x);
    var x4, a2, ab := GfSqr(F, x2), GfSqr(F, a), GfMul(F, a, b);
    Shifted(F, x, a);
    In(F, a2, b);
    In(F, ab, c);
    // s p = s c + (s x) q = s c + u q
    MulDistrib(F, s, c, GfMul(F, x, q));
    MulAssoc(F, s, x, q);
    // s c = c x + a c
    MulComm(F, s, c);
    MulDistrib(F, c, x, a);
    MulComm(F, c, a);
    // u q = u b + u u
    MulDistrib(F, u, b, u);
    SqrIsMul(F, u);
    // u b = b x2 + (a b) x
    MulComm(F, u, b);
    MulDistrib(F, b, x2, GfMul(F, a, x));
    Product3(F, b, a, x);
    MulComm(F, b, a);
    // the additive part
    LinearDef(F, Xor(a2, b), Xor(ab, c), x);
    MulDistribLeft(F, a2, b, x2);
    MulDistribLeft(F, ab, c, x);
    Sum6(GfMul(F, c, x), GfMul(F, a, c), GfMul(F, b, x2), GfMul(F, ab, x), x4, GfMul(F, a2, x2));
  }

  // ----- degree 4

  /** x^4 + a x^3 + b x^2 + c x + d, by powers. */
  ghost function Quartic(F: Field, a: nat, b: nat, c: nat, d: nat, x: nat): (y: nat)
    requires F.Ok() && F.El(a) && F.El(b) && F.El(c) && F.El(d) && F.El(x)
  {
    var x2 := GfSqr(F, x);
    Xor(d, Xor(GfMul(F, c, x), Xor(GfMul(F, b, x2), Xor(GfMul(F, a, GfMul(F, x2, x)), GfSqr(F, x2)))))
  }

  /** The same, as it is evaluated. */
  lemma {:induction false} QuarticIs(F: Field, a: nat, b: nat, c: nat, d: nat, x: nat, u: nat, v: nat, w: nat)
    requires F.Ok() && F.El(a) && F.El(b) && F.El(c) && F.El(d) && F.El(x) && F.El(Xor(a, x))
    requires u == Xor(b, GfMul(F, x, Xor(a, x))) && F.El(u) && v == Xor(c, GfMul(F, x, u)) && F.El(v)
    requires w == Xor(d, GfMul(F, x, v))
    ensures w == Quartic(F, a, b, c, d, x)
  {
    hide F.Ok, GfMul, GfSqr, Xor;
    var x2 := GfSqr(F, x);
    var ax := GfMul(F, a, x);
    Shifted(F, x, a);
    In(F, x2, ax);
    // x u = b x + (x2 x + a x2)
    MulDistrib(F, x, b, Xor(x2, ax));
    MulDistrib(F, x, x2, ax);
    MulComm(F, x, b);
    MulComm(F, x, x2);
    Product3(F, x, a, x);
    SqrIsMul(F, x);
    var bx, x3, ax2 := GfMul(F, b, x), GfMul(F, x2, x), GfMul(F, a, x2);
    // x v = c x + (b x2 + (a x3 + x4))
    In(F, x3, ax2);
    MulDistrib(F, x, c, GfMul(F, x, u));
    MulComm(F, x, c);
    MulDistrib(F, x, bx, Xor(x3, ax2));
    Product3(F, x, b, x);
    MulDistrib(F, x, x3, ax2);
    Product3(F, x, a, x2);
    MulComm(F, x, x2);
    Product3(F, x, x2, x);
    SqrIsMul(F, x2);
    XorComm(GfMul(F, x, x3), GfMul(F, x, ax2));
  }

  /** Without a cubic term the polynomial is affine already. */
  lemma {:induction false} QuarticAffine(F: Field, b: nat, c: nat, d: nat, x: nat)
    requires F.Ok() && F.El(b) && F.El(c) && F.El(d) && F.El(x)
    ensures F.El(0) && Quartic(F, 0, b, c, d, x) == Xor(d, Linear(F, b, c, x))
  {
    hide F.Ok, GfMul, GfSqr, Xor, Linear;
    FieldShape(F);
    var x2 := GfSqr(F, x);
    MulZero(F, GfMul(F, x2, x));
    XorZero(GfSqr(F, x2));
    LinearDef(F, b, c, x);
    var p, q, r := GfMul(F, c, x), GfMul(F, b, x2), GfSqr(F, x2);
    XorComm(p, Xor(q, r));
    XorComm(q, r);
  }

  lemma {:induction false} Sum8(d: nat, p: nat, q: nat, r: nat, s: nat, t: nat, u: nat)
    ensures Xor(d, Xor(Xor(p, q), Xor(Xor(r, s), Xor(t, u)))) == Xor(Xor(Xor(u, s), d), Xor(Xor(q, r), Xor(p, t)))
  {
    hide Xor;
    // (p + q) + ((r + s) + (t + u)) = (q + r) + (p + t) + (s + u)
    Sum3(Xor(p, q), Xor(r, s), Xor(t, u));
    XorComm(p, q);
    XorSwap4(q, p, r, s);
    XorSwap4(Xor(q, r), Xor(p, s), t, u);
    var qr := Xor(q, r);
    XorAssoc(qr, Xor(p, s), Xor(t, u));
    XorSwap4(p, s, t, u);
    XorAssoc(qr, Xor(p, t), Xor(s, u));
    var rest := Xor(qr, Xor(p, t));
    // d + (rest + (s + u)) = ((u + s) + d) + rest
    XorComm(s, u);
    Sum3(d, rest, Xor(u, s));
    XorComm(d, Xor(u, s));
    XorComm(rest, Xor(Xor(u, s), d));
  }

  /** With e^2 = f and a f = c, the substitution z = x + e removes the linear term. */
  lemma {:induction false} QuarticShift(F: Field, a: nat, b: nat, c: nat, d: nat, e: nat, f: nat, x: nat, z: nat)
    requires F.Ok() && F.El(a) && F.El(b) && F.El(c) && F.El(d) && F.El(e) && F.El(f) && F.El(x) && F.El(z)
    requires f == GfSqr(F, e) && GfMul(F, a, f) == c && x == Xor(z, e)
    ensures F.El(0) && F.El(Xor(GfMul(F, a, e), b)) && F.El(Xor(Xor(GfSqr(F, f), GfMul(F, b, f)), d))
    ensures Quartic(F, a, b, c, d, x)
      == Quartic(F, a, Xor(GfMul(F, a, e), b), 0, Xor(Xor(GfSqr(F, f), GfMul(F, b, f)), d), z)
  {
    hide F.Ok, GfMul, GfSqr, Xor;
    FieldShape(F);
    var x2, z2, ae := GfSqr(F, x), GfSqr(F, z), GfMul(F, a, e);
    var x3, z3, f2, bf := GfMul(F, x2, x), GfMul(F, z2, z), GfSqr(F, f), GfMul(F, b, f);
    In(F, ae, b);
    In(F, f2, bf);
    In(F, Xor(f2, bf), d);
    SqrXor(F, z, e);
    SqrXor(F, z2, f);
    // c x + a x3 = a (x (x2 + f)) = a (x z2) = a z3 + (a e) z2
    CubicPart(F, a, e, f, c, x, z);
    // b x2 = b z2 + b f
    MulDistrib(F, b, z2, f);
    var cx, bx2, ax3 := GfMul(F, c, x), GfMul(F, b, x2), GfMul(F, a, x3);
    var az3, aez2, bz2 := GfMul(F, a, z3), GfMul(F, ae, z2), GfMul(F, b, z2);
    var z4, x4 := GfSqr(F, z2), GfSqr(F, x2);
    Sum3(cx, bx2, Xor(ax3, x4));
    Sum3(bx2, ax3, x4);
    Group(cx, bx2, ax3, x4, az3, aez2);
    Sum8(d, az3, aez2, bz2, bf, z4, f2);
    MulDistribLeft(F, ae, b, z2);
    MulZero(F, z);
    XorZero(Xor(Xor(aez2, bz2), Xor(az3, z4)));
  }

  lemma {:induction false} Group(p: nat, q: nat, r: nat, s: nat, u: nat, v: nat)
    requires Xor(p, r) == Xor(u, v)
    ensures Xor(p, Xor(q, Xor(r, s))) == Xor(Xor(u, v), Xor(q, s))
  {
    hide Xor;
    Sum3(q, r, s);
    XorAssoc(p, r, Xor(q, s));
  }

  lemma {:induction false} CubicPart(F: Field, a: nat, e: nat, f: nat, c: nat, x: nat, z: nat)
    requires F.Ok() && F.El(a) && F.El(c) && F.El(e) && F.El(f) && F.El(x) && F.El(z)
    requires f == GfSqr(F, e) && GfMul(F, a, f) == c && x == Xor(z, e)
    ensures Xor(GfMul(F, c, x), GfMul(F, a, GfMul(F, GfSqr(F, x), x)))
      == Xor(GfMul(F, a, GfMul(F, GfSqr(F, z), z)), GfMul(F, GfMul(F, a, e), GfSqr(F, z)))
  {
    hide F.Ok, GfMul, GfSqr, Xor;
    var x2, z2 := GfSqr(F, x), GfSqr(F, z);
    SqrXor(F, z, e);
    // c x = a (f x)
    Product3(F, a, f, x);
    MulDistrib(F, a, GfMul(F, f, x), GfMul(F, x2, x));
    MulDistribLeft(F, f, x2, x);
    XorComm(z2, f);
    XorSolve(f, z2);
    // z2 x = z2 z + z2 e
    MulDistrib(F, z2, z, e);
    MulDistrib(F, a, GfMul(F, z2, z), GfMul(F, z2, e));
    MulComm(F, z2, e);
    Product3(F, a, e, z2);
  }

  /** The reciprocal of a root z of z^4 + a z^3 + b z^2 + d is a root of an affine polynomial. */
  lemma {:induction false} Reciprocal(F: Field, a: nat, b: nat, d: nat, z: nat, y: nat, a2: nat, b2: nat, c2: nat)
    requires F.Ok() && F.El(a) && F.El(b) && F.El(d) && F.El(z) && F.El(y) && F.El(a2) && F.El(b2) && F.El(c2)
    requires d != 0 && z != 0 && GfMul(F, z, y) == 1 && GfMul(F, d, a2) == b && GfMul(F, d, b2) == a
             && GfMul(F, d, c2) == 1
    ensures F.El(0) && (Quartic(F, a, b, 0, d, z) == 0 <==> Linear(F, a2, b2, y) == c2)
  {
    hide F.Ok, GfMul, GfSqr, Xor, Linear;
    FieldShape(F);
    var z2, y2 := GfSqr(F, z), GfSqr(F, y);
    var z4, y4 := GfSqr(F, z2), GfSqr(F, y2);
    var k := GfMul(F, d, z4);
    NonzeroPowers(F, z);
    MulNonzero(F, d, z4);
    PowersCancel(F, z, y);
    var p, q := GfMul(F, a2, y2), GfMul(F, b2, y);
    // k times the four terms
    MulOne(F, y4);
    MulOne(F, d);
    Scaled(F, d, z4, 1, y4, d);
    Scaled(F, d, z4, a2, y2, b);
    Scaled(F, d, z4, b2, y, a);
    Scaled(F, d, z4, c2, 1, 1);
    MulOne(F, c2);
    MulOne(F, z4);
    LinearDef(F, a2, b2, y);
    var l := Linear(F, a2, b2, y);
    In(F, y4, p);
    In(F, l, c2);
    MulDistrib(F, k, y4, p);
    MulDistrib(F, k, Xor(y4, p), q);
    MulDistrib(F, k, l, c2);
    var bz2, az3 := GfMul(F, b, z2), GfMul(F, a, GfMul(F, z2, z));
    MulZero(F, z);
    XorZero(Xor(bz2, Xor(az3, z4)));
    XorAssoc(Xor(d, bz2), az3, z4);
    XorAssoc(d, bz2, Xor(az3, z4));
    SumZero(l, c2);
    MulZero(F, k);
    if Xor(l, c2) != 0 { MulNonzero(F, k, Xor(l, c2)); }
  }

  lemma {:induction false} NonzeroPowers(F: Field, z: nat)
    requires F.Ok() && F.El(z) && z != 0
    ensures GfSqr(F, z) != 0 && GfSqr(F, GfSqr(F, z)) != 0
  {
    hide F.Ok, GfMul, GfSqr;
    SqrIsMul(F, z);
    MulNonzero(F, z, z);
    var z2 := GfSqr(F, z);
    SqrIsMul(F, z2);
    MulNonzero(F, z2, z2);
  }

  lemma {:induction false} PowersCancel(F: Field, z: nat, y: nat)
    requires F.Ok() && F.El(z) && F.El(y) && GfMul(F, z, y) == 1
    ensures GfMul(F, GfSqr(F, GfSqr(F, z)), GfSqr(F, GfSqr(F, y))) == 1
    ensures GfMul(F, GfSqr(F, GfSqr(F, z)), GfSqr(F, y)) == GfSqr(F, z)
    ensures GfMul(F, GfSqr(F, GfSqr(F, z)), y) == GfMul(F, GfSqr(F, z), z)
  {
    hide F.Ok, GfMul, GfSqr;
    FieldShape(F);
    var z2, y2 := GfSqr(F, z), GfSqr(F, y);
    SqrMul(F, z, y);
    SqrIsMul(F, 1);
    MulOne(F, 1);
    SqrMul(F, z2, y2);
    SqrIsMul(F, z2);
    MulAssoc(F, z2, z2, y2);
    MulOne(F, z2);
    MulAssoc(F, z2, z2, y);
    SqrIsMul(F, z);
    MulAssoc(F, z, z, y);
    MulOne(F, z);
  }

  /** (d w) (k y) = (d k) (w y). */
  lemma {:induction false} Scaled(F: Field, d: nat, w: nat, k: nat, y: nat, r: nat)
    requires F.Ok() && F.El(d) && F.El(w) && F.El(k) && F.El(y) && F.El(r) && GfMul(F, d, k) == r
    ensures GfMul(F, GfMul(F, d, w), GfMul(F, k, y)) == GfMul(F, r, GfMul(F, w, y))
  {
    hide F.Ok, GfMul;
    Product3(F, d, w, GfMul(F, k, y));
    Product3(F, w, k, y);
    Product3(F, d, k, GfMul(F, w, y));
  }
}
