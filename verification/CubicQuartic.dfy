/** Roots of error locators of degree 3 and 4. */
module CubicQuartic {
  import opened Common
  import opened Gf2
  import opened GaloisField
  import opened FieldLaws
  import opened FieldPoly
  import opened PowerSeries
  import opened BerlekampMassey
  import opened Locator
  import opened LocatorUnique
  import opened Chien
  import opened LowRoots
  import opened LinearSolve
  import opened AffineRoots
  import opened QuarticForms
  import opened RootSets

  // ----- lists without one element

  function Except(s: seq<nat>, v: nat): seq<nat> {
    if s == [] then []
    else Except(s[..|s| - 1], v) + if s[|s| - 1] != v then [s[|s| - 1]] else []
  }

  lemma {:induction false} ExceptIn(s: seq<nat>, v: nat, x: nat)
    ensures x in Except(s, v) <==> x in s && x != v
  {
    if s != [] {
      var k := |s| - 1;
      ExceptIn(s[..k], v, x);
      assert s == s[..k] + [s[k]];
    }
  }

  lemma {:induction false} ExceptSize(s: seq<nat>, v: nat)
    requires Distinct(s)
    ensures Distinct(Except(s, v)) && |Except(s, v)| == if v in s then |s| - 1 else |s|
  {
    if s != [] {
      var k := |s| - 1;
      var t := Except(s[..k], v);
      ExceptSize(s[..k], v);
      assert s == s[..k] + [s[k]];
      forall i | 0 <= i < |t| ensures t[i] != s[k] {
        ExceptIn(s[..k], v, t[i]);
        var j :| 0 <= j < k && s[..k][j] == t[i];
        assert s[j] != s[k];
      }
    }
  }

  // ----- degree 3

  lemma {:induction false} CubicValue(F: Field, c: seq<nat>, x: nat, m0: nat, m1: nat, m2: nat)
    requires F.Ok() && IsPoly(F, c) && |c| >= 4 && c[3] != 0 && F.El(x)
    requires m0 == GfDiv(F, c[0], c[3]) && m1 == GfDiv(F, c[1], c[3]) && m2 == GfDiv(F, c[2], c[3])
    ensures F.El(Xor(m2, x)) && F.El(Xor(m1, GfMul(F, x, Xor(m2, x))))
    ensures F.El(Xor(m0, GfMul(F, x, Xor(m1, GfMul(F, x, Xor(m2, x))))))
    ensures IsZero(F, c, 3, x) <==> Xor(m0, GfMul(F, x, Xor(m1, GfMul(F, x, Xor(m2, x))))) == 0
  {
    hide F.Ok, GfMul, GfDiv, Xor, EvalSer, Monic, SerTo;
    In(F, m2, x);
    In(F, m1, GfMul(F, x, Xor(m2, x)));
    In(F, m0, GfMul(F, x, Xor(m1, GfMul(F, x, Xor(m2, x)))));
    MonicValue(F, c, 3, x);
    var a := Monic(F, c, 3);
    MonicAt(F, c, 3, 0);
    MonicAt(F, c, 3, 1);
    MonicAt(F, c, 3, 2);
    MonicAt(F, c, 3, 3);
    DivSelf(F, c[3]);
    EvalSerStep(F, a, 3, x);
    EvalSerStep(F, Tail(a), 2, x);
    EvalSerStep(F, Tail(Tail(a)), 1, x);
    EvalSerStep(F, Tail(Tail(Tail(a))), 0, x);
    MulOne(F, x);
  }

  /** The roots of the affine polynomial are those of the cubic and a2. */
  lemma {:induction false} CubicRoots(F: Field, c: seq<nat>, x: nat, m0: nat, m1: nat, m2: nat, a: nat, b: nat, e: nat)
    requires F.Ok() && IsPoly(F, c) && |c| >= 4 && c[3] != 0 && F.El(x)
    requires m0 == GfDiv(F, c[0], c[3]) && m1 == GfDiv(F, c[1], c[3]) && m2 == GfDiv(F, c[2], c[3])
    requires F.El(a) && F.El(b) && a == Xor(GfSqr(F, m2), m1) && b == Xor(GfMul(F, m2, m1), m0) && e == GfMul(F, m2, m0)
    ensures IsAffineRoot(F, a, b, e, x) <==> IsZero(F, c, 3, x) || x == m2
  {
    hide F.Ok, GfMul, GfDiv, GfSqr, Xor, Linear, IsZero;
    CubicValue(F, c, x, m0, m1, m2);
    var u := GfMul(F, x, Xor(m2, x));
    var q := Xor(m1, u);
    var p := Xor(m0, GfMul(F, x, q));
    CubicProduct(F, m2, m1, m0, x, u, q, p);
    SumZero(Linear(F, a, b, x), e);
    SumZero(x, m2);
    var s := Xor(x, m2);
    MulZero(F, p);
    MulZero(F, s);
    if s != 0 && p != 0 { MulNonzero(F, s, p); }
  }

  /** The sum of three roots of an affine polynomial is a root. */
  lemma {:induction false} SumIsRoot(F: Field, a: nat, b: nat, c: nat, x: nat, y: nat, z: nat)
    requires F.Ok() && F.El(a) && F.El(b) && IsAffineRoot(F, a, b, c, x) && IsAffineRoot(F, a, b, c, y)
             && IsAffineRoot(F, a, b, c, z)
    ensures IsAffineRoot(F, a, b, c, Xor(Xor(x, y), z))
  {
    hide F.Ok, Xor, Linear;
    LinearAdd(F, a, b, x, y);
    LinearAdd(F, a, b, Xor(x, y), z);
    XorSelf(c);
    XorZero(c);
  }

  lemma {:induction false} SumIsNew(x: nat, y: nat, z: nat)
    requires x != y && x != z && y != z
    ensures Xor(Xor(x, y), z) != x && Xor(Xor(x, y), z) != y && Xor(Xor(x, y), z) != z
  {
    hide Xor;
    var w := Xor(Xor(x, y), z);
    Sum3(x, y, z);
    SumZero(y, z);
    SumZero(x, z);
    SumZero(x, y);
    if w == x { XorSolve(x, Xor(y, z)); XorSelf(x); }
    if w == y { XorSolve(y, Xor(x, z)); XorSelf(y); }
    if w == z { XorSolve(Xor(x, y), z); XorSelf(z); }
  }

  /** Three roots of the cubic make four roots of the affine polynomial. */
  lemma {:induction false} CubicComplete(F: Field, c: seq<nat>, xs: seq<nat>, m0: nat, m1: nat, m2: nat, a: nat,
                                         b: nat, e: nat)
    requires F.Ok() && IsPoly(F, c) && |c| >= 4 && c[3] != 0 && RootsAre(F, c, 3, xs)
    requires m0 == GfDiv(F, c[0], c[3]) && m1 == GfDiv(F, c[1], c[3]) && m2 == GfDiv(F, c[2], c[3])
    requires F.El(a) && F.El(b) && a == Xor(GfSqr(F, m2), m1) && b == Xor(GfMul(F, m2, m1), m0) && e == GfMul(F, m2, m0)
    ensures AffineRootsAre(F, a, b, e, xs + [m2])
  {
    hide F.Ok, GfMul, GfDiv, GfSqr, Xor, IsAffineRoot, IsZero;
    forall i: nat | i < 3 ensures F.El(xs[i]) && IsZero(F, c, 3, xs[i]) && IsAffineRoot(F, a, b, e, xs[i]) {
      RootAt(F, c, 3, xs, i);
      CubicRoots(F, c, xs[i], m0, m1, m2, a, b, e);
    }
    var w := Xor(Xor(xs[0], xs[1]), xs[2]);
    SumIsRoot(F, a, b, e, xs[0], xs[1], xs[2]);
    SumIsNew(xs[0], xs[1], xs[2]);
    AffineIn(F, a, b, e, w);
    CubicRoots(F, c, w, m0, m1, m2, a, b, e);
    if IsZero(F, c, 3, w) { NoMore(F, c, 3, xs, w); }
    Another(xs, m2);
    CubicRoots(F, c, m2, m0, m1, m2, a, b, e);
    forall x: nat ensures x in xs + [m2] <==> IsAffineRoot(F, a, b, e, x) {
      if IsAffineRoot(F, a, b, e, x) {
        AffineIn(F, a, b, e, x);
        CubicRoots(F, c, x, m0, m1, m2, a, b, e);
        if IsZero(F, c, 3, x) { NoMore(F, c, 3, xs, x); }
      }
    }
  }

  lemma {:induction false} AffineIn(F: Field, a: nat, b: nat, c: nat, x: nat)
    requires F.Ok() && F.El(a) && F.El(b) && IsAffineRoot(F, a, b, c, x)
    ensures F.El(x)
  {
  }

  /** Four roots of the affine polynomial without a2 are the roots of the cubic. */
  lemma {:induction false} CubicSound(F: Field, c: seq<nat>, tmp: seq<nat>, m0: nat, m1: nat, m2: nat, a: nat,
                                      b: nat, e: nat)
    requires F.Ok() && IsPoly(F, c) && |c| >= 4 && c[3] != 0 && c[0] != 0
    requires m0 == GfDiv(F, c[0], c[3]) && m1 == GfDiv(F, c[1], c[3]) && m2 == GfDiv(F, c[2], c[3])
    requires F.El(a) && F.El(b) && a == Xor(GfSqr(F, m2), m1) && b == Xor(GfMul(F, m2, m1), m0) && e == GfMul(F, m2, m0)
    requires |tmp| == 4 && AffineRootsAre(F, a, b, e, tmp)
    ensures RootsAre(F, c, 3, Except(tmp, m2))
    ensures forall i :: 0 <= i < |tmp| ==> F.El(tmp[i]) && (tmp[i] != m2 ==> tmp[i] != 0)
  {
    hide F.Ok, GfMul, GfDiv, GfSqr, Xor, IsAffineRoot, IsZero, Except;
    CubicRoots(F, c, m2, m0, m1, m2, a, b, e);
    ExceptSize(tmp, m2);
    var xs := Except(tmp, m2);
    forall i | 0 <= i < |xs| ensures IsZero(F, c, 3, xs[i]) {
      ExceptIn(tmp, m2, xs[i]);
      AffineIn(F, a, b, e, xs[i]);
      CubicRoots(F, c, xs[i], m0, m1, m2, a, b, e);
    }
    ValueAtZero(F, c, 3);
    forall i | 0 <= i < |tmp| ensures F.El(tmp[i]) && (tmp[i] != m2 ==> tmp[i] != 0) {
      assert tmp[i] in tmp;
      AffineIn(F, a, b, e, tmp[i]);
      CubicRoots(F, c, tmp[i], m0, m1, m2, a, b, e);
    }
  }

  lemma {:induction false} ExceptElements(F: Field, s: seq<nat>, v: nat)
    requires forall i :: 0 <= i < |s| ==> F.El(s[i]) && (s[i] != v ==> s[i] != 0)
    ensures forall i :: 0 <= i < |Except(s, v)| ==> F.El(Except(s, v)[i]) && Except(s, v)[i] != 0
  {
    hide Except;
    var t := Except(s, v);
    forall i | 0 <= i < |t| ensures F.El(t[i]) && t[i] != 0 {
      ExceptIn(s, v, t[i]);
      var j :| 0 <= j < |s| && s[j] == t[i];
    }
  }

  /** The positions of the elements of s other than v. */
  method PositionsExcept(F: Field, s: seq<nat>, v: nat) returns (ps: seq<nat>)
    requires F.Ok() && forall i :: 0 <= i < |s| ==> F.El(s[i]) && (s[i] != v ==> s[i] != 0)
    ensures forall i :: 0 <= i < |Except(s, v)| ==> F.El(Except(s, v)[i]) && Except(s, v)[i] != 0
    ensures ps == PositionsOf(F, Except(s, v))
  {
    hide F.Ok, Position, Pow2;
    ExceptElements(F, s, v);
    ps := [];
    for i := 0 to |s|
      invariant forall j :: 0 <= j < |Except(s[..i], v)| ==> F.El(Except(s[..i], v)[j]) && Except(s[..i], v)[j] != 0
      invariant ps == PositionsOf(F, Except(s[..i], v))
    {
      assert s[..i + 1][..i] == s[..i];
      ExceptElements(F, s[..i + 1], v);
      if s[i] != v { ps := ps + [Position(F, s[i])]; }
    }
    assert s[..|s|] == s;
  }

  /** find_poly_deg3_roots. */
  method FindDeg3Roots(F: Field, c: seq<nat>) returns (roots: seq<nat>)
    requires F.Ok() && 5 <= F.m <= 15 && IsPoly(F, c) && |c| >= 4 && c[3] != 0
    ensures Finds(F, c, 3, F.N(), roots)
  {
    hide F.Ok, GfMul, GfDiv, GfSqr, Xor, AffineRootsAre, RootsAre, AllRoots, ElementsAt, Except, PositionsOf;
    roots := [];
    if c[0] != 0 {
      var e3 := c[3];
      var c2, b2, a2 := GfDiv(F, c[0], e3), GfDiv(F, c[1], e3), GfDiv(F, c[2], e3);
      var e := GfMul(F, a2, c2);
      In(F, GfMul(F, a2, b2), c2);
      In(F, GfSqr(F, a2), b2);
      var b := Xor(GfMul(F, a2, b2), c2);
      var a := Xor(GfSqr(F, a2), b2);
      var tmp := FindAffine4Roots(F, a, b, e);
      if |tmp| == 4 {
        CubicSound(F, c, tmp, c2, b2, a2, a, b, e);
        roots := PositionsExcept(F, tmp, a2);
        ToPositions(F, c, 3, Except(tmp, a2));
        RootsCount(F, c, 3, roots);
      } else {
        forall ps: seq<nat> ensures !AllRoots(F, c, 3, F.N(), ps) {
          if AllRoots(F, c, 3, F.N(), ps) {
            FromPositions(F, c, 3, ps);
            var xs := ElementsAt(F, ps);
            RootsSize(F, c, 3, xs);
            CubicComplete(F, c, xs, c2, b2, a2, a, b, e);
          }
        }
      }
    } else {
      forall ps: seq<nat> ensures !AllRoots(F, c, 3, F.N(), ps) { NoConstant(F, c, 3, ps); }
    }
  }

  lemma {:induction false} RootsCount(F: Field, c: seq<nat>, d: nat, ps: seq<nat>)
    requires F.Ok() && IsPoly(F, c) && AllRoots(F, c, d, F.N(), ps)
    ensures |ps| == d
  {
  }

  lemma {:induction false} RootsSize(F: Field, c: seq<nat>, d: nat, xs: seq<nat>)
    requires F.Ok() && IsPoly(F, c) && RootsAre(F, c, d, xs)
    ensures |xs| == d
  {
  }

  // ----- degree 4

  lemma {:induction false} QuarticValue(F: Field, c: seq<nat>, x: nat, m0: nat, m1: nat, m2: nat, m3: nat)
    requires F.Ok() && IsPoly(F, c) && |c| >= 5 && c[4] != 0 && F.El(x)
    requires m0 == GfDiv(F, c[0], c[4]) && m1 == GfDiv(F, c[1], c[4]) && m2 == GfDiv(F, c[2], c[4])
             && m3 == GfDiv(F, c[3], c[4])
    ensures IsZero(F, c, 4, x) <==> Quartic(F, m3, m2, m1, m0, x) == 0
  {
    hide F.Ok, GfMul, GfDiv, Xor, EvalSer, Monic, SerTo, Quartic;
    In(F, m3, x);
    var u := Xor(m2, GfMul(F, x, Xor(m3, x)));
    In(F, m2, GfMul(F, x, Xor(m3, x)));
    var v := Xor(m1, GfMul(F, x, u));
    In(F, m1, GfMul(F, x, u));
    QuarticIs(F, m3, m2, m1, m0, x, u, v, Xor(m0, GfMul(F, x, v)));
    MonicValue(F, c, 4, x);
    var a := Monic(F, c, 4);
    MonicAt(F, c, 4, 0);
    MonicAt(F, c, 4, 1);
    MonicAt(F, c, 4, 2);
    MonicAt(F, c, 4, 3);
    MonicAt(F, c, 4, 4);
    DivSelf(F, c[4]);
    EvalSerStep(F, a, 4, x);
    EvalSerStep(F, Tail(a), 3, x);
    EvalSerStep(F, Tail(Tail(a)), 2, x);
    EvalSerStep(F, Tail(Tail(Tail(a))), 1, x);
    EvalSerStep(F, Tail(Tail(Tail(Tail(a)))), 0, x);
    MulOne(F, x);
  }

  /** x is a root exactly when z = x + e is a root of z^4 + a z^3 + b z^2 + d. */
  ghost predicate Depressed(F: Field, c: seq<nat>, a: nat, b: nat, d: nat, e: nat)
    requires F.Ok() && IsPoly(F, c)
  {
    && F.El(0) && F.El(a) && F.El(b) && F.El(d) && F.El(e) && a != 0
    && forall x: nat :: F.El(x) ==> F.El(Xor(x, e)) && (IsZero(F, c, 4, x) <==> Quartic(F, a, b, 0, d, Xor(x, e)) == 0)
  }

  lemma {:induction false} DepressedAt(F: Field, c: seq<nat>, a: nat, b: nat, d: nat, e: nat, x: nat)
    requires F.Ok() && IsPoly(F, c) && Depressed(F, c, a, b, d, e) && F.El(x)
    ensures F.El(0) && F.El(a) && F.El(b) && F.El(d) && F.El(e) && a != 0 && F.El(Xor(x, e))
    ensures IsZero(F, c, 4, x) <==> Quartic(F, a, b, 0, d, Xor(x, e)) == 0
  {
    hide F.Ok, IsZero, Quartic, Xor;
  }

  /** The order of the group is odd, so an odd logarithm becomes even when it is added. */
  lemma {:induction false} EvenLog(F: Field, i: nat)
    requires F.Ok()
    ensures F.N() > 0 && (if i % 2 == 1 then i + F.N() else i) % 2 == 0
  {
    FieldShape(F);
    Pow2Double(F.m);
  }

  lemma {:induction false} SquareRoot(F: Field, f: nat, l: nat)
    requires F.Ok() && F.El(f) && f != 0 && f < |F.log| && F.log[f] >= 0 && F.N() > 0
    requires l == (if F.log[f] % 2 == 1 then F.log[f] + F.N() else F.log[f])
    ensures l % 2 == 0 && GfSqr(F, A(F, l / 2)) == f && A(F, 2 * l) == GfSqr(F, f)
  {
    hide F.Ok, GfSqr, A, Pow2, Order;
    ALog(F, f);
    EvenLog(F, F.log[f]);
    APeriod(F, F.log[f]);
    SqrPower(F, l / 2);
    SqrPower(F, l);
  }

  lemma {:induction false} ShiftDepresses(F: Field, c: seq<nat>, a: nat, b0: nat, c1: nat, d0: nat, f: nat, b: nat,
                                          d: nat, e: nat)
    requires F.Ok() && IsPoly(F, c) && |c| >= 5 && c[4] != 0 && a != 0 && F.El(f) && F.El(e)
    requires a == GfDiv(F, c[3], c[4]) && b0 == GfDiv(F, c[2], c[4]) && c1 == GfDiv(F, c[1], c[4])
             && d0 == GfDiv(F, c[0], c[4])
    requires f == GfSqr(F, e) && GfMul(F, a, f) == c1
    requires b == Xor(GfMul(F, a, e), b0) && d == Xor(Xor(GfSqr(F, f), GfMul(F, b0, f)), d0)
    ensures Depressed(F, c, a, b, d, e)
  {
    hide F.Ok, GfMul, GfDiv, GfSqr, Xor, Quartic, IsZero;
    FieldShape(F);
    In(F, GfMul(F, a, e), b0);
    In(F, GfSqr(F, f), GfMul(F, b0, f));
    In(F, Xor(GfSqr(F, f), GfMul(F, b0, f)), d0);
    forall x: nat | F.El(x)
      ensures F.El(Xor(x, e)) && (IsZero(F, c, 4, x) <==> Quartic(F, a, b, 0, d, Xor(x, e)) == 0)
    {
      In(F, x, e);
      XorSolve(x, e);
      QuarticShift(F, a, b0, c1, d0, e, f, x, Xor(x, e));
      QuarticValue(F, c, x, d0, c1, b0, a);
    }
  }

  lemma {:induction false} AlreadyDepressed(F: Field, c: seq<nat>, a: nat, b: nat, d: nat)
    requires F.Ok() && IsPoly(F, c) && |c| >= 5 && c[4] != 0 && a != 0 && GfDiv(F, c[1], c[4]) == 0
    requires a == GfDiv(F, c[3], c[4]) && b == GfDiv(F, c[2], c[4]) && d == GfDiv(F, c[0], c[4])
    ensures Depressed(F, c, a, b, d, 0)
  {
    hide F.Ok, GfMul, GfDiv, GfSqr, Xor, Quartic, IsZero;
    FieldShape(F);
    forall x: nat | F.El(x)
      ensures F.El(Xor(x, 0)) && (IsZero(F, c, 4, x) <==> Quartic(F, a, b, 0, d, Xor(x, 0)) == 0)
    {
      XorZero(x);
      QuarticValue(F, c, x, d, 0, b, a);
    }
  }

  /** Removes the linear term. */
  method Depress(F: Field, c: seq<nat>, a: nat, b0: nat, c1: nat, d0: nat) returns (b: nat, d: nat, e: nat)
    requires F.Ok() && F.m > 1 && IsPoly(F, c) && |c| >= 5 && c[4] != 0 && a != 0
    requires a == GfDiv(F, c[3], c[4]) && b0 == GfDiv(F, c[2], c[4]) && c1 == GfDiv(F, c[1], c[4])
             && d0 == GfDiv(F, c[0], c[4])
    ensures Depressed(F, c, a, b, d, e)
  {
    hide F.Ok, GfMul, GfDiv, GfSqr, Xor, Depressed, A, Pow2;
    if c1 != 0 {
      var f := GfDiv(F, c1, a);
      DivMul(F, c1, a);
      MulComm(F, f, a);
      NonzeroDiv(F, c1, a, f);
      LogEntry(F, f);
      var l := F.log[f];
      if l % 2 == 1 { l := l + F.N(); }
      SquareRoot(F, f, l);
      e := PowerOf(F, l / 2);
      var e4 := PowerOf(F, 2 * l);
      d := Xor(Xor(e4, GfMul(F, b0, f)), d0);
      b := Xor(GfMul(F, a, e), b0);
      ShiftDepresses(F, c, a, b0, c1, d0, f, b, d, e);
    } else {
      b, d, e := b0, d0, 0;
      AlreadyDepressed(F, c, a, b0, d0);
    }
  }

  lemma {:induction false} NonzeroDiv(F: Field, x: nat, y: nat, q: nat)
    requires F.Ok() && F.El(x) && F.El(y) && F.El(q) && GfMul(F, q, y) == x && x != 0
    ensures q != 0
  {
    hide F.Ok, GfMul;
    MulZero(F, y);
  }

  // ----- a double root

  lemma {:induction false} AtZero(F: Field, a: nat, b: nat, d: nat)
    requires F.Ok() && F.El(a) && F.El(b) && F.El(d)
    ensures F.El(0) && Quartic(F, a, b, 0, d, 0) == d
  {
    hide F.Ok, GfMul, GfSqr, Xor;
    FieldShape(F);
    MulZero(F, 0);
    MulZero(F, a);
    MulZero(F, b);
    SqrIsMul(F, 0);
    XorZero(0);
    XorZero(d);
  }

  lemma {:induction false} QuadraticFactor(F: Field, a: nat, b: nat, z: nat)
    requires F.Ok() && F.El(a) && F.El(b) && F.El(z) && z != 0 && F.El(0) && Quartic(F, a, b, 0, 0, z) == 0
    ensures IsPoly(F, [b, a, 1]) && Eval(F, [b, a, 1], z) == 0
  {
    hide F.Ok, GfMul, GfSqr, Xor;
    FieldShape(F);
    var z2, az := GfSqr(F, z), GfMul(F, a, z);
    var q := Xor(b, Xor(az, z2));
    In(F, az, z2);
    In(F, b, Xor(az, z2));
    // the value is z2 q
    MulDistrib(F, z2, b, Xor(az, z2));
    MulDistrib(F, z2, az, z2);
    MulComm(F, z2, b);
    Product3(F, z2, a, z);
    SqrIsMul(F, z2);
    MulZero(F, z);
    var bz2, az3, z4 := GfMul(F, b, z2), GfMul(F, a, GfMul(F, z2, z)), GfSqr(F, z2);
    XorZero(Xor(bz2, Xor(az3, z4)));
    NonzeroPowers(F, z);
    if q != 0 { MulNonzero(F, z2, q); }
    // and q is the quadratic at z
    QuadraticAt(F, a, b, z);
  }

  lemma {:induction false} QuadraticAt(F: Field, a: nat, b: nat, z: nat)
    requires F.Ok() && F.El(a) && F.El(b) && F.El(z)
    ensures IsPoly(F, [b, a, 1]) && Eval(F, [b, a, 1], z) == Xor(b, Xor(GfMul(F, a, z), GfSqr(F, z)))
  {
    hide F.Ok, GfMul, GfSqr, Xor;
    FieldShape(F);
    var c := [b, a, 1];
    assert c[1..] == [a, 1] && [a, 1][1..] == [1] && [1][1..] == [];
    MulZero(F, z);
    XorZero(1);
    MulOne(F, z);
    In(F, a, z);
    MulDistrib(F, z, a, z);
    MulComm(F, z, a);
    SqrIsMul(F, z);
    assert Eval(F, [1], z) == 1;
    assert Eval(F, [a, 1], z) == Xor(a, z);
  }

  ghost function Moved(xs: seq<nat>, e: nat): (zs: seq<nat>)
    ensures |zs| == |xs| && forall i :: 0 <= i < |xs| ==> zs[i] == Xor(xs[i], e)
  {
    seq(|xs|, i requires 0 <= i < |xs| => Xor(xs[i], e))
  }

  lemma {:induction false} MovedDistinct(xs: seq<nat>, e: nat)
    requires Distinct(xs)
    ensures Distinct(Moved(xs, e))
  {
    hide Xor;
    var zs := Moved(xs, e);
    forall i, j | 0 <= i < j < |zs| ensures zs[i] != zs[j] {
      XorSolve(xs[i], e);
      XorSolve(xs[j], e);
    }
  }

  /** With d = 0 the root e is double, and there are not four different ones. */
  lemma {:induction false} DoubleRoot(F: Field, c: seq<nat>, a: nat, b: nat, e: nat, xs: seq<nat>)
    requires F.Ok() && IsPoly(F, c) && |c| >= 5 && c[4] != 0 && Depressed(F, c, a, b, 0, e)
    ensures !RootsAre(F, c, 4, xs)
  {
    hide F.Ok, Xor, Quartic, IsZero, Except, Depressed, Eval;
    if RootsAre(F, c, 4, xs) {
      RootAt(F, c, 4, xs, 0);
      DepressedAt(F, c, a, b, 0, e, xs[0]);
      DepressedAt(F, c, a, b, 0, e, e);
      XorSelf(e);
      AtZero(F, a, b, 0);
      NoMore(F, c, 4, xs, e);
      ExceptSize(xs, e);
      var ys := Except(xs, e);
      var zs := Moved(ys, e);
      MovedDistinct(ys, e);
      var p := [b, a, 1];
      forall i | 0 <= i < |zs| ensures F.El(zs[i]) && IsPoly(F, p) && Eval(F, p, zs[i]) == 0 {
        ExceptIn(xs, e, ys[i]);
        var j: nat :| j < |xs| && xs[j] == ys[i];
        RootAt(F, c, 4, xs, j);
        DepressedAt(F, c, a, b, 0, e, ys[i]);
        SumZero(ys[i], e);
        QuadraticFactor(F, a, b, zs[i]);
      }
      QuadraticAt(F, a, b, zs[0]);
      assert p[2] == 1;
      RootsBound(F, p, zs);
    }
  }

  // ----- four roots

  /** The element whose reciprocal, moved by e, is x. */
  function FromRoot(F: Field, y: nat, e: nat): nat
    requires F.Ok() && F.El(y) && y != 0
  {
    Xor(GfInv(F, y), e)
  }

  lemma {:induction false} InverseTwice(F: Field, y: nat)
    requires F.Ok() && F.El(y) && y != 0
    ensures GfInv(F, y) != 0 && GfInv(F, GfInv(F, y)) == y && GfMul(F, GfInv(F, y), y) == 1
  {
    hide F.Ok, GfMul, GfInv;
    MulInverse(F, y);
    MulZero(F, y);
    var z := GfInv(F, y);
    MulInverse(F, z);
    MulComm(F, y, z);
    MulCancel(F, z, y, GfInv(F, z));
  }

  /** The constants of the affine polynomial for the reciprocals. */
  ghost predicate Inverted(F: Field, a: nat, b: nat, d: nat, a2: nat, b2: nat, c2: nat)
    requires F.Ok()
  {
    && F.El(a) && F.El(b) && F.El(d) && d != 0 && a2 == GfDiv(F, b, d) && b2 == GfDiv(F, a, d) && c2 == GfInv(F, d)
  }

  lemma {:induction false} InvertedFacts(F: Field, a: nat, b: nat, d: nat, a2: nat, b2: nat, c2: nat)
    requires F.Ok() && Inverted(F, a, b, d, a2, b2, c2)
    ensures F.El(a2) && F.El(b2) && F.El(c2) && c2 != 0
    ensures GfMul(F, d, a2) == b && GfMul(F, d, b2) == a && GfMul(F, d, c2) == 1
  {
    hide F.Ok, GfMul, GfDiv, GfInv;
    DivMul(F, b, d);
    DivMul(F, a, d);
    MulComm(F, d, a2);
    MulComm(F, d, b2);
    MulInverse(F, d);
    InverseTwice(F, d);
  }

  /** A nonzero y is a root of the affine polynomial exactly when its element is a root of the quartic. */
  lemma {:induction false} Corresponds(F: Field, c: seq<nat>, a: nat, b: nat, d: nat, e: nat, a2: nat, b2: nat,
                                       c2: nat, y: nat)
    requires F.Ok() && IsPoly(F, c) && Depressed(F, c, a, b, d, e) && Inverted(F, a, b, d, a2, b2, c2) && F.El(y)
             && y != 0
    ensures F.El(a2) && F.El(b2) && F.El(FromRoot(F, y, e))
    ensures IsAffineRoot(F, a2, b2, c2, y) <==> IsZero(F, c, 4, FromRoot(F, y, e))
  {
    hide F.Ok, GfMul, GfInv, Xor, Quartic, IsZero, Depressed, Linear, Inverted;
    InvertedParts(F, a, b, d, a2, b2, c2);
    InvertedFacts(F, a, b, d, a2, b2, c2);
    InverseTwice(F, y);
    var z := GfInv(F, y);
    DepressedAt(F, c, a, b, d, e, z);
    DepressedAt(F, c, a, b, d, e, Xor(z, e));
    XorSolve(z, e);
    Reciprocal(F, a, b, d, z, y, a2, b2, c2);
  }

  lemma {:induction false} InvertedParts(F: Field, a: nat, b: nat, d: nat, a2: nat, b2: nat, c2: nat)
    requires F.Ok() && Inverted(F, a, b, d, a2, b2, c2)
    ensures F.El(a) && F.El(b) && F.El(d) && d != 0
  {
  }

  /** Zero is no root of the affine polynomial. */
  lemma {:induction false} AffineNonzero(F: Field, a: nat, b: nat, c: nat, y: nat)
    requires F.Ok() && F.El(a) && F.El(b) && c != 0 && IsAffineRoot(F, a, b, c, y)
    ensures F.El(y) && y != 0
  {
    hide F.Ok, Linear;
    LinearZero(F, a, b);
  }

  /** The elements of the roots. */
  function FromRoots(F: Field, ys: seq<nat>, e: nat): (xs: seq<nat>)
    requires F.Ok() && forall i :: 0 <= i < |ys| ==> F.El(ys[i]) && ys[i] != 0
    ensures |xs| == |ys| && forall i :: 0 <= i < |ys| ==> xs[i] == FromRoot(F, ys[i], e)
  {
    seq(|ys|, i requires 0 <= i < |ys| => FromRoot(F, ys[i], e))
  }

  lemma {:induction false} FromRootInjective(F: Field, y: nat, y': nat, e: nat)
    requires F.Ok() && F.El(y) && y != 0 && F.El(y') && y' != 0 && FromRoot(F, y, e) == FromRoot(F, y', e)
    ensures y == y'
  {
    hide F.Ok, GfInv, Xor;
    XorSolve(GfInv(F, y), e);
    XorSolve(GfInv(F, y'), e);
    InverseTwice(F, y);
    InverseTwice(F, y');
  }

  lemma {:induction false} QuarticSound(F: Field, c: seq<nat>, a: nat, b: nat, d: nat, e: nat, a2: nat, b2: nat,
                                        c2: nat, ys: seq<nat>)
    requires F.Ok() && IsPoly(F, c) && |c| >= 5 && Depressed(F, c, a, b, d, e) && Inverted(F, a, b, d, a2, b2, c2)
    requires F.El(a2) && F.El(b2) && |ys| == 4 && AffineRootsAre(F, a2, b2, c2, ys)
    ensures forall i :: 0 <= i < |ys| ==> F.El(ys[i]) && ys[i] != 0
    ensures RootsAre(F, c, 4, FromRoots(F, ys, e))
  {
    hide F.Ok, IsZero, Depressed, Inverted, IsAffineRoot, FromRoot;
    InvertedFacts(F, a, b, d, a2, b2, c2);
    forall i | 0 <= i < |ys| ensures F.El(ys[i]) && ys[i] != 0 && IsAffineRoot(F, a2, b2, c2, ys[i]) {
      assert ys[i] in ys;
      AffineNonzero(F, a2, b2, c2, ys[i]);
    }
    var xs := FromRoots(F, ys, e);
    forall i | 0 <= i < |xs| ensures IsZero(F, c, 4, xs[i]) { Corresponds(F, c, a, b, d, e, a2, b2, c2, ys[i]); }
    forall i, j | 0 <= i < j < |xs| ensures xs[i] != xs[j] {
      if xs[i] == xs[j] { FromRootInjective(F, ys[i], ys[j], e); }
    }
  }

  /** The nonzero y that stands for x. */
  ghost function ToRoot(F: Field, x: nat, e: nat): nat
    requires F.Ok() && F.El(x) && F.El(e)
  {
    In(F, x, e);
    if x == e then 0 else SumZero(x, e); GfInv(F, Xor(x, e))
  }

  lemma {:induction false} ToAndFrom(F: Field, x: nat, e: nat)
    requires F.Ok() && F.El(x) && F.El(e) && x != e
    ensures F.El(ToRoot(F, x, e)) && ToRoot(F, x, e) != 0 && FromRoot(F, ToRoot(F, x, e), e) == x
  {
    hide F.Ok, GfInv, Xor;
    In(F, x, e);
    SumZero(x, e);
    InverseTwice(F, Xor(x, e));
    XorSolve(x, e);
  }

  ghost function ToRoots(F: Field, xs: seq<nat>, e: nat): (ys: seq<nat>)
    requires F.Ok() && F.El(e) && forall i :: 0 <= i < |xs| ==> F.El(xs[i])
    ensures |ys| == |xs| && forall i :: 0 <= i < |xs| ==> ys[i] == ToRoot(F, xs[i], e)
  {
    seq(|xs|, i requires 0 <= i < |xs| => ToRoot(F, xs[i], e))
  }

  lemma {:induction false} NotAtShift(F: Field, c: seq<nat>, a: nat, b: nat, d: nat, e: nat)
    requires F.Ok() && IsPoly(F, c) && Depressed(F, c, a, b, d, e) && d != 0
    ensures F.El(e) && !IsZero(F, c, 4, e)
  {
    hide F.Ok, Xor, Quartic, IsZero;
    DepressedAt(F, c, a, b, d, e, e);
    XorSelf(e);
    AtZero(F, a, b, d);
  }

  lemma {:induction false} QuarticComplete(F: Field, c: seq<nat>, a: nat, b: nat, d: nat, e: nat, a2: nat, b2: nat,
                                           c2: nat, xs: seq<nat>)
    requires F.Ok() && IsPoly(F, c) && |c| >= 5 && c[4] != 0 && Depressed(F, c, a, b, d, e)
             && Inverted(F, a, b, d, a2, b2, c2)
    requires F.El(a2) && F.El(b2) && RootsAre(F, c, 4, xs)
    ensures exists ys: seq<nat> :: |ys| == 4 && AffineRootsAre(F, a2, b2, c2, ys)
  {
    hide F.Ok, IsZero, Depressed, Inverted, IsAffineRoot, FromRoot, ToRoot;
    InvertedFacts(F, a, b, d, a2, b2, c2);
    InvertedParts(F, a, b, d, a2, b2, c2);
    NotAtShift(F, c, a, b, d, e);
    forall i | 0 <= i < |xs| ensures F.El(xs[i]) && xs[i] != e && IsZero(F, c, 4, xs[i]) { RootAt(F, c, 4, xs, i); }
    var ys := ToRoots(F, xs, e);
    forall i | 0 <= i < |ys|
      ensures F.El(ys[i]) && ys[i] != 0 && FromRoot(F, ys[i], e) == xs[i] && IsAffineRoot(F, a2, b2, c2, ys[i])
    {
      ToAndFrom(F, xs[i], e);
      Corresponds(F, c, a, b, d, e, a2, b2, c2, ys[i]);
    }
    forall i, j | 0 <= i < j < |ys| ensures ys[i] != ys[j] { assert xs[i] != xs[j]; }
    forall y: nat ensures y in ys <==> IsAffineRoot(F, a2, b2, c2, y) {
      if IsAffineRoot(F, a2, b2, c2, y) {
        AffineNonzero(F, a2, b2, c2, y);
        Corresponds(F, c, a, b, d, e, a2, b2, c2, y);
        var x := FromRoot(F, y, e);
        NoMore(F, c, 4, xs, x);
        var i :| 0 <= i < |xs| && xs[i] == x;
        FromRootInjective(F, y, ys[i], e);
      }
    }
    assert AffineRootsAre(F, a2, b2, c2, ys);
  }

  /** Without a cubic term the roots are those of the affine polynomial. */
  lemma {:induction false} AffineCase(F: Field, c: seq<nat>, b: nat, c1: nat, d: nat, x: nat)
    requires F.Ok() && IsPoly(F, c) && |c| >= 5 && c[4] != 0 && GfDiv(F, c[3], c[4]) == 0
    requires b == GfDiv(F, c[2], c[4]) && c1 == GfDiv(F, c[1], c[4]) && d == GfDiv(F, c[0], c[4])
    ensures IsAffineRoot(F, b, c1, d, x) <==> IsZero(F, c, 4, x)
  {
    hide F.Ok, GfDiv, Quartic, Linear, Xor;
    if F.El(x) {
      QuarticValue(F, c, x, d, c1, b, 0);
      QuarticAffine(F, b, c1, d, x);
      SumZero(d, Linear(F, b, c1, x));
    }
  }

  lemma {:induction false} AffineRootsCase(F: Field, c: seq<nat>, b: nat, c1: nat, d: nat, xs: seq<nat>)
    requires F.Ok() && IsPoly(F, c) && |c| >= 5 && c[4] != 0 && GfDiv(F, c[3], c[4]) == 0
    requires b == GfDiv(F, c[2], c[4]) && c1 == GfDiv(F, c[1], c[4]) && d == GfDiv(F, c[0], c[4])
    ensures |xs| == 4 && AffineRootsAre(F, b, c1, d, xs) <==> RootsAre(F, c, 4, xs)
  {
    hide F.Ok, GfDiv, IsAffineRoot, IsZero;
    forall x: nat ensures IsAffineRoot(F, b, c1, d, x) <==> IsZero(F, c, 4, x) { AffineCase(F, c, b, c1, d, x); }
    if RootsAre(F, c, 4, xs) {
      forall x: nat ensures x in xs <==> IsAffineRoot(F, b, c1, d, x) {
        if IsZero(F, c, 4, x) { NoMore(F, c, 4, xs, x); }
      }
    }
  }

  lemma {:induction false} DepressedParts(F: Field, c: seq<nat>, a: nat, b: nat, d: nat, e: nat)
    requires F.Ok() && IsPoly(F, c) && Depressed(F, c, a, b, d, e)
    ensures F.El(a) && F.El(b) && F.El(d) && F.El(e) && a != 0
  {
  }

  /** Roots of a polynomial with a constant term are not zero. */
  lemma {:induction false} RootsNonzero(F: Field, c: seq<nat>, d: nat, xs: seq<nat>)
    requires F.Ok() && IsPoly(F, c) && 0 < |c| && c[0] != 0 && RootsAre(F, c, d, xs)
    ensures forall i :: 0 <= i < |xs| ==> F.El(xs[i]) && xs[i] != 0
  {
    hide F.Ok, IsZero;
    ValueAtZero(F, c, d);
    forall i | 0 <= i < |xs| ensures F.El(xs[i]) && xs[i] != 0 { RootAt(F, c, d, xs, i); }
  }

  /** The case with a cubic term: reciprocals of the shifted polynomial. */
  method ViaReciprocals(F: Field, c: seq<nat>, a: nat, b: nat, d: nat, e: nat) returns (xs: seq<nat>)
    requires F.Ok() && 5 <= F.m <= 15 && IsPoly(F, c) && |c| >= 5 && c[4] != 0 && Depressed(F, c, a, b, d, e)
    ensures xs != [] ==> RootsAre(F, c, 4, xs)
    ensures xs == [] ==> forall s: seq<nat> :: !RootsAre(F, c, 4, s)
  {
    hide F.Ok, GfDiv, GfInv, Depressed, AffineRootsAre, RootsAre, FromRoots, FromRoot;
    if d == 0 {
      forall s: seq<nat> ensures !RootsAre(F, c, 4, s) { DoubleRoot(F, c, a, b, e, s); }
      return [];
    }
    DepressedParts(F, c, a, b, d, e);
    var c2, b2, a2 := GfInv(F, d), GfDiv(F, a, d), GfDiv(F, b, d);
    var ys := FindAffine4Roots(F, a2, b2, c2);
    if |ys| == 4 {
      QuarticSound(F, c, a, b, d, e, a2, b2, c2, ys);
      xs := FromRoots(F, ys, e);
    } else {
      forall s: seq<nat> ensures !RootsAre(F, c, 4, s) {
        if RootsAre(F, c, 4, s) { QuarticComplete(F, c, a, b, d, e, a2, b2, c2, s); }
      }
      xs := [];
    }
  }

  /** find_poly_deg4_roots. */
  method FindDeg4Roots(F: Field, c: seq<nat>) returns (roots: seq<nat>)
    requires F.Ok() && 5 <= F.m <= 15 && IsPoly(F, c) && |c| >= 5 && c[4] != 0
    ensures Finds(F, c, 4, F.N(), roots)
  {
    hide F.Ok, GfDiv, AffineRootsAre, RootsAre, AllRoots, ElementsAt, PositionsOf, Depressed;
    if c[0] == 0 {
      forall ps: seq<nat> ensures !AllRoots(F, c, 4, F.N(), ps) { NoConstant(F, c, 4, ps); }
      return [];
    }
    var e4 := c[4];
    var d, c1, b, a := GfDiv(F, c[0], e4), GfDiv(F, c[1], e4), GfDiv(F, c[2], e4), GfDiv(F, c[3], e4);
    var xs: seq<nat>;
    if a != 0 {
      var b', d', e := Depress(F, c, a, b, c1, d);
      xs := ViaReciprocals(F, c, a, b', d', e);
    } else {
      xs := FindAffine4Roots(F, b, c1, d);
      forall s: seq<nat> ensures |s| == 4 && AffineRootsAre(F, b, c1, d, s) <==> RootsAre(F, c, 4, s) {
        AffineRootsCase(F, c, b, c1, d, s);
      }
    }
    if xs != [] {
      RootsNonzero(F, c, 4, xs);
      roots := PositionsOf(F, xs);
      ToPositions(F, c, 4, xs);
      RootsCount(F, c, 4, roots);
    } else {
      roots := [];
      forall ps: seq<nat> ensures !AllRoots(F, c, 4, F.N(), ps) {
        if AllRoots(F, c, 4, F.N(), ps) { FromPositions(F, c, 4, ps); }
      }
    }
  }
}
