/** Root finding for error locators of degree 1 and 2. */
module LowRoots {
  import opened Gf2
  import opened GaloisField
  import opened FieldLaws
  import opened FieldPoly
  import opened PowerSeries
  import opened BerlekampMassey
  import opened Locator
  import opened LocatorUnique
  import opened Chien
  import opened TraceMap
  import opened DegreeTwo

  // ----- cancellation

  lemma {:induction false} MulCancel(F: Field, k: nat, x: nat, y: nat)
    requires F.Ok() && F.El(k) && F.El(x) && F.El(y) && k != 0 && GfMul(F, k, x) == GfMul(F, k, y)
    ensures x == y
  {
    hide F.Ok, GfMul, Pow2, Xor;
    MulDistrib(F, k, x, y);
    XorSelf(GfMul(F, k, x));
    if x != y {
      if Xor(x, y) == 0 { XorEqualZero(x, y); }
      MulNonzero(F, k, Xor(x, y));
    }
  }

  lemma {:induction false} InverseFromProduct(F: Field, q: nat, x: nat)
    requires F.Ok() && q < F.N() && F.El(x) && GfMul(F, A(F, q), x) == 1
    ensures x == Inverse(F, q)
  {
    hide F.Ok, GfMul, Pow2, A, Inverse;
    InverseProduct(F, q, q);
    MulCancel(F, A(F, q), x, Inverse(F, q));
  }

  lemma {:induction false} InverseInjective(F: Field, p: nat, q: nat)
    requires F.Ok() && p < F.N() && q < F.N() && Inverse(F, p) == Inverse(F, q)
    ensures p == q
  {
    hide F.Ok, GfMul, Pow2, A, Inverse;
    InverseProduct(F, p, p);
    InverseProduct(F, p, q);
  }

  /** The position whose inverse power is a^e. */
  lemma {:induction false} PositionOf(F: Field, e: nat, f: nat, q: nat)
    requires F.Ok() && q < F.N() && A(F, q) == A(F, f) && (e + f == F.N() || e + f == 3 * F.N())
    ensures Inverse(F, q) == A(F, e)
  {
    hide F.Ok, GfMul, Pow2, A, Inverse;
    MulPowers(F, f, e);
    AZero(F);
    APeriod(F, 0);
    APeriod(F, F.N());
    APeriod(F, 2 * F.N());
    InverseFromProduct(F, q, A(F, e));
  }

  // ----- degree 1

  lemma {:induction false} LinearValue(F: Field, c: seq<nat>, x: nat)
    requires F.Ok() && IsPoly(F, c) && |c| >= 2 && F.El(x)
    ensures IsSer(F, SerTo(c, 1)) && F.El(c[1])
    ensures EvalSer(F, SerTo(c, 1), 1, x) == Xor(c[0], GfMul(F, x, c[1]))
  {
    hide F.Ok, GfMul, Pow2, Xor, EvalSer;
    SerToIsSer(F, c, 1);
    var a := SerTo(c, 1);
    EvalSerStep(F, a, 1, x);
    EvalSerStep(F, Tail(a), 0, x);
  }

  lemma {:induction false} LinearRoot(F: Field, c: seq<nat>, q: nat)
    requires F.Ok() && IsPoly(F, c) && |c| >= 2 && q < F.N() && c[1] != 0
    ensures F.El(c[0]) && F.El(c[1])
    ensures IsRoot(F, c, 1, q) <==> c[0] == GfMul(F, Inverse(F, q), c[1])
  {
    hide F.Ok, GfMul, Pow2, Xor, EvalSer, SerTo, Inverse;
    LinearValue(F, c, Inverse(F, q));
    var v := GfMul(F, Inverse(F, q), c[1]);
    XorSelf(v);
    if Xor(c[0], v) == 0 { XorEqualZero(c[0], v); }
  }

  /** Finds all the roots, or reports fewer than the degree when there is no complete set. */
  ghost predicate Finds(F: Field, c: seq<nat>, d: nat, k: nat, roots: seq<nat>)
    requires F.Ok() && IsPoly(F, c)
  {
    && |roots| <= d && (|roots| == d ==> AllRoots(F, c, d, k, roots))
    && (|roots| != d ==> forall ps: seq<nat> :: !AllRoots(F, c, d, k, ps))
  }

  method FindDeg1Roots(F: Field, c: seq<nat>) returns (roots: seq<nat>)
    requires F.Ok() && IsPoly(F, c) && |c| >= 2 && c[1] != 0
    ensures Finds(F, c, 1, F.N(), roots)
  {
    hide F.Ok, GfMul, Pow2, A, Inverse, IsRoot;
    roots := [];
    if c[0] != 0 {
      LogEntry(F, c[0]);
      LogEntry(F, c[1]);
      var q := ModS(F.N(), F.N() - F.log[c[0]] + F.log[c[1]]);
      roots := [q];
      Deg1Root(F, c, q);
    } else {
      forall ps: seq<nat> ensures !AllRoots(F, c, 1, F.N(), ps) { Deg1NoRoot(F, c, ps); }
    }
  }

  lemma {:induction false} Deg1Root(F: Field, c: seq<nat>, q: nat)
    requires F.Ok() && IsPoly(F, c) && |c| >= 2 && c[1] != 0 && c[0] != 0
    requires c[0] < |F.log| && c[1] < |F.log| && F.log[c[0]] < F.N() && F.log[c[1]] < F.N()
    requires q == ModS(F.N(), F.N() - F.log[c[0]] + F.log[c[1]])
    ensures q < F.N() && IsRoot(F, c, 1, q)
  {
    hide F.Ok, GfMul, Pow2, A, Inverse, IsRoot;
    var n, l0, l1 := F.N(), F.log[c[0]], F.log[c[1]];
    ALog(F, c[0]);
    ALog(F, c[1]);
    AModS(F, n - l0 + l1);
    ALookup(F, q);
    // a^q c0 = c1, so c1 times the inverse of a^q is c0
    MulPowers(F, n - l0 + l1, l0);
    APeriod(F, l1);
    LinearRoot(F, c, q);
    var x := Inverse(F, q);
    InverseProduct(F, q, q);
    MulAssoc(F, x, A(F, q), c[0]);
    MulComm(F, x, A(F, q));
    MulOne(F, c[0]);
  }

  lemma {:induction false} Deg1NoRoot(F: Field, c: seq<nat>, ps: seq<nat>)
    requires F.Ok() && IsPoly(F, c) && |c| >= 2 && c[1] != 0 && c[0] == 0
    ensures !AllRoots(F, c, 1, F.N(), ps)
  {
    hide F.Ok, GfMul, Pow2, A, Inverse, IsRoot;
    if AllRoots(F, c, 1, F.N(), ps) {
      LinearRoot(F, c, ps[0]);
      MulNonzero(F, Inverse(F, ps[0]), c[1]);
    }
  }

  // ----- degree 2

  ghost function Bracket(F: Field, c: seq<nat>, x: nat): (y: nat)
    requires F.Ok() && IsPoly(F, c) && |c| >= 3 && F.El(x)
    ensures F.El(y)
  {
    XorBound(c[1], GfMul(F, x, c[2]), F.m);
    GfMul(F, x, Xor(c[1], GfMul(F, x, c[2])))
  }

  lemma {:induction false} QuadraticValue(F: Field, c: seq<nat>, x: nat)
    requires F.Ok() && IsPoly(F, c) && |c| >= 3 && F.El(x)
    ensures IsSer(F, SerTo(c, 2))
    ensures EvalSer(F, SerTo(c, 2), 2, x) == Xor(c[0], Bracket(F, c, x))
  {
    hide F.Ok, GfMul, Pow2, Xor, EvalSer;
    SerToIsSer(F, c, 2);
    var a := SerTo(c, 2);
    EvalSerStep(F, a, 2, x);
    EvalSerStep(F, Tail(a), 1, x);
    EvalSerStep(F, Tail(Tail(a)), 0, x);
  }

  lemma {:induction false} QuadraticRoot(F: Field, c: seq<nat>, q: nat)
    requires F.Ok() && IsPoly(F, c) && |c| >= 3 && q < F.N()
    ensures IsRoot(F, c, 2, q) <==> c[0] == Bracket(F, c, Inverse(F, q))
  {
    hide F.Ok, GfMul, Pow2, Xor, EvalSer, SerTo, Inverse, Bracket;
    QuadraticValue(F, c, Inverse(F, q));
    var v := Bracket(F, c, Inverse(F, q));
    XorSelf(v);
    if Xor(c[0], v) == 0 { XorEqualZero(c[0], v); }
  }

  /** Substituting x = (c1 / c2) z turns the bracket into a multiple of z^2 + z. */
  lemma {:induction false} BracketScaled(F: Field, c: seq<nat>, k: nat, z: nat)
    requires F.Ok() && IsPoly(F, c) && |c| >= 3 && F.El(k) && F.El(z) && GfMul(F, k, c[2]) == c[1]
    ensures F.El(c[1]) && Bracket(F, c, GfMul(F, k, z)) == GfMul(F, GfMul(F, c[1], k), Artin(F, z))
  {
    hide F.Ok, GfMul, Pow2, Xor, GfSqr;
    var x, b := GfMul(F, k, z), c[1];
    // x c2 = c1 z
    MulAssoc(F, z, k, c[2]);
    MulComm(F, k, z);
    MulComm(F, z, b);
    // c1 + c1 z = c1 (1 + z)
    MulOne(F, b);
    OnePlus(F, z);
    MulDistrib(F, b, 1, z);
    var y := Xor(1, z);
    // (k z) (c1 (1 + z)) = (c1 k) (z (1 + z))
    MulAssoc(F, x, b, y);
    MulComm(F, x, b);
    MulAssoc(F, b, k, z);
    MulAssoc(F, GfMul(F, b, k), z, y);
    MulDistrib(F, z, 1, z);
    MulOne(F, z);
    SqrIsMul(F, z);
    XorComm(z, GfSqr(F, z));
  }

  /** The constants of the substitution, by logarithms. */
  lemma {:induction false} Substitution(F: Field, c: seq<nat>, l0: nat, l1: nat, l2: nat)
    requires F.Ok() && IsPoly(F, c) && |c| >= 3 && l0 < F.N() && l1 < F.N() && l2 < F.N()
    requires A(F, l0) == c[0] && A(F, l1) == c[1] && A(F, l2) == c[2]
    ensures F.El(c[0]) && F.El(c[1]) && F.El(c[2])
    ensures GfMul(F, A(F, l1 + F.N() - l2), c[2]) == c[1]
    ensures GfMul(F, GfMul(F, c[1], A(F, l1 + F.N() - l2)), A(F, l0 + l2 + 2 * (F.N() - l1))) == c[0]
  {
    hide F.Ok, GfMul, Pow2, A;
    var n := F.N();
    MulPowers(F, l1 + n - l2, l2);
    APeriod(F, l1);
    MulPowers(F, l1, l1 + n - l2);
    MulPowers(F, l1 + (l1 + n - l2), l0 + l2 + 2 * (n - l1));
    APeriod(F, l0);
    APeriod(F, l0 + n);
    APeriod(F, l0 + 2 * n);
  }

  /** z is a solution of z^2 + z = u exactly when x = k z is a root. */
  lemma {:induction false} RootIffArtin(F: Field, c: seq<nat>, k: nat, u: nat, z: nat, q: nat)
    requires F.Ok() && IsPoly(F, c) && |c| >= 3 && F.El(k) && F.El(z) && F.El(u) && k != 0 && c[1] != 0 && q < F.N()
    requires GfMul(F, k, c[2]) == c[1] && Inverse(F, q) == GfMul(F, k, z)
    requires F.El(c[1]) && GfMul(F, GfMul(F, c[1], k), u) == c[0]
    ensures IsRoot(F, c, 2, q) <==> Artin(F, z) == u
  {
    hide F.Ok, GfMul, Pow2, Bracket, Artin, Inverse, IsRoot;
    QuadraticRoot(F, c, q);
    BracketScaled(F, c, k, z);
    var d := GfMul(F, c[1], k);
    MulNonzero(F, c[1], k);
    if GfMul(F, d, Artin(F, z)) == GfMul(F, d, u) { MulCancel(F, d, Artin(F, z), u); }
  }

  lemma {:induction false} ArtinOne(F: Field, r: nat)
    requires F.Ok() && F.El(r)
    ensures F.El(Xor(r, 1)) && Artin(F, Xor(r, 1)) == Artin(F, r)
    ensures F.El(0) && Artin(F, 0) == 0 && F.El(1) && Artin(F, 1) == 0
  {
    hide F.Ok, GfMul, Pow2, Xor;
    FieldShape(F);
    ArtinAdd(F, r, 1);
    SqrIsMul(F, 1);
    MulOne(F, 1);
    XorSelf(1);
    SqrIsMul(F, 0);
    MulZero(F, 0);
    XorSelf(0);
    XorZero(Artin(F, r));
  }

  method FindDeg2Roots(F: Field, xi: seq<nat>, ghost ak: nat, c: seq<nat>) returns (roots: seq<nat>)
    requires F.Ok() && F.m > 1 && IsPoly(F, c) && |c| >= 3 && c[2] != 0 && BaseOk(F, xi, ak)
    ensures Finds(F, c, 2, F.N(), roots)
  {
    hide F.Ok, GfMul, GfSqr, Pow2, A, Inverse, IsRoot, Artin, BaseOk, Xor;
    roots := [];
    if c[0] != 0 && c[1] != 0 {
      LogEntry(F, c[0]);
      LogEntry(F, c[1]);
      LogEntry(F, c[2]);
      var n := F.N();
      var l0, l1, l2 := F.log[c[0]], F.log[c[1]], F.log[c[2]];
      var u := PowerOf(F, l0 + l2 + 2 * (n - l1));
      ALog(F, c[0]);
      ALog(F, c[1]);
      ALog(F, c[2]);
      var r := SolveArtin(F, xi, ak, u);
      ArtinDef(F, r);
      if Xor(GfSqr(F, r), r) == u {
        ArtinOne(F, r);
        var r' := Xor(r, 1);
        NotBit(r);
        LogEntry(F, r);
        LogEntry(F, r');
        var q0 := Modulo(F.m, 2 * n - l1 - F.log[r] + l2);
        var q1 := Modulo(F.m, 2 * n - l1 - F.log[r'] + l2);
        roots := [q0, q1];
        Deg2Root(F, c, l0, l1, l2, u, r, q0);
        Deg2Root(F, c, l0, l1, l2, u, r', q1);
        if q0 == q1 {
          MulCancel(F, A(F, l1 + n - l2), r, r');
        }
      } else {
        forall ps: seq<nat> ensures !AllRoots(F, c, 2, n, ps) { Deg2None(F, c, l0, l1, l2, u, ps); }
      }
    } else {
      forall ps: seq<nat> ensures !AllRoots(F, c, 2, F.N(), ps) { Deg2Degenerate(F, c, ps); }
    }
  }

  lemma {:induction false} NotBit(r: nat)
    ensures Xor(r, 1) != r && (r != 1 ==> Xor(r, 1) != 0)
  {
    hide Xor;
    XorSolve(r, 1);
    XorSelf(r);
    if Xor(r, 1) == 0 { XorEqualZero(r, 1); }
  }

  lemma {:induction false} Deg2Root(F: Field, c: seq<nat>, l0: nat, l1: nat, l2: nat, u: nat, z: nat, q: nat)
    requires F.Ok() && IsPoly(F, c) && |c| >= 3 && l0 < F.N() && l1 < F.N() && l2 < F.N() && c[1] != 0
    requires A(F, l0) == c[0] && A(F, l1) == c[1] && A(F, l2) == c[2]
    requires u == A(F, l0 + l2 + 2 * (F.N() - l1)) && F.El(z) && z != 0 && Artin(F, z) == u
    requires z < |F.log| && F.log[z] < F.N() && q == (2 * F.N() - l1 - F.log[z] + l2) % F.N()
    ensures q < F.N() && IsRoot(F, c, 2, q) && Inverse(F, q) == GfMul(F, A(F, l1 + F.N() - l2), z)
  {
    hide F.Ok, GfMul, Pow2, A, Inverse, IsRoot, Artin;
    var n, lz := F.N(), F.log[z];
    var k := A(F, l1 + n - l2);
    var e := 2 * n - l1 - lz + l2;
    ALog(F, z);
    ALookup(F, e);
    ALookup(F, q);
    MulPowers(F, l1 + n - l2, lz);
    PositionOf(F, l1 + n - l2 + lz, e, q);
    Substitution(F, c, l0, l1, l2);
    RootIffArtin(F, c, k, u, z, q);
  }

  lemma {:induction false} Deg2None(F: Field, c: seq<nat>, l0: nat, l1: nat, l2: nat, u: nat, ps: seq<nat>)
    requires F.Ok() && IsPoly(F, c) && |c| >= 3 && l0 < F.N() && l1 < F.N() && l2 < F.N() && c[1] != 0
    requires A(F, l0) == c[0] && A(F, l1) == c[1] && A(F, l2) == c[2]
    requires u == A(F, l0 + l2 + 2 * (F.N() - l1)) && forall z: nat :: F.El(z) ==> Artin(F, z) != u
    ensures !AllRoots(F, c, 2, F.N(), ps)
  {
    hide F.Ok, GfMul, GfDiv, Pow2, A, Inverse, IsRoot, Artin;
    if AllRoots(F, c, 2, F.N(), ps) {
      var q, k := ps[0], A(F, l1 + F.N() - l2);
      var x := Inverse(F, q);
      var z := GfDiv(F, x, k);
      DivMul(F, x, k);
      MulComm(F, k, z);
      Substitution(F, c, l0, l1, l2);
      RootIffArtin(F, c, k, u, z, q);
    }
  }

  lemma {:induction false} BracketDef(F: Field, c: seq<nat>, x: nat)
    requires F.Ok() && IsPoly(F, c) && |c| >= 3 && F.El(x)
    ensures F.El(c[2]) && F.El(Xor(c[1], GfMul(F, x, c[2])))
    ensures Bracket(F, c, x) == GfMul(F, x, Xor(c[1], GfMul(F, x, c[2])))
  {
    hide F.Ok, GfMul, Pow2, Xor;
    XorBound(c[1], GfMul(F, x, c[2]), F.m);
  }

  /** Without a constant or a linear term there is at most one nonzero root. */
  lemma {:induction false} Deg2Degenerate(F: Field, c: seq<nat>, ps: seq<nat>)
    requires F.Ok() && IsPoly(F, c) && |c| >= 3 && c[2] != 0 && (c[0] == 0 || c[1] == 0)
    ensures !AllRoots(F, c, 2, F.N(), ps)
  {
    hide F.Ok, GfMul, Pow2, A, Inverse, IsRoot, Bracket, Xor;
    if AllRoots(F, c, 2, F.N(), ps) {
      var x, y := Inverse(F, ps[0]), Inverse(F, ps[1]);
      QuadraticRoot(F, c, ps[0]);
      QuadraticRoot(F, c, ps[1]);
      OneRoot(F, c, x, y);
      InverseInjective(F, ps[0], ps[1]);
    }
  }

  lemma {:induction false} OneRoot(F: Field, c: seq<nat>, x: nat, y: nat)
    requires F.Ok() && IsPoly(F, c) && |c| >= 3 && c[2] != 0 && (c[0] == 0 || c[1] == 0)
    requires F.El(x) && F.El(y) && x != 0 && y != 0
    requires c[0] == Bracket(F, c, x) && c[0] == Bracket(F, c, y)
    ensures x == y
  {
    hide F.Ok, GfMul, GfSqr, Pow2, Bracket, Xor;
    BracketDef(F, c, x);
    BracketDef(F, c, y);
    var xc, yc := GfMul(F, x, c[2]), GfMul(F, y, c[2]);
    if c[0] == 0 {
      if Xor(c[1], xc) != 0 { MulNonzero(F, x, Xor(c[1], xc)); }
      if Xor(c[1], yc) != 0 { MulNonzero(F, y, Xor(c[1], yc)); }
      XorEqualZero(c[1], xc);
      XorEqualZero(c[1], yc);
      MulComm(F, x, c[2]);
      MulComm(F, y, c[2]);
      MulCancel(F, c[2], x, y);
    } else {
      XorZero(xc);
      XorZero(yc);
      MulAssoc(F, x, x, c[2]);
      MulAssoc(F, y, y, c[2]);
      SqrIsMul(F, x);
      SqrIsMul(F, y);
      MulComm(F, GfSqr(F, x), c[2]);
      MulComm(F, GfSqr(F, y), c[2]);
      MulCancel(F, c[2], GfSqr(F, x), GfSqr(F, y));
      SqrXor(F, x, y);
      XorSelf(GfSqr(F, x));
      SqrIsMul(F, Xor(x, y));
      if Xor(x, y) != 0 { MulNonzero(F, Xor(x, y), Xor(x, y)); }
      XorEqualZero(x, y);
    }
  }
}
