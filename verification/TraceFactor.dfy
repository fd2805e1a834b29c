/** Factoring by traces: what the root finder does with a polynomial of degree 5 or more, and when it finds the
    roots. */
module TraceFactor {
  import opened Common
  import opened Gf2
  import opened GaloisField
  import opened FieldLaws
  import opened FieldPoly
  import opened PowerSeries
  import opened Newton
  import opened BerlekampMassey
  import opened Locator
  import opened LocatorUnique
  import opened Chien
  import opened TraceMap
  import opened DegreeTwo
  import opened LowRoots
  import opened LinearSolve
  import opened RootSets
  import opened CubicQuartic
  import opened PolyDivision
  import opened PolyGcd
  import opened EuclidChain
  import opened TracePoly

  /** How a polynomial is taken apart: a leaf is solved directly, a constant trace leaves the polynomial whole, and
      otherwise it is divided by what Euclid's algorithm returns for it and its trace. */
  datatype Factoring =
    | Leaf
    | Whole(powers: seq<seq<nat>>, trace: seq<nat>, rest: Factoring)
    | Parts(powers: seq<seq<nat>>, chain: seq<seq<nat>>, quotient: seq<nat>, remainder: seq<nat>, left: Factoring,
      right: Factoring)

  ghost function Divisor(chain: seq<seq<nat>>): seq<nat>
    requires |chain| >= 2
  {
    chain[|chain| - 2]
  }

  /** The steps from level k on, for the polynomial f. */
  ghost predicate Fits(F: Field, k: nat, f: seq<nat>, T: Factoring)
    requires F.Ok()
    decreases T
  {
    match T
    case Leaf => |f| <= 5 || k > F.m
    case Whole(zs, t, rest) => |f| > 5 && k <= F.m && IsTrace(F, k, f, zs, t) && |t| == 1 && Fits(F, k + 1, f, rest)
    case Parts(zs, chain, q, r, left, right) =>
      && |f| > 5 && k <= F.m && IsChain(F, chain) && chain[0] == f && IsTrace(F, k, f, zs, chain[1]) && |chain[1]| > 1
      && DivRem(F, f, Divisor(chain), q, r) && Fits(F, k + 1, Divisor(chain), left) && Fits(F, k + 1, q, right)
  }

  /** The steps are determined. */
  lemma {:induction false} FactoringUnique(F: Field, k: nat, f: seq<nat>, T: Factoring, U: Factoring)
    requires F.Ok() && Fits(F, k, f, T) && Fits(F, k, f, U)
    ensures T == U
    decreases T
  {
    hide F.Ok, IsChain, IsTrace, DivRem;
    match T
    case Leaf =>
    case Whole(zs, t, rest) =>
      if U.Whole? {
        TraceUnique(F, k, f, zs, t, U.powers, U.trace);
        FactoringUnique(F, k + 1, f, rest, U.rest);
      } else {
        ChainShape(F, U.chain);
        TraceUnique(F, k, f, zs, t, U.powers, U.chain[1]);
      }
    case Parts(zs, chain, q, r, left, right) =>
      ChainShape(F, chain);
      if U.Whole? {
        TraceUnique(F, k, f, zs, chain[1], U.powers, U.trace);
      } else {
        ChainShape(F, U.chain);
        TraceUnique(F, k, f, zs, chain[1], U.powers, U.chain[1]);
        ChainUnique(F, chain, U.chain);
        DivRemUnique(F, f, Divisor(chain), q, r, U.quotient, U.remainder);
        FactoringUnique(F, k + 1, Divisor(chain), left, U.left);
        FactoringUnique(F, k + 1, q, right, U.right);
      }
  }

  /** The polynomial has as many different nonzero roots as its degree. */
  ghost predicate Splits(F: Field, c: seq<nat>, d: nat)
    requires F.Ok() && IsPoly(F, c)
  {
    exists ps: seq<nat> :: AllRoots(F, c, d, F.N(), ps)
  }

  /** The same with roots at positions below n. */
  ghost predicate SplitsBelow(F: Field, c: seq<nat>, d: nat, n: nat)
    requires F.Ok() && IsPoly(F, c)
  {
    exists ps: seq<nat> :: AllRoots(F, c, d, n, ps)
  }

  /** A polynomial of degree at most 4 that splits. */
  ghost predicate Solved(F: Field, f: seq<nat>)
    requires F.Ok()
  {
    IsPoly(F, f) && 1 <= |f| <= 5 && Splits(F, f, |f| - 1)
  }

  /** Every leaf is solved. */
  ghost predicate AllSolved(F: Field, f: seq<nat>, T: Factoring)
    requires F.Ok()
    decreases T
  {
    match T
    case Leaf => Solved(F, f)
    case Whole(zs, t, rest) => AllSolved(F, f, rest)
    case Parts(zs, chain, q, r, left, right) => |chain| >= 2 && AllSolved(F, Divisor(chain), left)
                                                && AllSolved(F, q, right)
  }

  /** ps lists the roots of the leaves, from left to right. */
  ghost predicate ListedBy(F: Field, f: seq<nat>, T: Factoring, ps: seq<nat>)
    requires F.Ok()
    decreases T
  {
    match T
    case Leaf => IsPoly(F, f) && 1 <= |f| <= 5 && AllRoots(F, f, |f| - 1, F.N(), ps)
    case Whole(zs, t, rest) => ListedBy(F, f, rest, ps)
    case Parts(zs, chain, q, r, left, right) =>
      && |chain| >= 2 && 1 <= |Divisor(chain)| <= |ps| + 1
      && ListedBy(F, Divisor(chain), left, ps[..|Divisor(chain)| - 1])
         && ListedBy(F, q, right, ps[|Divisor(chain)| - 1..])
  }

  // ----- elements chosen by a property

  ghost function Keep(xs: seq<nat>, p: nat -> bool): (s: seq<nat>) {
    if xs == [] then [] else Keep(xs[..|xs| - 1], p) + if p(xs[|xs| - 1]) then [xs[|xs| - 1]] else []
  }

  lemma {:induction false} KeepIn(xs: seq<nat>, p: nat -> bool, x: nat)
    ensures x in Keep(xs, p) <==> x in xs && p(x)
  {
    if xs != [] {
      var k := |xs| - 1;
      KeepIn(xs[..k], p, x);
      assert xs == xs[..k] + [xs[k]];
    }
  }

  lemma {:induction false} KeepDistinct(xs: seq<nat>, p: nat -> bool)
    requires Distinct(xs)
    ensures Distinct(Keep(xs, p))
  {
    if xs != [] {
      var k := |xs| - 1;
      KeepDistinct(xs[..k], p);
      KeepIn(xs[..k], p, xs[k]);
      assert xs[k] !in xs[..k];
      if p(xs[k]) { Another(Keep(xs[..k], p), xs[k]); }
    }
  }

  lemma {:induction false} KeepSizes(xs: seq<nat>, p: nat -> bool, q: nat -> bool)
    requires forall x: nat :: p(x) <==> !q(x)
    ensures |Keep(xs, p)| + |Keep(xs, q)| == |xs|
  {
    if xs != [] { KeepSizes(xs[..|xs| - 1], p, q); }
  }

  // ----- complete sets of roots

  ghost predicate RootOf(F: Field, f: seq<nat>, x: nat)
    requires F.Ok() && IsPoly(F, f)
  {
    F.El(x) && Eval(F, f, x) == 0
  }

  /** Different nonzero roots, as many as the degree. */
  ghost predicate SplitsInto(F: Field, f: seq<nat>, xs: seq<nat>)
    requires F.Ok() && IsPoly(F, f)
  {
    |xs| + 1 == |f| && Distinct(xs) && forall x :: x in xs ==> x != 0 && RootOf(F, f, x)
  }

  /** Not more roots than the degree. */
  lemma {:induction false} FewRoots(F: Field, f: seq<nat>, xs: seq<nat>)
    requires F.Ok() && Trimmed(F, f) && f[|f| - 1] != 0 && Distinct(xs) && forall x :: x in xs ==> RootOf(F, f, x)
    ensures |xs| + 1 <= |f|
  {
    hide F.Ok, Eval;
    if |xs| >= |f| {
      forall i | 0 <= i < |xs| ensures RootOf(F, f, xs[i]) { assert xs[i] in xs; }
      assert f[|f| - 1] != 0;
      RootsBound(F, f, xs);
    }
  }

  lemma {:induction false} ZeroIsRoot(F: Field, f: seq<nat>, x: nat)
    requires F.Ok() && IsPoly(F, f) && |f| >= 1
    ensures IsZero(F, f, |f| - 1, x) <==> RootOf(F, f, x)
  {
    hide F.Ok, Eval, EvalSer, SerTo, IsZero;
    if F.El(x) {
      IsZeroEval(F, f, |f| - 1, x);
      assert f[..|f| - 1 + 1] == f;
    } else {
      NotZero(F, f, |f| - 1, x);
    }
  }

  lemma {:induction false} NotZero(F: Field, f: seq<nat>, d: nat, x: nat)
    requires F.Ok() && IsPoly(F, f) && !F.El(x)
    ensures !IsZero(F, f, d, x)
  {
  }

  /** Roots as positions and as elements. */
  lemma {:induction false} SplitsPositions(F: Field, f: seq<nat>, xs: seq<nat>)
    requires F.Ok() && IsPoly(F, f) && SplitsInto(F, f, xs)
    ensures forall i :: 0 <= i < |xs| ==> F.El(xs[i]) && xs[i] != 0
    ensures AllRoots(F, f, |f| - 1, F.N(), PositionsOf(F, xs))
  {
    hide F.Ok, RootOf, AllRoots, IsZero, PositionsOf;
    forall i | 0 <= i < |xs| ensures F.El(xs[i]) && xs[i] != 0 && IsZero(F, f, |f| - 1, xs[i]) {
      assert xs[i] in xs;
      ZeroIsRoot(F, f, xs[i]);
      RootIn(F, f, xs[i]);
    }
    ToPositions(F, f, |f| - 1, xs);
  }

  lemma {:induction false} RootIn(F: Field, f: seq<nat>, x: nat)
    requires F.Ok() && IsPoly(F, f) && RootOf(F, f, x)
    ensures F.El(x)
  {
  }

  lemma {:induction false} PositionsSplit(F: Field, f: seq<nat>, ps: seq<nat>)
    requires F.Ok() && IsPoly(F, f) && |f| >= 1 && AllRoots(F, f, |f| - 1, F.N(), ps)
    ensures Positions(F, ps) && SplitsInto(F, f, ElementsAt(F, ps))
  {
    hide F.Ok, RootOf, AllRoots, IsZero, Inverse;
    FromPositions(F, f, |f| - 1, ps);
    var xs := ElementsAt(F, ps);
    forall x | x in xs ensures x != 0 && RootOf(F, f, x) {
      var i: nat :| i < |xs| && xs[i] == x;
      RootAt(F, f, |f| - 1, xs, i);
      ZeroIsRoot(F, f, x);
    }
  }

  // ----- common roots

  /** A common root of the first two polynomials of a chain is a root of the last two. */
  lemma {:induction false} ChainDown(F: Field, s: seq<seq<nat>>, x: nat)
    requires F.Ok() && IsChain(F, s) && |s| >= 2 && Trimmed(F, s[0]) && Trimmed(F, s[1]) && RootOf(F, s[0], x)
             && RootOf(F, s[1], x)
    ensures Trimmed(F, s[|s| - 2]) && Trimmed(F, s[|s| - 1]) && RootOf(F, s[|s| - 2], x) && RootOf(F, s[|s| - 1], x)
    decreases |s|
  {
    hide F.Ok, Eval, DivRem;
    if |s| > 2 {
      ChainTail(F, s);
      ChainShape(F, s[1..]);
      var q: seq<nat> :| DivRem(F, s[0], s[1], q, s[2]);
      DivEval(F, s[0], s[1], q, s[2], x);
      ChainDown(F, s[1..], x);
    }
  }

  /** A common root of the last two is a root of the second. */
  lemma {:induction false} ChainUp(F: Field, s: seq<seq<nat>>, x: nat)
    requires F.Ok() && IsChain(F, s) && |s| >= 2 && Trimmed(F, s[|s| - 2]) && Trimmed(F, s[|s| - 1])
    requires RootOf(F, s[|s| - 2], x) && RootOf(F, s[|s| - 1], x)
    ensures Trimmed(F, s[0]) && Trimmed(F, s[1]) && RootOf(F, s[0], x) && RootOf(F, s[1], x)
    decreases |s|
  {
    hide F.Ok, Eval, DivRem;
    ChainShape(F, s);
    if |s| > 2 {
      ChainTail(F, s);
      ChainShape(F, s[1..]);
      ChainUp(F, s[1..], x);
      var q: seq<nat> :| DivRem(F, s[0], s[1], q, s[2]);
      DivEval(F, s[0], s[1], q, s[2], x);
    }
  }

  /** A multiple of g with fewer coefficients than g is zero. */
  lemma {:induction false} SmallMultiple(F: Field, g: seq<nat>, r: seq<nat>)
    requires F.Ok() && Trimmed(F, g) && Trimmed(F, r) && |r| < |g| && Divides(F, Ser1(g), Ser1(r))
    ensures r == [0]
  {
    hide F.Ok, Conv, Divides, Ser1, GfMul, DegreeAtMost;
    SerAtIs(F, g);
    SerAtIs(F, r);
    var c, n := DividesElim(F, Ser1(g), Ser1(r));
    var e := ExactDegree(c, n);
    var d := |g| - 1;
    LeadingProduct(F, c, e, Ser1(g), d);
    if c(e) != 0 { MulNonzero(F, c(e), g[d]); }
    DegreeDef(c, e);
    forall i: nat ensures Ser1(r)(i) == 0 { ConvZero(F, c, Ser1(g), i); }
    assert Ser1(r)(|r| - 1) == 0;
    assert |r| == 1 && r[0] == 0;
  }

  lemma {:induction false} GcdDivides(F: Field, s: seq<seq<nat>>, q: seq<nat>, r: seq<nat>)
    requires F.Ok() && IsChain(F, s) && |s| >= 2 && s[|s| - 1] == [0] && DivRem(F, s[0], Divisor(s), q, r)
    ensures r == [0]
  {
    hide F.Ok, Divides, Ser1, DivRem, IsChain;
    ChainShape(F, s);
    ChainGcd(F, s);
    DivRemShape(F, s[0], Divisor(s), q, r);
    var g := Divisor(s);
    SerAtIs(F, g);
    DividesSelf(F, Ser1(g));
    DivisorsOf(F, s[0], g, q, r, Ser1(g));
    SmallMultiple(F, g, r);
  }

  lemma {:induction false} TopProduct(F: Field, a: Ser, m: Ser, d: nat, q: Ser, e: nat, r: Ser)
    requires F.Ok() && Division(F, a, m, q, r) && DegreeAtMost(m, d) && m(d) == 1 && DegreeAtMost(q, e) && r(d + e) == 0
    ensures q(e) == a(d + e)
  {
    hide *;
    DivisionAt(F, a, m, q, r, d + e);
    LeadingProduct(F, m, d, q, e);
    SerAt(F, q, e);
    MulOne(F, q(e));
    XorZero(q(e));
  }

  /** The quotient has its leading coefficient on top. */
  lemma {:induction false} QuotientTop(F: Field, a: seq<nat>, b: seq<nat>, q: seq<nat>, r: seq<nat>)
    requires F.Ok() && DivRem(F, a, b, q, r)
    ensures IsPoly(F, q) && |q| >= 1 && q[|q| - 1] != 0
  {
    hide *;
    DivRemShape(F, a, b, q, r);
    TrimmedPoly(F, a);
    TrimmedPoly(F, b);
    TrimmedPoly(F, r);
    DivDivision(F, a, b, q, r);
    var d, e := |b| - 1, |q| - 1;
    MonicShape(F, b, d);
    SerAtIs(F, a);
    SerAtIs(F, q);
    SerAtIs(F, r);
    TopProduct(F, Ser1(a), Monic(F, b, d), d, Ser1(q), e, Ser1(r));
  }

  // ----- one split

  lemma {:induction false} AddConstant(F: Field, t: seq<nat>, x: nat)
    requires F.Ok() && IsPoly(F, t) && |t| >= 1 && F.El(x)
    ensures IsPoly(F, t[0 := Xor(t[0], 1)]) && Eval(F, t[0 := Xor(t[0], 1)], x) == Xor(Eval(F, t, x), 1)
  {
    FieldShape(F);
    XorBound(t[0], 1, F.m);
    var u := t[0 := Xor(t[0], 1)];
    assert u[1..] == t[1..];
    hide F.Ok, GfMul, Xor;
    var v := GfMul(F, x, Eval(F, t[1..], x));
    XorAssoc(t[0], 1, v);
    XorAssoc(t[0], v, 1);
    XorComm(1, v);
  }

  /** The trace of a polynomial that splits takes the value 0 at some root, unless it is a constant. */
  lemma {:induction false} SomeZeroTrace(F: Field, k: nat, f: seq<nat>, zs: seq<seq<nat>>, t: seq<nat>, xs: seq<nat>)
    returns (x: nat)
    requires F.Ok() && F.m > 1 && Trimmed(F, f) && SplitsInto(F, f, xs) && IsTrace(F, k, f, zs, t) && |t| > 1
    ensures x in xs && RootOf(F, f, x) && IsPoly(F, t) && RootOf(F, t, x)
  {
    hide F.Ok, Eval, Xor, IsTrace, TraceSum, A, GfMul;
    TraceShape(F, k, f, zs, t);
    if exists y :: y in xs && RootOf(F, t, y) {
      x :| x in xs && RootOf(F, t, x);
    } else {
      var u := t[0 := Xor(t[0], 1)];
      FieldShape(F);
      AddConstant(F, t, 0);
      forall y | y in xs ensures RootOf(F, u, y) {
        TraceValue(F, k, f, zs, t, y);
        TraceBit(F, GfMul(F, A(F, k), y));
        AddConstant(F, t, y);
        XorSelf(1);
      }
      FewRoots(F, u, xs);
      assert false;
    }
  }

  lemma {:induction false} TraceShape(F: Field, k: nat, f: seq<nat>, zs: seq<seq<nat>>, t: seq<nat>)
    requires F.Ok() && IsTrace(F, k, f, zs, t)
    ensures Trimmed(F, t) && |t| < |f|
  {
  }

  /** All the traces up to level k agree on xs. */
  ghost predicate SameTraces(F: Field, k: nat, xs: seq<nat>)
    requires F.Ok()
  {
    forall j: nat, x: nat, y: nat {:trigger Level(j), x in xs, y in xs} ::
      Level(j) && 1 <= j < k && x in xs && y in xs && F.El(x) && F.El(y) ==>
      Trace(F, GfMul(F, A(F, j), x)) == Trace(F, GfMul(F, A(F, j), y))
  }

  /** Always true: naming a level here makes the facts about it available. */
  ghost predicate Level(j: nat) { true }

  /** One more level, on a part of xs on which the trace has the value v. */
  lemma {:induction false} MoreTraces(F: Field, k: nat, xs: seq<nat>, ys: seq<nat>, v: nat)
    requires F.Ok() && SameTraces(F, k, xs) && (forall y :: y in ys ==> y in xs)
    requires forall y :: y in ys ==> F.El(y) && Trace(F, GfMul(F, A(F, k), y)) == v
    ensures SameTraces(F, k + 1, ys)
  {
    hide F.Ok, Trace, GfMul, A, Level;
  }

  /** The roots of f that are roots of g, and the others. */
  ghost function Inside(F: Field, g: seq<nat>, xs: seq<nat>): seq<nat>
    requires F.Ok() && IsPoly(F, g)
  {
    Keep(xs, (x: nat) => RootOf(F, g, x))
  }

  ghost function Outside(F: Field, g: seq<nat>, xs: seq<nat>): seq<nat>
    requires F.Ok() && IsPoly(F, g)
  {
    Keep(xs, (x: nat) => !RootOf(F, g, x))
  }

  lemma {:induction false} InAndOut(F: Field, g: seq<nat>, xs: seq<nat>)
    requires F.Ok() && IsPoly(F, g) && Distinct(xs)
    ensures Distinct(Inside(F, g, xs)) && Distinct(Outside(F, g, xs))
            && |Inside(F, g, xs)| + |Outside(F, g, xs)| == |xs|
    ensures forall x: nat :: x in Inside(F, g, xs) <==> x in xs && RootOf(F, g, x)
    ensures forall x: nat :: x in Outside(F, g, xs) <==> x in xs && !RootOf(F, g, x)
  {
    hide F.Ok, RootOf, Keep;
    var p, q := (x: nat) => RootOf(F, g, x), (x: nat) => !RootOf(F, g, x);
    KeepDistinct(xs, p);
    KeepDistinct(xs, q);
    KeepSizes(xs, p, q);
    forall x: nat ensures x in Inside(F, g, xs) <==> x in xs && RootOf(F, g, x) { KeepIn(xs, p, x); }
    forall x: nat ensures x in Outside(F, g, xs) <==> x in xs && !RootOf(F, g, x) { KeepIn(xs, q, x); }
  }

  /** A polynomial that splits is divided exactly, and both parts split. */
  lemma {:induction false} PartsSplit(F: Field, f: seq<nat>, g: seq<nat>, q: seq<nat>, r: seq<nat>, xs: seq<nat>)
    requires F.Ok() && DivRem(F, f, g, q, r) && r == [0] && IsPoly(F, f) && SplitsInto(F, f, xs)
    ensures IsPoly(F, g) && IsPoly(F, q) && SplitsInto(F, g, Inside(F, g, xs)) && SplitsInto(F, q, Outside(F, g, xs))
  {
    hide F.Ok, Eval, DivRem, Inside, Outside;
    DivRemShape(F, f, g, q, r);
    QuotientTop(F, f, g, q, r);
    InAndOut(F, g, xs);
    var ys, ws := Inside(F, g, xs), Outside(F, g, xs);
    forall x | x in ws ensures RootOf(F, q, x) { DivEval(F, f, g, q, r, x); }
    FewRoots(F, g, ys);
    FewRoots(F, q, ws);
  }

  /** A common root of f and its trace makes the chain end in 0. */
  lemma {:induction false} ChainEnd(F: Field, chain: seq<seq<nat>>, x: nat)
    requires F.Ok() && IsChain(F, chain) && |chain| >= 2 && Trimmed(F, chain[0]) && Trimmed(F, chain[1])
    requires RootOf(F, chain[0], x) && RootOf(F, chain[1], x)
    ensures chain[|chain| - 1] == [0]
  {
    hide F.Ok, Eval, IsChain;
    ChainShape(F, chain);
    ChainDown(F, chain, x);
    ConstantValue(F, chain[|chain| - 1], x);
  }

  /** When the chain ends in 0, the roots of the divisor are the common roots of the first two. */
  lemma {:induction false} DivisorRoots(F: Field, chain: seq<seq<nat>>, x: nat)
    requires F.Ok() && IsChain(F, chain) && |chain| >= 2 && chain[|chain| - 1] == [0] && F.El(x)
    ensures Trimmed(F, chain[0]) && Trimmed(F, chain[1]) && Trimmed(F, Divisor(chain))
    ensures RootOf(F, Divisor(chain), x) <==> RootOf(F, chain[0], x) && RootOf(F, chain[1], x)
  {
    hide F.Ok, Eval, IsChain;
    ChainShape(F, chain);
    ConstantValue(F, chain[|chain| - 1], x);
    if RootOf(F, chain[0], x) && RootOf(F, chain[1], x) { ChainDown(F, chain, x); }
    if RootOf(F, Divisor(chain), x) { ChainUp(F, chain, x); }
  }

  /** The traces at level k tell the two parts apart. */
  lemma {:induction false} PartTraces(F: Field, k: nat, f: seq<nat>, zs: seq<seq<nat>>, chain: seq<seq<nat>>,
                                      xs: seq<nat>, x: nat)
    requires F.Ok() && Trimmed(F, f) && IsChain(F, chain) && |chain| >= 2 && chain[0] == f
             && IsTrace(F, k, f, zs, chain[1])
    requires chain[|chain| - 1] == [0] && RootOf(F, f, x)
    ensures Trimmed(F, Divisor(chain)) && F.El(x)
    ensures Trace(F, GfMul(F, A(F, k), x)) == if RootOf(F, Divisor(chain), x) then 0 else 1
  {
    hide F.Ok, Eval, IsChain, IsTrace, Trace, GfMul, A;
    TraceShape(F, k, f, zs, chain[1]);
    TraceValue(F, k, f, zs, chain[1], x);
    DivisorRoots(F, chain, x);
    TraceBit(F, GfMul(F, A(F, k), x));
  }

  // ----- a polynomial that splits

  /** f splits into xs, whose traces agree below level k. */
  ghost predicate SplitsAt(F: Field, k: nat, f: seq<nat>, xs: seq<nat>)
    requires F.Ok()
  {
    k >= 1 && Trimmed(F, f) && f[|f| - 1] != 0 && SplitsInto(F, f, xs) && SameTraces(F, k, xs)
  }

  lemma {:induction false} WholeStep(F: Field, k: nat, f: seq<nat>, T: Factoring, xs: seq<nat>)
    requires F.Ok() && T.Whole? && Fits(F, k, f, T) && SplitsAt(F, k, f, xs)
    ensures SplitsAt(F, k + 1, f, xs)
  {
    hide F.Ok, Eval, IsTrace, Trace, GfMul, A, SameTraces;
    TraceShape(F, k, f, T.powers, T.trace);
    forall x | x in xs ensures F.El(x) && Trace(F, GfMul(F, A(F, k), x)) == T.trace[0] {
      TraceValue(F, k, f, T.powers, T.trace, x);
      ConstantValue(F, T.trace, x);
    }
    MoreTraces(F, k, xs, xs, T.trace[0]);
  }

  lemma {:induction false} PartsStep(F: Field, k: nat, f: seq<nat>, T: Factoring, xs: seq<nat>)
    requires F.Ok() && F.m > 1 && T.Parts? && Fits(F, k, f, T) && SplitsAt(F, k, f, xs)
    ensures |T.chain| >= 2 && T.remainder == [0] && T.chain[|T.chain| - 1] == [0] && IsPoly(F, Divisor(T.chain))
    ensures SplitsAt(F, k + 1, Divisor(T.chain), Inside(F, Divisor(T.chain), xs))
    ensures SplitsAt(F, k + 1, T.quotient, Outside(F, Divisor(T.chain), xs))
  {
    hide F.Ok, Eval, IsTrace, Trace, GfMul, A, SameTraces, IsChain, DivRem, Inside, Outside, Xor, Pow2;
    var chain, q, r := T.chain, T.quotient, T.remainder;
    ChainShape(F, chain);
    var g := Divisor(chain);
    var x0 := SomeZeroTrace(F, k, f, T.powers, chain[1], xs);
    ChainEnd(F, chain, x0);
    GcdDivides(F, chain, q, r);
    PartsSplit(F, f, g, q, r, xs);
    QuotientTop(F, f, g, q, r);
    InAndOut(F, g, xs);
    var ys, ws := Inside(F, g, xs), Outside(F, g, xs);
    forall x | x in ys ensures F.El(x) && Trace(F, GfMul(F, A(F, k), x)) == 0 {
      PartTraces(F, k, f, T.powers, chain, xs, x);
    }
    forall x | x in ws ensures F.El(x) && Trace(F, GfMul(F, A(F, k), x)) == 1 {
      PartTraces(F, k, f, T.powers, chain, xs, x);
    }
    MoreTraces(F, k, xs, ys, 0);
    MoreTraces(F, k, xs, ws, 1);
  }

  /** At level m + 1 the traces tell all elements apart, so a polynomial that still splits is linear. */
  lemma {:induction false} LevelsSuffice(F: Field, k: nat, f: seq<nat>, xs: seq<nat>)
    requires F.Ok() && F.m > 1 && SplitsAt(F, k, f, xs) && (|f| <= 5 || k > F.m)
    ensures |f| <= 5
  {
    hide F.Ok, Eval, Trace, GfMul, A;
    if |f| > 5 {
      assert xs[0] in xs && xs[1] in xs && xs[0] != xs[1];
      var j := Separates(F, xs[0], xs[1]);
      SameTracesAt(F, k, xs, j, xs[0], xs[1]);
    }
  }

  lemma {:induction false} SameTracesAt(F: Field, k: nat, xs: seq<nat>, j: nat, x: nat, y: nat)
    requires F.Ok() && SameTraces(F, k, xs) && 1 <= j < k && x in xs && y in xs && F.El(x) && F.El(y)
    ensures Trace(F, GfMul(F, A(F, j), x)) == Trace(F, GfMul(F, A(F, j), y))
  {
    hide F.Ok, Trace, GfMul, A;
    assert Level(j);
  }

  /** When f splits, every leaf splits. */
  lemma {:induction false} SplitsSolved(F: Field, k: nat, f: seq<nat>, T: Factoring, xs: seq<nat>)
    requires F.Ok() && F.m > 1 && Fits(F, k, f, T) && SplitsAt(F, k, f, xs)
    ensures AllSolved(F, f, T)
    decreases T
  {
    hide F.Ok, SplitsAt, IsChain, IsTrace, DivRem, Splits, Inside, Outside;
    match T
    case Leaf =>
      LevelsSuffice(F, k, f, xs);
      SplitsLeaf(F, k, f, xs);
    case Whole(zs, t, rest) =>
      WholeStep(F, k, f, T, xs);
      SplitsSolved(F, k + 1, f, rest, xs);
    case Parts(zs, chain, q, r, left, right) =>
      PartsStep(F, k, f, T, xs);
      SplitsSolved(F, k + 1, Divisor(chain), left, Inside(F, Divisor(chain), xs));
      SplitsSolved(F, k + 1, q, right, Outside(F, Divisor(chain), xs));
  }

  lemma {:induction false} SplitsLeaf(F: Field, k: nat, f: seq<nat>, xs: seq<nat>)
    requires F.Ok() && SplitsAt(F, k, f, xs)
    ensures IsPoly(F, f) && |f| >= 1 && Splits(F, f, |f| - 1)
  {
    hide F.Ok, Eval, SameTraces, AllRoots, PositionsOf;
    SplitsPositions(F, f, xs);
  }

  /** Roots of the two parts, when f is divided exactly, are roots of f. */
  lemma {:induction false} JoinRoots(F: Field, f: seq<nat>, g: seq<nat>, q: seq<nat>, r: seq<nat>, ps: seq<nat>,
                                     qs: seq<nat>)
    requires F.Ok() && DivRem(F, f, g, q, r) && r == [0] && IsPoly(F, f) && IsPoly(F, g) && IsPoly(F, q) && |f| >= 1
             && |g| >= 1 && |q| >= 1
    requires AllRoots(F, g, |g| - 1, F.N(), ps) && AllRoots(F, q, |q| - 1, F.N(), qs)
    requires forall x: nat :: RootOf(F, g, x) ==> !RootOf(F, q, x)
    ensures AllRoots(F, f, |f| - 1, F.N(), ps + qs)
  {
    hide F.Ok, Eval, DivRem, IsRoot, IsZero, Inverse;
    DivRemShape(F, f, g, q, r);
    var rs := ps + qs;
    forall i | 0 <= i < |rs| ensures rs[i] < F.N() && IsRoot(F, f, |f| - 1, rs[i]) {
      PartRoot(F, f, g, q, r, rs[i], i < |ps|);
    }
    forall i, j | 0 <= i < j < |rs| ensures rs[i] != rs[j] {
      if i < |ps| <= j {
        PositionRoot(F, g, rs[i]);
        PositionRoot(F, q, rs[j]);
      }
    }
  }

  lemma {:induction false} PositionRoot(F: Field, g: seq<nat>, p: nat)
    requires F.Ok() && IsPoly(F, g) && |g| >= 1 && p < F.N()
    ensures IsRoot(F, g, |g| - 1, p) <==> RootOf(F, g, Inverse(F, p))
  {
    hide F.Ok, RootOf, IsZero, IsRoot, Inverse;
    RootIsZero(F, g, |g| - 1, p);
    ZeroIsRoot(F, g, Inverse(F, p));
  }

  lemma {:induction false} PartRoot(F: Field, f: seq<nat>, g: seq<nat>, q: seq<nat>, r: seq<nat>, p: nat, left: bool)
    requires F.Ok() && DivRem(F, f, g, q, r) && r == [0] && IsPoly(F, f) && IsPoly(F, g) && IsPoly(F, q) && |f| >= 1
             && |g| >= 1 && |q| >= 1
    requires p < F.N() && if left then IsRoot(F, g, |g| - 1, p) else IsRoot(F, q, |q| - 1, p)
    ensures IsRoot(F, f, |f| - 1, p)
  {
    hide F.Ok, Eval, DivRem, IsRoot, IsZero, Inverse;
    PositionRoot(F, f, p);
    PositionRoot(F, g, p);
    PositionRoot(F, q, p);
    DivEval(F, f, g, q, r, Inverse(F, p));
  }

  /** No root of the divisor is a root of the quotient. */
  lemma {:induction false} PartsApart(F: Field, g: seq<nat>, q: seq<nat>, xs: seq<nat>, x: nat)
    requires F.Ok() && Distinct(xs) && Trimmed(F, q) && q[|q| - 1] != 0 && IsPoly(F, g)
             && SplitsInto(F, q, Outside(F, g, xs))
    requires RootOf(F, g, x)
    ensures !RootOf(F, q, x)
  {
    hide F.Ok, Eval, RootOf, Outside;
    InAndOut(F, g, xs);
    var ws := Outside(F, g, xs);
    if RootOf(F, q, x) {
      Another(ws, x);
      FewRoots(F, q, ws + [x]);
    }
  }

  /** When f splits, the roots of the leaves are its roots. */
  lemma {:induction false} SplitsListed(F: Field, k: nat, f: seq<nat>, T: Factoring, xs: seq<nat>, ps: seq<nat>)
    requires F.Ok() && F.m > 1 && Fits(F, k, f, T) && SplitsAt(F, k, f, xs) && ListedBy(F, f, T, ps)
    ensures IsPoly(F, f) && |f| >= 1 && AllRoots(F, f, |f| - 1, F.N(), ps)
    decreases T
  {
    hide F.Ok, SplitsAt, IsChain, IsTrace, DivRem, AllRoots, Inside, Outside, RootOf;
    SplitsLeaf(F, k, f, xs);
    match T
    case Leaf =>
    case Whole(zs, t, rest) =>
      WholeStep(F, k, f, T, xs);
      SplitsListed(F, k + 1, f, rest, xs, ps);
    case Parts(zs, chain, q, r, left, right) =>
      PartsStep(F, k, f, T, xs);
      var g := Divisor(chain);
      var ys, ws := Inside(F, g, xs), Outside(F, g, xs);
      var n := |g| - 1;
      SplitsListed(F, k + 1, g, left, ys, ps[..n]);
      SplitsListed(F, k + 1, q, right, ws, ps[n..]);
      SplitsParts(F, k, f, xs);
      SplitsParts(F, k + 1, q, ws);
      forall x: nat | RootOf(F, g, x) ensures !RootOf(F, q, x) { PartsApart(F, g, q, xs, x); }
      JoinRoots(F, f, g, q, r, ps[..n], ps[n..]);
      assert ps[..n] + ps[n..] == ps;
  }

  lemma {:induction false} SplitsParts(F: Field, k: nat, f: seq<nat>, xs: seq<nat>)
    requires F.Ok() && SplitsAt(F, k, f, xs)
    ensures Trimmed(F, f) && f[|f| - 1] != 0 && SplitsInto(F, f, xs) && Distinct(xs)
  {
  }

  // ----- the finder

  /** factor_polynomial: the trace of a^k X modulo f, and f divided by what Euclid's algorithm finds, or f itself. */
  method FactorPolynomial(F: Field, k: nat, f: seq<nat>)
    returns (split: bool, g: seq<nat>, h: seq<nat>, ghost zs: seq<seq<nat>>, ghost chain: seq<seq<nat>>,
      ghost r: seq<nat>)
    requires F.Ok() && k <= F.N() && Trimmed(F, f) && |f| > 2
    ensures |chain| >= 2 && chain[0] == f && IsTrace(F, k, f, zs, chain[1])
    ensures split <==> |chain[1]| > 1
    ensures split ==> IsChain(F, chain) && g == Divisor(chain) && DivRem(F, f, g, h, r)
    ensures !split ==> g == f
  {
    hide F.Ok, IsTrace, IsChain, DivRem, Pow2;
    var t;
    t, zs := ComputeTraceBkMod(F, k, f);
    TraceShape(F, k, f, zs, t);
    split, g, h, r, chain := false, f, [], [], [f, t];
    if |t| > 1 {
      var f2, tk := new nat[|f|](i requires 0 <= i < |f| => f[i]), new nat[|t|](i requires 0 <= i < |t| => t[i]);
      assert f2[..] == f && tk[..] == t && f2[..|f| - 1 + 1] == f && tk[..|t| - 1 + 1] == t;
      var gcd, gdeg;
      gcd, gdeg, chain := Gcd(F, f2, |f| - 1, tk, |t| - 1);
      ChainShape(F, chain);
      assert chain[0] == chain[..2][0] && chain[1] == chain[..2][1];
      if gdeg < |f| - 1 {
        split, g := true, gcd[..gdeg + 1];
        h, r := DivideBy(F, f, g);
      }
    }
  }

  lemma {:induction false} LeafCount(F: Field, f: seq<nat>, roots: seq<nat>)
    requires F.Ok() && IsPoly(F, f) && 1 <= |f| <= 5 && Finds(F, f, |f| - 1, F.N(), roots)
    ensures |roots| < |f| && (|roots| + 1 == |f| <==> Solved(F, f))
              && (|roots| + 1 == |f| ==> ListedBy(F, f, Leaf, roots))
  {
    hide F.Ok, AllRoots;
  }

  /** Polynomials of degree at most 4. */
  method SolveLeaf(F: Field, xi: seq<nat>, ghost ak: nat, f: seq<nat>) returns (roots: seq<nat>)
    requires F.Ok() && 5 <= F.m <= 15 && BaseOk(F, xi, ak) && Trimmed(F, f) && f[|f| - 1] != 0 && |f| <= 5
    ensures Finds(F, f, |f| - 1, F.N(), roots)
  {
    hide F.Ok, BaseOk, AllRoots;
    if |f| == 2 {
      roots := FindDeg1Roots(F, f);
    } else if |f| == 3 {
      roots := FindDeg2Roots(F, xi, ak, f);
    } else if |f| == 4 {
      roots := FindDeg3Roots(F, f);
    } else if |f| == 5 {
      roots := FindDeg4Roots(F, f);
    } else {
      roots := [];
      NoRootsAtAll(F, f);
    }
  }

  lemma {:induction false} NoRootsAtAll(F: Field, f: seq<nat>)
    requires F.Ok() && IsPoly(F, f)
    ensures AllRoots(F, f, 0, F.N(), [])
  {
  }

  lemma {:induction false} LevelRange(F: Field, k: nat)
    requires F.Ok() && k <= F.m
    ensures k <= F.N()
  {
    hide F.Ok;
    BelowPow2(k);
    Pow2Mono(k, F.m);
  }

  lemma {:induction false} JoinCounts(F: Field, f: seq<nat>, T: Factoring, ps: seq<nat>, qs: seq<nat>)
    requires F.Ok() && T.Parts? && |T.chain| >= 2 && |Divisor(T.chain)| >= 1 && |T.quotient| >= 1
    requires |f| + 1 == |Divisor(T.chain)| + |T.quotient| && |ps| < |Divisor(T.chain)| && |qs| < |T.quotient|
    requires |ps| + 1 == |Divisor(T.chain)| <==> AllSolved(F, Divisor(T.chain), T.left)
    requires |qs| + 1 == |T.quotient| <==> AllSolved(F, T.quotient, T.right)
    requires |ps| + 1 == |Divisor(T.chain)| ==> ListedBy(F, Divisor(T.chain), T.left, ps)
    requires |qs| + 1 == |T.quotient| ==> ListedBy(F, T.quotient, T.right, qs)
    ensures |ps + qs| < |f| && (|ps + qs| + 1 == |f| <==> AllSolved(F, f, T))
    ensures |ps + qs| + 1 == |f| ==> ListedBy(F, f, T, ps + qs)
  {
    hide F.Ok, Solved, AllRoots;
    var n := |Divisor(T.chain)| - 1;
    if |ps| == n { assert (ps + qs)[..n] == ps && (ps + qs)[n..] == qs; }
  }

  /** find_poly_roots, from level k on: as many roots as the degree are found exactly when every leaf splits. */
  method FindRoots(F: Field, xi: seq<nat>, ghost ak: nat, k: nat, f: seq<nat>)
    returns (roots: seq<nat>, ghost T: Factoring)
    requires F.Ok() && 5 <= F.m <= 15 && BaseOk(F, xi, ak) && Trimmed(F, f) && f[|f| - 1] != 0
    ensures Fits(F, k, f, T) && |roots| < |f| && (|roots| + 1 == |f| <==> AllSolved(F, f, T))
    ensures |roots| + 1 == |f| ==> ListedBy(F, f, T, roots)
    decreases F.m + 1 - k
  {
    hide F.Ok, BaseOk, IsTrace, IsChain, DivRem, Finds, Splits, Pow2;
    T := Leaf;
    if |f| <= 5 {
      roots := SolveLeaf(F, xi, ak, f);
      LeafCount(F, f, roots);
    } else if k <= F.m {
      LevelRange(F, k);
      var split, g, h;
      ghost var zs, chain, r;
      split, g, h, zs, chain, r := FactorPolynomial(F, k, f);
      if split {
        DivRemShape(F, f, g, h, r);
        QuotientTop(F, f, g, h, r);
        ghost var U, V;
        var more;
        roots, U := FindRoots(F, xi, ak, k + 1, g);
        more, V := FindRoots(F, xi, ak, k + 1, h);
        T := Parts(zs, chain, h, r, U, V);
        JoinCounts(F, f, T, roots, more);
        roots := roots + more;
      } else {
        ghost var U;
        roots, U := FindRoots(F, xi, ak, k + 1, g);
        T := Whole(zs, chain[1], U);
        TraceShape(F, k, f, zs, chain[1]);
      }
    } else {
      roots := [];
    }
  }

  // ----- exact divisions

  /** Every division on the way leaves no remainder. */
  ghost predicate Divided(T: Factoring) {
    match T
    case Leaf => true
    case Whole(zs, t, rest) => Divided(rest)
    case Parts(zs, chain, q, r, left, right) => r == [0] && Divided(left) && Divided(right)
  }

  ghost predicate NoCommonRoot(F: Field, g: seq<nat>, q: seq<nat>)
    requires F.Ok()
  {
    IsPoly(F, g) && IsPoly(F, q) && forall x: nat :: RootOf(F, g, x) ==> !RootOf(F, q, x)
  }

  /** Every division leaves no remainder, and its divisor and quotient have no root in common. */
  ghost predicate Exact(F: Field, T: Factoring)
    requires F.Ok()
  {
    match T
    case Leaf => true
    case Whole(zs, t, rest) => Exact(F, rest)
    case Parts(zs, chain, q, r, left, right) =>
      r == [0] && |chain| >= 2 && NoCommonRoot(F, Divisor(chain), q) && Exact(F, left) && Exact(F, right)
  }

  /** When f splits, all divisions are exact. */
  lemma {:induction false} SplitsExact(F: Field, k: nat, f: seq<nat>, T: Factoring, xs: seq<nat>)
    requires F.Ok() && F.m > 1 && Fits(F, k, f, T) && SplitsAt(F, k, f, xs)
    ensures Exact(F, T)
    decreases T
  {
    hide F.Ok, SplitsAt, IsChain, IsTrace, DivRem, Inside, Outside, RootOf;
    match T
    case Leaf =>
    case Whole(zs, t, rest) =>
      WholeStep(F, k, f, T, xs);
      SplitsExact(F, k + 1, f, rest, xs);
    case Parts(zs, chain, q, r, left, right) =>
      PartsStep(F, k, f, T, xs);
      var g := Divisor(chain);
      var ws := Outside(F, g, xs);
      SplitsExact(F, k + 1, g, left, Inside(F, g, xs));
      SplitsExact(F, k + 1, q, right, ws);
      SplitsParts(F, k, f, xs);
      SplitsParts(F, k + 1, q, ws);
      forall x: nat | RootOf(F, g, x) ensures !RootOf(F, q, x) { PartsApart(F, g, q, xs, x); }
  }

  /** When all leaves split and all divisions are exact, f splits. */
  lemma {:induction false} ExactSplits(F: Field, k: nat, f: seq<nat>, T: Factoring)
    requires F.Ok() && Fits(F, k, f, T) && Trimmed(F, f) && f[|f| - 1] != 0 && AllSolved(F, f, T) && Exact(F, T)
    ensures Splits(F, f, |f| - 1)
    decreases T
  {
    hide F.Ok, IsChain, IsTrace, DivRem, AllRoots, RootOf;
    match T
    case Leaf =>
    case Whole(zs, t, rest) => ExactSplits(F, k + 1, f, rest);
    case Parts(zs, chain, q, r, left, right) =>
      ChainShape(F, chain);
      var g := Divisor(chain);
      DivRemShape(F, f, g, q, r);
      QuotientTop(F, f, g, q, r);
      ExactSplits(F, k + 1, g, left);
      ExactSplits(F, k + 1, q, right);
      var ps: seq<nat> :| AllRoots(F, g, |g| - 1, F.N(), ps);
      var qs: seq<nat> :| AllRoots(F, q, |q| - 1, F.N(), qs);
      JoinRoots(F, f, g, q, r, ps, qs);
  }

  /** A polynomial of which all leaves split does so itself if and only if all divisions were exact. */
  lemma {:induction false} SplitsIffExact(F: Field, f: seq<nat>, T: Factoring)
    requires F.Ok() && F.m > 1 && Trimmed(F, f) && f[|f| - 1] != 0 && Fits(F, 1, f, T)
    ensures Splits(F, f, |f| - 1) <==> AllSolved(F, f, T) && Exact(F, T)
  {
    hide F.Ok, Fits, AllSolved, Exact, AllRoots, SplitsInto, SameTraces;
    if Splits(F, f, |f| - 1) {
      var ps: seq<nat> :| AllRoots(F, f, |f| - 1, F.N(), ps);
      PositionsSplit(F, f, ps);
      var xs := ElementsAt(F, ps);
      NoTraces(F, xs);
      SplitsSolved(F, 1, f, T, xs);
      SplitsExact(F, 1, f, T, xs);
    } else if AllSolved(F, f, T) && Exact(F, T) {
      ExactSplits(F, 1, f, T);
    }
  }

  /** The finder is right about f: a complete set of roots when f splits, and fewer than its degree when it does not.
      With as many roots as the degree it is right if and only if all divisions were exact. */
  lemma {:induction false} FinderRight(F: Field, f: seq<nat>, T: Factoring, roots: seq<nat>)
    requires F.Ok() && F.m > 1 && Trimmed(F, f) && f[|f| - 1] != 0 && Fits(F, 1, f, T)
    requires |roots| < |f| && (|roots| + 1 == |f| <==> AllSolved(F, f, T))
             && (|roots| + 1 == |f| ==> ListedBy(F, f, T, roots))
    ensures Splits(F, f, |f| - 1) ==> AllRoots(F, f, |f| - 1, F.N(), roots)
    ensures |roots| + 1 == |f| ==> (AllRoots(F, f, |f| - 1, F.N(), roots) <==> Exact(F, T))
    ensures Finds(F, f, |f| - 1, F.N(), roots) <==> |roots| + 1 < |f| || Exact(F, T)
  {
    hide F.Ok, Fits, AllSolved, Exact, ListedBy, AllRoots, SplitsInto, SameTraces;
    SplitsIffExact(F, f, T);
    if Splits(F, f, |f| - 1) {
      var ps: seq<nat> :| AllRoots(F, f, |f| - 1, F.N(), ps);
      PositionsSplit(F, f, ps);
      var xs := ElementsAt(F, ps);
      NoTraces(F, xs);
      SplitsListed(F, 1, f, T, xs, roots);
    }
  }

  lemma {:induction false} NoTraces(F: Field, xs: seq<nat>)
    requires F.Ok()
    ensures SameTraces(F, 1, xs)
  {
    hide F.Ok, Trace, GfMul, A;
  }

  // ----- roots inside the message

  /** Every leaf splits, with all its roots at positions below n. */
  ghost predicate AllBelow(F: Field, f: seq<nat>, T: Factoring, n: nat)
    requires F.Ok()
    decreases T
  {
    match T
    case Leaf => IsPoly(F, f) && 1 <= |f| <= 5 && SplitsBelow(F, f, |f| - 1, n)
    case Whole(zs, t, rest) => AllBelow(F, f, rest, n)
    case Parts(zs, chain, q, r, left, right) => |chain| >= 2 && AllBelow(F, Divisor(chain), left, n)
                                                && AllBelow(F, q, right, n)
  }

  lemma {:induction false} BelowSolved(F: Field, f: seq<nat>, T: Factoring, n: nat)
    requires F.Ok() && AllBelow(F, f, T, n) && n <= F.N()
    ensures AllSolved(F, f, T)
    decreases T
  {
    hide F.Ok, IsRoot;
    match T
    case Leaf =>
      var ps: seq<nat> :| AllRoots(F, f, |f| - 1, n, ps);
      assert AllRoots(F, f, |f| - 1, F.N(), ps);
    case Whole(zs, t, rest) => BelowSolved(F, f, rest, n);
    case Parts(zs, chain, q, r, left, right) =>
      BelowSolved(F, Divisor(chain), left, n);
      BelowSolved(F, q, right, n);
  }

  /** Any two complete sets of roots are at the same positions. */
  lemma {:induction false} SamePositions(F: Field, f: seq<nat>, ps: seq<nat>, qs: seq<nat>, p: nat)
    requires F.Ok() && Trimmed(F, f) && f[|f| - 1] != 0 && p in ps
    requires AllRoots(F, f, |f| - 1, F.N(), ps) && AllRoots(F, f, |f| - 1, F.N(), qs)
    ensures p in qs
  {
    hide F.Ok, Inverse, IsZero, IsRoot;
    FromPositions(F, f, |f| - 1, ps);
    FromPositions(F, f, |f| - 1, qs);
    var i :| 0 <= i < |ps| && ps[i] == p;
    var xs, ys := ElementsAt(F, ps), ElementsAt(F, qs);
    RootAt(F, f, |f| - 1, xs, i);
    NoMore(F, f, |f| - 1, ys, xs[i]);
    var j :| 0 <= j < |ys| && ys[j] == xs[i];
    InverseInjective(F, p, qs[j]);
  }

  lemma {:induction false} LeafBelow(F: Field, f: seq<nat>, ps: seq<nat>, n: nat)
    requires F.Ok() && Trimmed(F, f) && f[|f| - 1] != 0 && n <= F.N() && AllRoots(F, f, |f| - 1, F.N(), ps)
    ensures SplitsBelow(F, f, |f| - 1, n) <==> forall p :: p in ps ==> p < n
  {
    hide F.Ok, IsRoot;
    if SplitsBelow(F, f, |f| - 1, n) {
      var qs: seq<nat> :| AllRoots(F, f, |f| - 1, n, qs);
      assert AllRoots(F, f, |f| - 1, F.N(), qs);
      forall p | p in ps ensures p < n { SamePositions(F, f, ps, qs, p); }
    }
    if forall p :: p in ps ==> p < n {
      forall i | 0 <= i < |ps| ensures ps[i] < n { assert ps[i] in ps; }
      assert AllRoots(F, f, |f| - 1, n, ps);
    }
  }

  /** The listed positions are below n exactly when all leaves have theirs there. */
  lemma {:induction false} ListedBelow(F: Field, k: nat, f: seq<nat>, T: Factoring, ps: seq<nat>, n: nat)
    requires F.Ok() && Fits(F, k, f, T) && Trimmed(F, f) && f[|f| - 1] != 0 && ListedBy(F, f, T, ps) && n <= F.N()
    ensures AllBelow(F, f, T, n) <==> forall p :: p in ps ==> p < n
    decreases T
  {
    hide F.Ok, AllRoots, SplitsBelow, IsTrace, IsChain, DivRem;
    match T
    case Leaf => LeafBelow(F, f, ps, n);
    case Whole(zs, t, rest) => ListedBelow(F, k + 1, f, rest, ps, n);
    case Parts(zs, chain, q, r, left, right) =>
      ChainShape(F, chain);
      var g := Divisor(chain);
      QuotientTop(F, f, g, q, r);
      var m := |g| - 1;
      ListedBelow(F, k + 1, g, left, ps[..m], n);
      ListedBelow(F, k + 1, q, right, ps[m..], n);
      assert ps == ps[..m] + ps[m..];
      assert forall p :: p in ps <==> p in ps[..m] || p in ps[m..];
      assert AllBelow(F, f, T, n) <==> AllBelow(F, g, left, n) && AllBelow(F, q, right, n);
  }
}
