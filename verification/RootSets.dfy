/** Roots of polynomials as elements of the field, and as the positions that the decoder names. */
module RootSets {
  import opened Common
  import opened Gf2
  import opened GaloisField
  import opened FieldLaws
  import opened FieldPoly
  import opened PowerSeries
  import opened BerlekampMassey
  import opened Locator
  import opened LocatorUnique
  import opened Chien
  import opened LowRoots
  import opened LinearSolve

  ghost predicate IsZero(F: Field, c: seq<nat>, d: nat, x: nat)
    requires F.Ok() && IsPoly(F, c)
  {
    SerToIsSer(F, c, d);
    F.El(x) && EvalSer(F, SerTo(c, d), d, x) == 0
  }

  /** A complete set of roots: as many as the degree. */
  ghost predicate RootsAre(F: Field, c: seq<nat>, d: nat, xs: seq<nat>)
    requires F.Ok() && IsPoly(F, c)
  {
    |xs| == d && Distinct(xs) && forall i :: 0 <= i < |xs| ==> IsZero(F, c, d, xs[i])
  }

  lemma {:induction false} RootAt(F: Field, c: seq<nat>, d: nat, xs: seq<nat>, i: nat)
    requires F.Ok() && IsPoly(F, c) && RootsAre(F, c, d, xs) && i < |xs|
    ensures |xs| == d && IsZero(F, c, d, xs[i]) && F.El(xs[i])
  {
    hide SerTo, EvalSer;
  }

  lemma {:induction false} IsZeroEval(F: Field, c: seq<nat>, d: nat, x: nat)
    requires F.Ok() && IsPoly(F, c) && d < |c| && F.El(x)
    ensures IsPoly(F, c[..d + 1]) && (IsZero(F, c, d, x) <==> Eval(F, c[..d + 1], x) == 0)
  {
    hide F.Ok, Eval, EvalSer;
    SerToIsSer(F, c, d);
    EvalSerIsEval(F, SerTo(c, d), c[..d + 1], x);
  }

  lemma {:induction false} Another(xs: seq<nat>, y: nat)
    requires Distinct(xs) && y !in xs
    ensures Distinct(xs + [y])
  {
  }

  /** A complete set of roots has every root. */
  lemma {:induction false} NoMore(F: Field, c: seq<nat>, d: nat, xs: seq<nat>, y: nat)
    requires F.Ok() && IsPoly(F, c) && d < |c| && c[d] != 0 && RootsAre(F, c, d, xs) && IsZero(F, c, d, y)
    ensures y in xs
  {
    hide F.Ok, Eval, EvalSer, SerTo, IsZero;
    if y !in xs {
      var rs, p := xs + [y], c[..d + 1];
      assert p[d] == c[d];
      Another(xs, y);
      forall i | 0 <= i < |rs| ensures F.El(rs[i]) && IsPoly(F, p) && Eval(F, p, rs[i]) == 0 {
        if i < |xs| { RootAt(F, c, d, xs, i); }
        ZeroIn(F, c, d, rs[i]);
        IsZeroEval(F, c, d, rs[i]);
      }
      RootsBound(F, p, rs);
    }
  }

  lemma {:induction false} ZeroIn(F: Field, c: seq<nat>, d: nat, x: nat)
    requires F.Ok() && IsPoly(F, c) && IsZero(F, c, d, x)
    ensures F.El(x)
  {
  }

  // ----- elements and positions

  /** a_ilog: the position whose inverse power is x. */
  function Position(F: Field, x: nat): (q: nat)
    requires F.Ok() && F.El(x) && x != 0
    ensures q < F.N()
  {
    LogEntry(F, x);
    ModS(F.N(), F.N() - F.log[x])
  }

  lemma {:induction false} PositionInverse(F: Field, x: nat)
    requires F.Ok() && F.El(x) && x != 0
    ensures Inverse(F, Position(F, x)) == x
  {
    hide F.Ok, Pow2, A, Inverse;
    LogEntry(F, x);
    ALog(F, x);
    var l := F.log[x];
    var q := Position(F, x);
    AModS(F, F.N() - l);
    ALookup(F, q);
    PositionOf(F, l, F.N() - l, q);
  }

  ghost function ElementsAt(F: Field, ps: seq<nat>): (xs: seq<nat>)
    requires F.Ok() && Positions(F, ps)
    ensures |xs| == |ps| && forall i :: 0 <= i < |xs| ==> F.El(xs[i]) && xs[i] != 0 && xs[i] == Inverse(F, ps[i])
  {
    seq(|ps|, i requires 0 <= i < |ps| => Inverse(F, ps[i]))
  }

  lemma {:induction false} FromPositions(F: Field, c: seq<nat>, d: nat, ps: seq<nat>)
    requires F.Ok() && IsPoly(F, c) && AllRoots(F, c, d, F.N(), ps)
    ensures Positions(F, ps) && RootsAre(F, c, d, ElementsAt(F, ps))
  {
    hide F.Ok, Pow2, A, Inverse, EvalSer, SerTo, IsRoot, IsZero;
    var xs := ElementsAt(F, ps);
    forall i | 0 <= i < |xs| ensures IsZero(F, c, d, xs[i]) { RootIsZero(F, c, d, ps[i]); }
    forall i, j | 0 <= i < j < |xs| ensures xs[i] != xs[j] {
      if xs[i] == xs[j] { InverseInjective(F, ps[i], ps[j]); }
    }
  }

  lemma {:induction false} RootIsZero(F: Field, c: seq<nat>, d: nat, q: nat)
    requires F.Ok() && IsPoly(F, c) && q < F.N()
    ensures IsRoot(F, c, d, q) <==> IsZero(F, c, d, Inverse(F, q))
  {
    hide F.Ok, EvalSer, SerTo, Inverse;
  }

  /** The position of every element. */
  function PositionsOf(F: Field, xs: seq<nat>): (ps: seq<nat>)
    requires F.Ok() && forall i :: 0 <= i < |xs| ==> F.El(xs[i]) && xs[i] != 0
    ensures |ps| == |xs| && forall i :: 0 <= i < |xs| ==> ps[i] == Position(F, xs[i])
  {
    seq(|xs|, i requires 0 <= i < |xs| => Position(F, xs[i]))
  }

  lemma {:induction false} ToPositions(F: Field, c: seq<nat>, d: nat, xs: seq<nat>)
    requires F.Ok() && IsPoly(F, c) && RootsAre(F, c, d, xs) && forall i :: 0 <= i < |xs| ==> F.El(xs[i]) && xs[i] != 0
    ensures AllRoots(F, c, d, F.N(), PositionsOf(F, xs))
  {
    hide F.Ok, Pow2, A, Inverse, EvalSer, SerTo, IsRoot, IsZero, Position;
    var ps := PositionsOf(F, xs);
    forall i | 0 <= i < |ps| ensures IsRoot(F, c, d, ps[i]) && Inverse(F, ps[i]) == xs[i] {
      PositionInverse(F, xs[i]);
      RootIsZero(F, c, d, ps[i]);
    }
    forall i, j | 0 <= i < j < |ps| ensures ps[i] != ps[j] { assert xs[i] != xs[j]; }
  }

  /** The value at zero is the constant term. */
  lemma {:induction false} ValueAtZero(F: Field, c: seq<nat>, d: nat)
    requires F.Ok() && IsPoly(F, c) && 0 < |c|
    ensures F.El(0) && (IsZero(F, c, d, 0) <==> c[0] == 0)
  {
    hide F.Ok, EvalSer, GfMul, Xor;
    FieldShape(F);
    SerToIsSer(F, c, d);
    EvalSerStep(F, SerTo(c, d), d, 0);
    if d > 0 {
      MulZero(F, EvalSer(F, Tail(SerTo(c, d)), d - 1, 0));
      XorZero(c[0]);
    }
  }

  /** Without a constant term there is no complete set of nonzero roots. */
  lemma {:induction false} NoConstant(F: Field, c: seq<nat>, d: nat, ps: seq<nat>)
    requires F.Ok() && IsPoly(F, c) && d < |c| && c[d] != 0 && c[0] == 0
    ensures !AllRoots(F, c, d, F.N(), ps)
  {
    hide F.Ok, IsZero, RootsAre, AllRoots, ElementsAt;
    if AllRoots(F, c, d, F.N(), ps) {
      FromPositions(F, c, d, ps);
      ValueAtZero(F, c, d);
      NoMore(F, c, d, ElementsAt(F, ps), 0);
    }
  }
}
