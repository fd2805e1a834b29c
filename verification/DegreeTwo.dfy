/** Roots of polynomials of degree 1 and 2 in closed form, and the basis of solutions of z^2 + z = u that
    the latter needs. */
module DegreeTwo {
  import opened Gf2
  import opened GaloisField
  import opened FieldLaws
  import opened FieldPoly
  import opened PowerSeries
  import opened BerlekampMassey
  import opened Locator
  import opened LocatorUnique
  import opened Chien
  import opened TraceMap

  // ----- the basis

  /** xi[i]^2 + xi[i] is a^i, up to an element ak of trace 1. */
  ghost predicate BaseOk(F: Field, xi: seq<nat>, ak: nat)
    requires F.Ok()
  {
    && |xi| == F.m && F.El(ak) && Trace(F, ak) == 1
    && forall i: nat :: i < F.m ==> EntryFits(F, xi[i], i, ak)
  }

  ghost predicate EntryFits(F: Field, x: nat, i: nat, ak: nat)
    requires F.Ok()
  {
    F.El(x) && (Artin(F, x) == A(F, i) || Artin(F, x) == Xor(A(F, i), ak))
  }

  /** The trace of a^i, by table. */
  method TraceOfPower(F: Field, i: nat) returns (sum: nat)
    requires F.Ok() && F.m > 1
    ensures sum == Trace(F, A(F, i))
  {
    hide F.Ok, Frob, TraceSum, A, Pow2, Xor;
    sum := 0;
    TraceStep(F, A(F, i), 0);
    for j := 0 to F.m
      invariant sum == TraceSum(F, A(F, i), j)
    {
      var y := PowerOf(F, i * Pow2(j));
      FrobPower(F, i, j);
      TraceStep(F, A(F, i), j);
      sum := Xor(sum, y);
    }
  }

  lemma {:induction false} TraceAmongBits(F: Field) returns (i: nat)
    requires F.Ok() && F.m > 1
    ensures i < F.m && Trace(F, A(F, i)) == 1
  {
    hide F.Ok, Trace, A, Pow2, GfMul;
    FieldShape(F);
    var x := SomeTrace(F);
    if forall j: nat :: j < F.m ==> Trace(F, GfMul(F, A(F, j), 1)) == 0 {
      AllTraces(F, 1, x);
      MulOne(F, x);
      assert false;
    } else {
      var j: nat :| j < F.m && Trace(F, GfMul(F, A(F, j), 1)) != 0;
      i := j;
      MulOne(F, A(F, i));
      MulComm(F, A(F, i), 1);
      TraceBit(F, A(F, i));
    }
  }

  /** The first of the powers below a^m that has trace 1. */
  method FindTraceOne(F: Field) returns (ak: nat)
    requires F.Ok() && F.m > 1
    ensures F.El(ak) && Trace(F, ak) == 1
  {
    hide F.Ok, Trace, A, Pow2;
    FieldShape(F);
    ghost var g := TraceAmongBits(F);
    ak := 0;
    var i := 0;
    while i < F.m
      invariant 0 <= i <= g
    {
      var sum := TraceOfPower(F, i);
      if sum != 0 {
        ExponentRange(F, i);
        ALookup(F, i);
        TraceBit(F, A(F, i));
        ak := F.pow[i];
        break;
      }
      i := i + 1;
    }
  }

  lemma {:induction false} ExponentRange(F: Field, i: nat)
    requires F.Ok() && i < F.m
    ensures i <= F.N() < |F.pow|
  {
    hide F.Ok, Pow2;
    FieldShape(F);
    PowEntry(F, 0);
    BelowPow2(i);
    Pow2Mono(i, F.m);
  }

  lemma {:induction false} BelowPow2(i: nat)
    ensures i < Pow2(i)
  {
    if i > 0 { BelowPow2(i - 1); }
  }

  ghost function Unset(done: seq<bool>): nat {
    if done == [] then 0 else Unset(done[..|done| - 1]) + if done[|done| - 1] then 0 else 1
  }

  lemma {:induction false} UnsetMark(done: seq<bool>, i: nat)
    requires i < |done| && !done[i]
    ensures Unset(done[i := true]) + 1 == Unset(done)
  {
    var n := |done| - 1;
    if i == n {
      assert done[i := true][..n] == done[..n];
    } else {
      assert done[i := true][..n] == done[..n][i := true];
      UnsetMark(done[..n], i);
    }
  }

  lemma {:induction false} UnsetNone(done: seq<bool>, i: nat)
    requires i < |done| && Unset(done) == 0
    ensures done[i]
  {
    var n := |done| - 1;
    if i < n { UnsetNone(done[..n], i); }
  }

  lemma {:induction false} UnsetAll(n: nat, done: seq<bool>)
    requires |done| == n && forall i :: 0 <= i < n ==> !done[i]
    ensures Unset(done) == n
  {
    if n > 0 { UnsetAll(n - 1, done[..n - 1]); }
  }

  /** y is nonzero with logarithm r: it is a^r. */
  lemma {:induction false} EntryFound(F: Field, x: nat, y: nat, ak: nat)
    requires F.Ok() && F.El(x) && F.El(y) && F.El(ak) && y != 0
    requires y == Artin(F, x) || y == Xor(Artin(F, x), ak)
    ensures y < |F.log| && EntryFits(F, x, F.log[y], ak)
  {
    hide F.Ok, Artin, A, Pow2, Xor;
    LogEntry(F, y);
    ALog(F, y);
    XorSolve(Artin(F, x), ak);
  }

  lemma {:induction false} UnsetDone(done: seq<bool>)
    requires forall i :: 0 <= i < |done| ==> done[i]
    ensures Unset(done) == 0
  {
    if done != [] { UnsetDone(done[..|done| - 1]); }
  }

  /** The entry that y stands for has been filled, if it is one of the table. */
  ghost predicate Handled(F: Field, done: seq<bool>, y: nat) {
    y != 0 && y < |F.log| && F.log[y] < |done| ==> done[F.log[y]]
  }

  /** What x has contributed: always its own value, and plus ak if x is the second of a pair. */
  ghost predicate Tried(F: Field, done: seq<bool>, ak: nat, x: nat)
    requires F.Ok()
  {
    F.El(x) ==> Handled(F, done, Artin(F, x)) && (x % 2 == 1 ==> Handled(F, done, Xor(Artin(F, x), ak)))
  }

  lemma {:induction false} ArtinPair(F: Field, x: nat)
    requires F.Ok() && F.El(x) && x % 2 == 0
    ensures F.El(x + 1) && Artin(F, x + 1) == Artin(F, x)
  {
    FieldShape(F);
    Pow2Double(F.m);
    assert F.El(x + 1);
    XorHalves(x, 1);
    XorComm(x / 2, 0);
    XorZero(x / 2);
    assert Xor(x, 1) == x + 1;
    hide F.Ok, Artin, Pow2, Xor;
    ArtinAdd(F, x, 1);
    ArtinOne(F);
    XorZero(Artin(F, x));
  }

  lemma {:induction false} ArtinOne(F: Field)
    requires F.Ok()
    ensures F.El(1) && Artin(F, 1) == 0
  {
    hide F.Ok, GfSqr, Pow2, Xor, GfMul;
    FieldShape(F);
    SqrIsMul(F, 1);
    MulOne(F, 1);
    XorSelf(1);
  }

  /** Once all elements have been tried, every entry has been filled. */
  lemma {:induction false} AllDone(F: Field, done: seq<bool>, ak: nat, r: nat)
    requires F.Ok() && F.m > 1 && |done| == F.m && F.El(ak) && Trace(F, ak) == 1 && r < F.m
    requires forall x: nat :: F.El(x) ==> Tried(F, done, ak, x)
    ensures done[r]
  {
    hide F.Ok, Trace, A, Pow2, Xor, Artin;
    var u := A(F, r);
    ExponentRange(F, r);
    LogBelow(F, r);
    TraceBit(F, u);
    if Trace(F, u) == 0 {
      var z := ArtinOnto(F, u);
      assert Tried(F, done, ak, z);
    } else {
      TraceSumOf(F, u, ak);
      var z := ArtinOnto(F, Xor(u, ak));
      XorSolve(u, ak);
      if z % 2 == 0 {
        ArtinPair(F, z);
        assert Tried(F, done, ak, z + 1);
      } else {
        assert Tried(F, done, ak, z);
      }
    }
  }

  lemma {:induction false} TraceSumOf(F: Field, x: nat, y: nat)
    requires F.Ok() && F.El(x) && F.El(y) && Trace(F, x) == Trace(F, y)
    ensures F.El(Xor(x, y)) && Trace(F, Xor(x, y)) == 0
  {
    hide F.Ok, TraceSum, Pow2, Xor;
    TraceAdd(F, x, y, F.m);
    XorSelf(Trace(F, x));
  }

  lemma {:induction false} LogBelow(F: Field, r: nat)
    requires F.Ok() && r < F.m && F.m > 1
    ensures A(F, r) < |F.log| && F.log[A(F, r)] == r
  {
    hide F.Ok, A;
    FieldShape(F);
    BelowPow2(r + 1);
    Pow2Mono(r + 1, F.m);
    ALookup(F, r);
    PowEntry(F, r);
  }

  lemma {:induction false} StillHandled(F: Field, done: seq<bool>, r: nat, ak: nat, x: nat)
    requires F.Ok() && r < |done| && Tried(F, done, ak, x)
    ensures Tried(F, done[r := true], ak, x)
  {
  }

  lemma {:induction false} MarkHandles(F: Field, done: seq<bool>, y: nat)
    requires F.Ok() && y < |F.log| && F.log[y] < |done|
    ensures Handled(F, done[F.log[y] := true], y)
  {
  }

  lemma {:induction false} NotMarked(F: Field, done: seq<bool>, y: nat)
    requires F.Ok() && y < |F.log| && (y == 0 || F.log[y] >= |done| || done[F.log[y]])
    ensures Handled(F, done, y)
  {
  }

  lemma {:induction false} HandledMarked(F: Field, done: seq<bool>, y: nat)
    requires F.Ok() && y < |F.log| && y != 0 && F.log[y] < |done| && Handled(F, done, y)
    ensures done[F.log[y]]
  {
  }

  lemma {:induction false} PairTried(F: Field, done: seq<bool>, ak: nat, x: nat)
    requires F.Ok() && F.El(x) && (x % 2 == 1 ==> Tried(F, done, ak, x - 1))
    ensures x % 2 == 1 ==> Handled(F, done, Artin(F, x))
  {
    hide F.Ok, Artin, Pow2, Xor, Handled;
    if x % 2 == 1 { ArtinPair(F, x - 1); }
  }

  lemma {:induction false} TriedIntro(F: Field, done: seq<bool>, ak: nat, x: nat)
    requires F.Ok() && F.El(x)
    requires Handled(F, done, Artin(F, x)) && (x % 2 == 1 ==> Handled(F, done, Xor(Artin(F, x), ak)))
    ensures Tried(F, done, ak, x)
  {
  }

  /** One round of the search: fills at most one entry with x. */
  method TryElement(F: Field, k: nat, x: nat, tab: array<nat>, done: array<bool>, remaining: nat) returns (left: nat)
    requires F.Ok() && F.m > 1 && F.El(k) && x <= F.N() && tab.Length == done.Length == F.m
    requires remaining == Unset(done[..]) && forall i: nat :: i < F.m && done[i] ==> EntryFits(F, tab[i], i, k)
    requires forall z: nat :: z < x ==> Tried(F, done[..], k, z)
    modifies tab, done
    ensures left == Unset(done[..]) && forall i: nat :: i < F.m && done[i] ==> EntryFits(F, tab[i], i, k)
    ensures forall z: nat :: z <= x ==> Tried(F, done[..], k, z)
  {
    hide F.Ok, Artin, A, Pow2, Xor, GfSqr, Trace, EntryFits, Tried, Handled;
    left := remaining;
    InRange(F, x);
    ArtinDef(F, x);
    PairTried(F, done[..], k, x);
    var y: nat := Xor(GfSqr(F, x), x);
    ghost var before := done[..];
    var i := 0;
    while i < 2
      invariant 0 <= i <= 2 && F.El(y) && left == remaining && done[..] == before
      invariant i == 0 ==> y == Artin(F, x)
      invariant i == 1 ==> y == Xor(Artin(F, x), k)
      invariant forall i: nat :: i < F.m && done[i] ==> EntryFits(F, tab[i], i, k)
      invariant i >= 1 ==> Handled(F, before, Artin(F, x))
      invariant i == 2 ==> Handled(F, before, Xor(Artin(F, x), k))
    {
      LogDefined(F, y);
      var r := F.log[y];
      if y != 0 && r < F.m && !done[r] {
        if x % 2 == 1 && i == 0 { HandledMarked(F, before, y); }
        EntryFound(F, x, y, k);
        UnsetMark(before, r);
        MarkHandles(F, before, y);
        ghost var after := before[r := true];
        forall z: nat | z < x ensures Tried(F, after, k, z) { StillHandled(F, before, r, k, z); }
        if i == 1 { HandledStays(F, before, r, Artin(F, x)); }
        TriedIntro(F, after, k, x);
        tab[r] := x;
        done[r] := true;
        left := left - 1;
        assert done[..] == after;
        return;
      }
      NotMarked(F, before, y);
      XorBound(y, k, F.m);
      y := Xor(y, k);
      i := i + 1;
    }
    TriedIntro(F, before, k, x);
  }

  lemma {:induction false} HandledStays(F: Field, done: seq<bool>, r: nat, y: nat)
    requires r < |done| && Handled(F, done, y)
    ensures Handled(F, done[r := true], y)
  {
  }

  /** build_deg2_base: it never fails. */
  method BuildDeg2Base(F: Field) returns (ok: bool, xi: seq<nat>, ghost ak: nat)
    requires F.Ok() && F.m > 1
    ensures ok && BaseOk(F, xi, ak)
  {
    hide F.Ok, Artin, A, Pow2, Xor, GfSqr, Trace, EntryFits, Tried, Handled;
    var k := FindTraceOne(F);
    ak := k;
    var tab := new nat[F.m](_ => 0);
    var done := new bool[F.m](_ => false);
    var remaining := F.m;
    FieldShape(F);
    UnsetAll(F.m, done[..]);
    var x := 0;
    while x <= F.N() && remaining > 0
      invariant 0 <= x <= F.N() + 1 && remaining == Unset(done[..])
      invariant forall i: nat :: i < F.m && done[i] ==> EntryFits(F, tab[i], i, k)
      invariant forall z: nat :: z < x ==> Tried(F, done[..], k, z)
    {
      remaining := TryElement(F, k, x, tab, done, remaining);
      x := x + 1;
    }
    ok := remaining == 0;
    xi := tab[..];
    if remaining > 0 {
      forall i | 0 <= i < F.m ensures done[i] {
        forall z: nat | F.El(z) ensures Tried(F, done[..], k, z) { InRange(F, z); }
        AllDone(F, done[..], k, i);
      }
      UnsetDone(done[..]);
    }
    forall i: nat | i < F.m ensures EntryFits(F, xi[i], i, ak) { UnsetNone(done[..], i); }
  }

  lemma {:induction false} InRange(F: Field, x: nat)
    requires F.Ok() && x <= F.N()
    ensures F.El(x)
  {
    PowEntry(F, 0);
  }

  lemma {:induction false} LogDefined(F: Field, y: nat)
    requires F.Ok() && F.El(y)
    ensures y < |F.log|
  {
    PowEntry(F, 0);
  }

  lemma {:induction false} ArtinDef(F: Field, x: nat)
    requires F.Ok() && F.El(x)
    ensures Artin(F, x) == Xor(GfSqr(F, x), x)
  {
  }

  // ----- solving z^2 + z = u

  /** r solves z^2 + z = u up to ak, once the bits in v have been dealt with. */
  ghost predicate Partly(F: Field, u: nat, ak: nat, r: nat, v: nat)
    requires F.Ok()
  {
    F.El(r) && (Xor(Artin(F, r), v) == u || Xor(Artin(F, r), v) == Xor(u, ak))
  }

  lemma {:induction false} AddBit(F: Field, xi: seq<nat>, ak: nat, u: nat, r: nat, v: nat, i: nat)
    requires F.Ok() && BaseOk(F, xi, ak) && Partly(F, u, ak, r, v) && i < F.m
    ensures i < |xi| && Partly(F, u, ak, Xor(r, xi[i]), Xor(v, Pow2(i)))
  {
    hide F.Ok, Artin, A, Pow2, Xor, Trace;
    assert EntryFits(F, xi[i], i, ak);
    ABit(F, i);
    ArtinAdd(F, r, xi[i]);
    var a, b, p := Artin(F, r), Artin(F, xi[i]), Pow2(i);
    XorSwap4(a, b, v, p);
    if b == p {
      XorSelf(p);
      XorZero(Xor(a, v));
    } else {
      XorComm(p, ak);
      XorSolve(ak, p);
      XorSolve(u, ak);
    }
  }

  /** If u = z^2 + z for some z, a solution up to ak is a solution. */
  lemma {:induction false} PartlyIsSolution(F: Field, xi: seq<nat>, ak: nat, u: nat, r: nat, z: nat)
    requires F.Ok() && BaseOk(F, xi, ak) && Partly(F, u, ak, r, 0) && F.El(z) && Artin(F, z) == u
    ensures Artin(F, r) == u
  {
    hide F.Ok, Artin, Pow2, Xor, Trace, EntryFits;
    XorZero(Artin(F, r));
    if Artin(F, r) == Xor(u, ak) {
      ArtinAdd(F, r, z);
      TraceOfArtin(F, Xor(r, z));
      XorComm(u, ak);
      XorSolve(ak, u);
      XorZero(u);
    }
  }

  method SolveArtin(F: Field, xi: seq<nat>, ghost ak: nat, u: nat) returns (r: nat)
    requires F.Ok() && BaseOk(F, xi, ak) && F.El(u)
    ensures F.El(r) && ((exists z: nat :: F.El(z) && Artin(F, z) == u) ==> Artin(F, r) == u)
  {
    hide F.Ok, Artin, Pow2, Xor, Trace, EntryFits, Deg, Partly;
    r := 0;
    var v: nat := u;
    PartlyStart(F, u, ak);
    while v != 0
      invariant F.El(v) && F.El(r) && Partly(F, u, ak, r, v)
      decreases v
    {
      var i := Deg(v);
      if i >= F.m { Pow2Mono(F.m, i); }
      AddBit(F, xi, ak, u, r, v, i);
      ClearTop(v);
      r := Xor(r, xi[i]);
      v := Xor(v, Pow2(i));
      PartlyRange(F, u, ak, r, v);
    }
    if exists z: nat :: F.El(z) && Artin(F, z) == u {
      var z: nat :| F.El(z) && Artin(F, z) == u;
      PartlyIsSolution(F, xi, ak, u, r, z);
    }
  }

  lemma {:induction false} PartlyRange(F: Field, u: nat, ak: nat, r: nat, v: nat)
    requires F.Ok() && Partly(F, u, ak, r, v)
    ensures F.El(r)
  {
  }

  lemma {:induction false} PartlyStart(F: Field, u: nat, ak: nat)
    requires F.Ok()
    ensures F.El(0) && Partly(F, u, ak, 0, u)
  {
    hide F.Ok, Pow2, Xor, GfSqr;
    FieldShape(F);
    SqrIsMul(F, 0);
    MulZero(F, 0);
    XorZero(0);
    XorZero(u);
  }
}
