/** From syndromes to error locations. */
module ErrorLocations {
  import opened Gf2
  import opened GaloisField
  import opened FieldLaws
  import opened FieldPoly
  import opened PowerSeries
  import opened Newton
  import opened BerlekampMassey
  import opened Locator
  import opened LocatorUnique
  import opened Chien
  import opened TraceMap
  import opened DegreeTwo
  import opened LowRoots
  import opened EuclidChain
  import opened TraceFactor
  import opened RepeatedRoots

  /** How roots are found: by exhaustive search, or by degree and by factoring, with the base for degree 2. */
  datatype Finder = Exhaustive | ByDegree(xi: seq<nat>)

  ghost predicate FinderOk(F: Field, f: Finder)
    requires F.Ok()
  {
    f.ByDegree? ==> 5 <= F.m <= 15 && exists ak: nat :: BaseOk(F, f.xi, ak)
  }

  /** What finding all roots at positions below n takes: that they exist, or that all leaves of the factoring have
      theirs. */
  ghost predicate FindsAll(F: Field, f: Finder, c: seq<nat>, T: Factoring, n: nat)
    requires F.Ok() && IsPoly(F, c) && |c| >= 1
  {
    if f.Exhaustive? then SplitsBelow(F, c, |c| - 1, n) else AllBelow(F, c, T, n)
  }

  /** find_poly_roots in either build: a complete set of roots if there is one. */
  method FindPolyRoots(F: Field, f: Finder, c: seq<nat>, n: nat) returns (roots: seq<nat>, ghost T: Factoring)
    requires F.Ok() && F.m > 1 && Trimmed(F, c) && |c| > 1 && 0 < n <= F.N() && FinderOk(F, f)
    ensures f.ByDegree? ==> Fits(F, 1, c, T)
    ensures |roots| + 1 == |c| && Within(roots, n) <==> FindsAll(F, f, c, T, n)
    ensures SplitsBelow(F, c, |c| - 1, n) ==> AllRoots(F, c, |c| - 1, n, roots)
    ensures f.Exhaustive? && |roots| + 1 == |c| ==> AllRoots(F, c, |c| - 1, n, roots)
    ensures f.ByDegree? && Splits(F, c, |c| - 1) ==> AllRoots(F, c, |c| - 1, F.N(), roots)
    ensures f.ByDegree? && |roots| + 1 == |c| ==> (AllRoots(F, c, |c| - 1, F.N(), roots) <==> Exact(F, T))
  {
    hide F.Ok, BaseOk, AllRoots, Fits, AllBelow, AllSolved, ListedBy, Finds, Exact;
    T := Leaf;
    var d := |c| - 1;
    if f.Exhaustive? {
      roots := ChienSearch(F, c, d, n);
      if roots != [] { AllRootsLength(F, c, d, n, roots); }
    } else {
      ghost var ak :| BaseOk(F, f.xi, ak);
      roots, T := FindRoots(F, f.xi, ak, 1, c);
      FinderRight(F, c, T, roots);
      FoundWithin(F, c, T, roots, n);
    }
  }

  lemma {:induction false} FoundWithin(F: Field, c: seq<nat>, T: Factoring, roots: seq<nat>, n: nat)
    requires F.Ok() && Trimmed(F, c) && |c| > 1 && n <= F.N() && Fits(F, 1, c, T)
    requires |roots| + 1 == |c| <==> AllSolved(F, c, T)
    requires |roots| + 1 == |c| ==> ListedBy(F, c, T, roots)
    requires Splits(F, c, |c| - 1) ==> AllRoots(F, c, |c| - 1, F.N(), roots)
    ensures |roots| + 1 == |c| && Within(roots, n) <==> AllBelow(F, c, T, n)
    ensures SplitsBelow(F, c, |c| - 1, n) ==> AllRoots(F, c, |c| - 1, n, roots)
  {
    hide F.Ok, IsRoot, Fits, AllBelow, AllSolved, ListedBy;
    if AllBelow(F, c, T, n) { BelowSolved(F, c, T, n); }
    if |roots| + 1 == |c| {
      ListedBelow(F, 1, c, T, roots, n);
      assert Within(roots, n) <==> forall p :: p in roots ==> p < n by { WithinIs(roots, n); }
    }
    if SplitsBelow(F, c, |c| - 1, n) {
      var ps: seq<nat> :| AllRoots(F, c, |c| - 1, n, ps);
      assert AllRoots(F, c, |c| - 1, F.N(), ps);
      forall i | 0 <= i < |roots| ensures roots[i] < n { SamePositions(F, c, roots, ps, roots[i]); }
    }
  }

  lemma {:induction false} WithinIs(ps: seq<nat>, n: nat)
    ensures Within(ps, n) <==> forall p :: p in ps ==> p < n
  {
    if forall p :: p in ps ==> p < n {
      forall i | 0 <= i < |ps| ensures ps[i] < n { assert ps[i] in ps; }
    }
  }

  lemma {:induction false} AllRootsLength(F: Field, c: seq<nat>, d: nat, k: nat, ps: seq<nat>)
    requires F.Ok() && IsPoly(F, c) && AllRoots(F, c, d, k, ps)
    ensures |ps| == d && Positions(F, ps) && forall i :: 0 <= i < |ps| ==> ps[i] < k
  {
    hide IsRoot;
  }

  // ----- which errors explain the syndromes

  ghost predicate Within(ps: seq<nat>, n: nat) {
    forall i :: 0 <= i < |ps| ==> ps[i] < n
  }

  /** At most t errors, at distinct positions ps, that have these syndromes. */
  ghost predicate Explains(F: Field, t: nat, syn: seq<nat>, ps: seq<nat>)
    requires F.Ok() && |syn| == 2 * t
  {
    && Positions(F, ps) && |ps| <= t
    && forall k :: 0 <= k < 2 * t ==> syn[k] == PowerSum(F, ps, k + 1)
  }

  /** Syndromes of a binary polynomial: the even ones are squares. */
  ghost predicate Squares(F: Field, t: nat, syn: seq<nat>)
    requires F.Ok() && |syn| == 2 * t && IsPoly(F, syn)
  {
    forall k :: 0 <= k < t ==> syn[2 * k + 1] == GfSqr(F, syn[k])
  }

  lemma {:induction false} ExplainsSeries(F: Field, t: nat, syn: seq<nat>, ps: seq<nat>)
    requires F.Ok() && |syn| == 2 * t && Explains(F, t, syn, ps)
    ensures forall k: nat :: k < 2 * t ==> SynSer(syn)(k) == PowerSer(F, ps)(k)
  {
    hide F.Ok, PowerSum, PowerSer, SynSer, Positions;
    forall k: nat | k < 2 * t ensures SynSer(syn)(k) == PowerSer(F, ps)(k) {
      SynSerAt(syn, k);
      PowerSerAt(F, ps, k);
    }
  }

  lemma {:induction false} ExplainsSolves(F: Field, t: nat, syn: seq<nat>, ps: seq<nat>)
    requires F.Ok() && |syn| == 2 * t && IsPoly(F, syn) && Explains(F, t, syn, ps)
    ensures Solves(F, SynSer(syn), LocSer(F, ps), |ps|, 2 * t)
  {
    hide F.Ok, PowerSum, PowerSer, SynSer, Positions, LocSer, Solves;
    SynSerIsSer(F, syn);
    ExplainsSeries(F, t, syn, ps);
    SolvesTransfer(F, SynSer(syn), ps, 2 * t);
  }

  /** The squares of power sums are power sums. */
  lemma {:induction false} PowerSumSqr(F: Field, ps: seq<nat>, n: nat)
    requires F.Ok()
    ensures PowerSum(F, ps, 2 * n) == GfSqr(F, PowerSum(F, ps, n))
    decreases |ps|
  {
    hide F.Ok, PowerSum, GfSqr, A, Xor, Pow2;
    if ps == [] {
      PowerSumNone(F, n);
      PowerSumNone(F, 2 * n);
      FieldShape(F);
      SqrIsMul(F, 0);
      MulZero(F, 0);
    } else {
      var k := |ps| - 1;
      PowerSumStep(F, ps, n);
      PowerSumStep(F, ps, 2 * n);
      PowerSumSqr(F, ps[..k], n);
      SqrXor(F, PowerSum(F, ps[..k], n), A(F, ps[k] * n));
      SqrPower(F, ps[k] * n);
      assert ps[k] * (2 * n) == 2 * (ps[k] * n);
    }
  }

  lemma {:induction false} PowerSumNone(F: Field, n: nat)
    requires F.Ok()
    ensures PowerSum(F, [], n) == 0
  {
  }

  /** If the locator of ps satisfies the identities and even syndromes are squares, ps has the given
      syndromes. */
  lemma {:induction false} SolutionExplains(F: Field, t: nat, syn: seq<nat>, ps: seq<nat>, n: nat)
    requires F.Ok() && |syn| == 2 * t && IsPoly(F, syn) && Squares(F, t, syn)
    requires Solves(F, SynSer(syn), LocSer(F, ps), |ps|, 2 * t) && n <= 2 * t
    ensures forall k: nat :: k <= n ==> SynSer(syn)(k) == PowerSer(F, ps)(k)
    decreases n
  {
    hide F.Ok, PowerSum, PowerSer, SynSer, GfSqr, LocSer, Conv, Xor, Pow2, GfMul;
    var u, p := SynSer(syn), PowerSer(F, ps);
    SynSerIsSer(F, syn);
    SynSerAt(syn, n);
    PowerSerAt(F, ps, n);
    if n > 0 {
      SolutionExplains(F, t, syn, ps, n - 1);
      if n % 2 == 0 {
        var h := n / 2;
        SynSerAt(syn, h);
        PowerSerAt(F, ps, h);
        PowerSumSqr(F, ps, h);
        assert syn[2 * (h - 1) + 1] == GfSqr(F, syn[h - 1]);
      } else {
        OddAgrees(F, u, p, LocSer(F, ps), |ps|, ps, n, 2 * t);
      }
    }
  }

  lemma {:induction false} OddAgrees(F: Field, u: Ser, p: Ser, s: Ser, d: nat, ps: seq<nat>, n: nat, m: nat)
    requires F.Ok() && IsSer(F, p) && Solves(F, u, s, d, m) && n < m && n % 2 == 1
    requires p == PowerSer(F, ps) && s == LocSer(F, ps)
    requires forall k: nat :: k < n ==> u(k) == p(k)
    ensures u(n) == p(n)
  {
    hide F.Ok, PowerSer, LocSer, Conv, Xor, Pow2, GfMul, Sum;
    LocatorIdentity(F, ps, n);
    SumIsSer(F, u, p);
    SumAt(F, u, p);
    ConvAddLeft(F, u, p, s, n);
    XorSelf(0);
    forall k: nat | k < n ensures Sum(u, p)(k) == 0 { XorSelf(p(k)); }
    ConvLeading(F, Sum(u, p), s, n);
    MulOne(F, Sum(u, p)(n));
    XorEqualZero(u(n), p(n));
  }

  lemma {:induction false} SeriesExplains(F: Field, t: nat, syn: seq<nat>, ps: seq<nat>)
    requires F.Ok() && |syn| == 2 * t && IsPoly(F, syn) && Squares(F, t, syn)
    requires Solves(F, SynSer(syn), LocSer(F, ps), |ps|, 2 * t) && Positions(F, ps) && |ps| <= t
    ensures Explains(F, t, syn, ps)
  {
    hide F.Ok, PowerSum, PowerSer, SynSer, LocSer, Solves, Positions, Squares;
    SolutionExplains(F, t, syn, ps, 2 * t);
    forall k | 0 <= k < 2 * t ensures syn[k] == PowerSum(F, ps, k + 1) {
      SynSerAt(syn, k + 1);
      PowerSerAt(F, ps, k + 1);
      assert SynSer(syn)(k + 1) == PowerSer(F, ps)(k + 1);
    }
  }

  lemma {:induction false} SameElements(a: seq<nat>, b: seq<nat>)
    requires forall i, j :: 0 <= i < j < |a| ==> a[i] != a[j]
    requires forall i, j :: 0 <= i < j < |b| ==> b[i] != b[j]
    requires forall x :: x in a <==> x in b
    ensures multiset(a) == multiset(b)
  {
    forall x ensures multiset(a)[x] == multiset(b)[x] {
      AtMostOnce(a, x);
      AtMostOnce(b, x);
    }
  }

  lemma {:induction false} AtMostOnce(a: seq<nat>, x: nat)
    requires forall i, j :: 0 <= i < j < |a| ==> a[i] != a[j]
    ensures multiset(a)[x] == if x in a then 1 else 0
  {
    if a != [] {
      var n := |a| - 1;
      assert a == a[..n] + [a[n]];
      AtMostOnce(a[..n], x);
    }
  }

  /** At most one set of at most t errors has given syndromes: the minimum distance of the code. */
  lemma {:induction false} ExplanationUnique(F: Field, t: nat, syn: seq<nat>, ps: seq<nat>, qs: seq<nat>)
    requires F.Ok() && |syn| == 2 * t && IsPoly(F, syn) && Explains(F, t, syn, ps) && Explains(F, t, syn, qs)
    ensures multiset(ps) == multiset(qs)
  {
    hide F.Ok, PowerSum, SynSer, LocSer, Solves;
    SynSerIsSer(F, syn);
    ExplainsSolves(F, t, syn, ps);
    ExplainsSolves(F, t, syn, qs);
    var u := SynSer(syn);
    if |ps| <= |qs| {
      ShortSolutionIsLocator(F, u, LocSer(F, ps), |ps|, qs, 2 * t);
      SameRoots(F, ps, qs);
    } else {
      ShortSolutionIsLocator(F, u, LocSer(F, qs), |qs|, ps, 2 * t);
      SameRoots(F, qs, ps);
    }
  }

  lemma {:induction false} SameRoots(F: Field, ps: seq<nat>, qs: seq<nat>)
    requires F.Ok() && Positions(F, ps) && Positions(F, qs) && |ps| == |qs|
    requires forall i: nat :: LocSer(F, ps)(i) == LocSer(F, qs)(i)
    ensures multiset(ps) == multiset(qs)
  {
    hide F.Ok, LocSer, EvalSer, Inverse, Pow2;
    forall x ensures x in ps <==> x in qs {
      if x in ps || x in qs {
        LocRoots(F, ps, x);
        LocRoots(F, qs, x);
        EvalSerCong(F, LocSer(F, ps), LocSer(F, qs), |ps|, Inverse(F, x));
      }
    }
    SameElements(ps, qs);
  }

  lemma {:induction false} ExplainsSame(F: Field, t: nat, syn: seq<nat>, ps: seq<nat>, qs: seq<nat>)
    requires F.Ok() && |syn| == 2 * t && Explains(F, t, syn, qs) && multiset(ps) == multiset(qs)
    ensures Explains(F, t, syn, ps)
  {
    hide F.Ok, Xor, A, PowerSum, Pow2;
    assert |ps| == |multiset(ps)| == |qs|;
    forall i | 0 <= i < |ps| ensures ps[i] < F.N() {
      assert ps[i] in multiset(ps);
      var j :| 0 <= j < |qs| && qs[j] == ps[i];
    }
    forall i, j | 0 <= i < j < |ps| ensures ps[i] != ps[j] {
      if ps[i] == ps[j] { TwiceIn(ps, i, j); OnceIn(qs, ps[i]); }
    }
    forall k | 0 <= k < 2 * t ensures syn[k] == PowerSum(F, ps, k + 1) { PowerSumPermute(F, ps, qs, k + 1); }
  }

  lemma {:induction false} TwiceIn(s: seq<nat>, i: nat, j: nat)
    requires i < j < |s| && s[i] == s[j]
    ensures multiset(s)[s[i]] >= 2
  {
    assert s == s[..j] + s[j..];
    assert s[i] in multiset(s[..j]) by { assert s[..j][i] == s[i]; }
    assert s[i] in multiset(s[j..]) by { assert s[j..][0] == s[j]; }
  }

  lemma {:induction false} OnceIn(s: seq<nat>, x: nat)
    requires forall i, j :: 0 <= i < j < |s| ==> s[i] != s[j]
    ensures multiset(s)[x] <= 1
  {
    if s != [] {
      var n := |s| - 1;
      assert s == s[..n] + [s[n]];
      OnceIn(s[..n], x);
      if s[n] == x { assert x !in s[..n]; }
    }
  }

  ghost function Without(s: seq<nat>, j: nat): (r: seq<nat>)
    requires j < |s|
    ensures |r| == |s| - 1
  {
    s[..j] + s[j + 1..]
  }

  lemma {:induction false} TakeOut(s: seq<nat>, j: nat)
    requires j < |s|
    ensures multiset(s) == multiset(Without(s, j)) + multiset{s[j]}
    ensures multiset(Without(s, j)) == multiset(s) - multiset{s[j]}
    ensures forall n: nat :: Within(s, n) ==> Within(Without(s, j), n)
  {
    assert s == s[..j] + [s[j]] + s[j + 1..];
  }

  /** Taking one position out of a power sum. */
  lemma {:induction false} PowerSumTake(F: Field, qs: seq<nat>, j: nat, n: nat)
    requires F.Ok() && j < |qs|
    ensures PowerSum(F, qs, n) == Xor(PowerSum(F, Without(qs, j), n), A(F, qs[j] * n))
    decreases |qs|
  {
    hide F.Ok, Xor, A, PowerSum, Pow2;
    var k := |qs| - 1;
    PowerSumStep(F, qs, n);
    if j == k {
      assert Without(qs, j) == qs[..k];
    } else {
      var rest := Without(qs, j);
      PowerSumTake(F, qs[..k], j, n);
      PowerSumStep(F, rest, n);
      var less := rest[..k - 1];
      assert less == Without(qs[..k], j);
      var u, v, w := PowerSum(F, less, n), A(F, qs[j] * n), A(F, qs[k] * n);
      XorAssoc(u, v, w);
      XorComm(v, w);
      XorAssoc(u, w, v);
    }
  }

  lemma {:induction false} PowerSumPermute(F: Field, ps: seq<nat>, qs: seq<nat>, n: nat)
    requires F.Ok() && multiset(ps) == multiset(qs)
    ensures PowerSum(F, ps, n) == PowerSum(F, qs, n)
    decreases |ps|
  {
    hide F.Ok, Xor, A, PowerSum, Pow2, Without;
    assert |ps| == |multiset(ps)| == |multiset(qs)| == |qs|;
    if ps != [] {
      var k := |ps| - 1;
      TakeOut(ps, k);
      assert ps[k] in multiset(qs);
      var j :| 0 <= j < |qs| && qs[j] == ps[k];
      TakeOut(qs, j);
      PowerSumPermute(F, Without(ps, k), Without(qs, j), n);
      PowerSumTake(F, qs, j, n);
      PowerSumTake(F, ps, k, n);
    }
  }

  // ----- the decoder after the syndromes

  /** The result of decoding: error locations in the caller's numbering, or one of two error codes. */
  datatype Outcome = Located(errloc: seq<nat>) | BadMessage | Invalid

  /** Bits are numbered from the first bit of the data; without bit swapping each byte is numbered from
      its lowest bit. */
  function BitOrder(swap: bool, i: nat): (j: nat)
    ensures j / 8 == i / 8
  {
    if swap then i else i / 8 * 8 + (7 - i % 8)
  }

  lemma {:induction false} BitOrderTwice(swap: bool, i: nat)
    ensures BitOrder(swap, BitOrder(swap, i)) == i
  {
  }

  function LocationOf(swap: bool, nbits: nat, p: nat): nat
    requires p < nbits
  {
    BitOrder(swap, nbits - 1 - p)
  }

  ghost function Locations(swap: bool, nbits: nat, ps: seq<nat>): (s: seq<nat>)
    requires Within(ps, nbits)
    ensures |s| == |ps|
  {
    seq(|ps|, i requires 0 <= i < |ps| => LocationOf(swap, nbits, ps[i]))
  }

  /** The outcome names errors that have the given syndromes. */
  ghost predicate Names(F: Field, t: nat, syn: seq<nat>, swap: bool, nbits: nat, errloc: seq<nat>, ps: seq<nat>)
    requires F.Ok() && |syn| == 2 * t
  {
    Explains(F, t, syn, ps) && Within(ps, nbits) && errloc == Locations(swap, nbits, ps)
  }

  /** The leading coefficient of a shortest solution is not zero. */
  lemma {:induction false} LeadingNonzero(F: Field, u: Ser, c: seq<nat>, d: nat, n: nat)
    requires F.Ok() && IsPoly(F, c) && 0 < d < |c| && Solves(F, u, SerTo(c, d), d, n) && Minimal(F, u, d, n)
    ensures c[d] != 0
  {
    hide F.Ok, Conv, Pow2, Solves, SerTo;
    ShorterSolves(F, u, c, d, n);
  }

  lemma {:induction false} ShorterSolves(F: Field, u: Ser, c: seq<nat>, d: nat, n: nat)
    requires F.Ok() && IsPoly(F, c) && 0 < d < |c| && Solves(F, u, SerTo(c, d), d, n)
    ensures c[d] == 0 ==> Solves(F, u, SerTo(c, d), d - 1, n)
  {
    hide F.Ok, Conv, Pow2;
  }

  lemma {:induction false} NoneShort(F: Field, t: nat, syn: seq<nat>, ps: seq<nat>)
    requires F.Ok() && |syn| == 2 * t && IsPoly(F, syn) && Minimal(F, SynSer(syn), t + 1, 2 * t)
    ensures !Explains(F, t, syn, ps)
  {
    hide F.Ok, PowerSum, SynSer, LocSer, Solves, Positions;
    if Explains(F, t, syn, ps) { ExplainsSolves(F, t, syn, ps); }
  }

  /** The computed locator is the locator of any errors that explain the syndromes. */
  lemma {:induction false} ComputedLocator(F: Field, t: nat, syn: seq<nat>, c: seq<nat>, d: nat, ps: seq<nat>)
    requires F.Ok() && |syn| == 2 * t && IsPoly(F, syn) && IsPoly(F, c) && d < |c| && Explains(F, t, syn, ps)
    requires Solves(F, SynSer(syn), SerTo(c, d), d, 2 * t) && Minimal(F, SynSer(syn), d, 2 * t)
    ensures d == |ps| && forall q: nat :: q < F.N() ==> (IsRoot(F, c, d, q) <==> q in ps)
  {
    hide F.Ok, PowerSum, PowerSer, SynSer, LocSer, Solves, Minimal, SerTo, EvalSer, Inverse;
    SynSerIsSer(F, syn);
    ExplainsSeries(F, t, syn, ps);
    MinimalIsLocator(F, SynSer(syn), SerTo(c, d), d, ps, t);
    SerToIsSer(F, c, d);
    forall q: nat | q < F.N() ensures IsRoot(F, c, d, q) <==> q in ps {
      LocRoots(F, ps, q);
      EvalSerCong(F, SerTo(c, d), LocSer(F, ps), d, Inverse(F, q));
    }
  }

  lemma {:induction false} ExplainsAllRoots(F: Field, t: nat, syn: seq<nat>, c: seq<nat>, d: nat, ps: seq<nat>, k: nat)
    requires F.Ok() && |syn| == 2 * t && IsPoly(F, syn) && IsPoly(F, c) && d < |c|
    requires Explains(F, t, syn, ps) && Within(ps, k)
    requires Solves(F, SynSer(syn), SerTo(c, d), d, 2 * t) && Minimal(F, SynSer(syn), d, 2 * t)
    ensures AllRoots(F, c, d, k, ps)
  {
    hide F.Ok, PowerSum, SynSer, Solves, Minimal, SerTo, IsRoot;
    ComputedLocator(F, t, syn, c, d, ps);
  }

  lemma {:induction false} RootsAreLocator(F: Field, c: seq<nat>, d: nat, k: nat, ps: seq<nat>)
    requires F.Ok() && IsPoly(F, c) && d < |c| && c[0] == 1 && AllRoots(F, c, d, k, ps)
    ensures forall i: nat :: SerTo(c, d)(i) == LocSer(F, ps)(i)
  {
    hide F.Ok, LocSer, EvalSer, Inverse, SerTo;
    SerToIsSer(F, c, d);
    SerToAt(c, d, 0);
    forall i | 0 <= i < |ps| ensures EvalSer(F, SerTo(c, d), |ps|, Inverse(F, ps[i])) == 0 {
      assert IsRoot(F, c, d, ps[i]);
    }
    RootsDetermine(F, SerTo(c, d), ps);
  }

  lemma {:induction false} SolvesCong(F: Field, u: Ser, s: Ser, s': Ser, d: nat, n: nat)
    requires F.Ok() && Solves(F, u, s, d, n) && IsSer(F, s') && forall i: nat :: s(i) == s'(i)
    ensures Solves(F, u, s', d, n)
  {
    hide F.Ok, Conv, Pow2;
    forall k: nat | k < n && k % 2 == 1 ensures Conv(F, u, s', k) == 0 { ConvCong(F, u, u, s, s', k); }
  }

  /** A complete set of roots of the computed locator explains the syndromes. */
  lemma {:induction false} RootsExplain(F: Field, t: nat, syn: seq<nat>, c: seq<nat>, d: nat, k: nat, ps: seq<nat>)
    requires F.Ok() && |syn| == 2 * t && IsPoly(F, syn) && Squares(F, t, syn) && IsPoly(F, c) && d < |c| && d <= t
    requires Solves(F, SynSer(syn), SerTo(c, d), d, 2 * t) && AllRoots(F, c, d, k, ps)
    ensures Explains(F, t, syn, ps)
  {
    hide F.Ok, LocSer, SynSer, Solves, SerTo, IsRoot, Squares;
    SolvesSer(F, SynSer(syn), SerTo(c, d), d, 2 * t);
    SerToAt(c, d, 0);
    RootsAreLocator(F, c, d, k, ps);
    SolvesCong(F, SynSer(syn), SerTo(c, d), LocSer(F, ps), d, 2 * t);
    SeriesExplains(F, t, syn, ps);
  }

  lemma {:induction false} NoErrors(F: Field, t: nat, syn: seq<nat>, c: seq<nat>)
    requires F.Ok() && |syn| == 2 * t && IsPoly(F, syn) && Squares(F, t, syn) && IsPoly(F, c) && 0 < |c|
    requires Solves(F, SynSer(syn), SerTo(c, 0), 0, 2 * t)
    ensures Explains(F, t, syn, [])
  {
    hide F.Ok, SynSer, Solves, Squares, IsRoot;
    assert AllRoots(F, c, 0, 0, []);
    RootsExplain(F, t, syn, c, 0, 0, []);
  }

  /** Turns raw root positions into locations; fails if one lies outside the message. */
  method PostProcess(swap: bool, nbits: nat, roots: seq<nat>) returns (r: Outcome)
    ensures Within(roots, nbits) ==> r == Located(Locations(swap, nbits, roots))
    ensures !Within(roots, nbits) ==> r == BadMessage
  {
    var errloc: seq<nat> := [];
    var i := 0;
    while i < |roots|
      invariant 0 <= i <= |roots| && |errloc| == i && Within(roots[..i], nbits)
      invariant errloc == Locations(swap, nbits, roots[..i])
    {
      if roots[i] >= nbits { return BadMessage; }
      var e := nbits - 1 - roots[i];
      e := if swap then e else e / 8 * 8 + (7 - e % 8);
      errloc := errloc + [e];
      i := i + 1;
    }
    assert roots[..i] == roots;
    r := Located(errloc);
  }

  /** The computed locator, as Berlekamp-Massey leaves it in c[0..d]. */
  ghost predicate IsShortest(F: Field, t: nat, syn: seq<nat>, c: seq<nat>, d: nat)
    requires F.Ok()
  {
    && IsPoly(F, c) && d <= t && d < |c|
    && Solves(F, SynSer(syn), SerTo(c, d), d, 2 * t) && Minimal(F, SynSer(syn), d, 2 * t)
  }

  /** loc is the locator computed from the syndromes: a shortest solution, without leading zeros. */
  ghost predicate IsLocator(F: Field, t: nat, syn: seq<nat>, loc: seq<nat>)
    requires F.Ok()
  {
    |loc| >= 1 && IsShortest(F, t, syn, loc, |loc| - 1)
  }

  /** A locator has as many roots as its degree if and only if all leaves of its factoring split and no division left
      a remainder. */
  lemma {:induction false} LocatorSplits(F: Field, t: nat, syn: seq<nat>, loc: seq<nat>, T: Factoring)
    requires F.Ok() && F.m > 1 && IsLocator(F, t, syn, loc) && Fits(F, 1, loc, T)
    ensures Splits(F, loc, |loc| - 1) <==> AllSolved(F, loc, T) && Divided(T)
  {
    hide F.Ok, Solves, Minimal, SynSer, SerTo, Fits, AllSolved, Divided, Splits, SquareFree;
    LocatorTop(F, t, syn, loc);
    ShortestSquareFree(F, SynSer(syn), loc, 2 * t);
    SplitsIffDivided(F, loc, T);
  }

  lemma {:induction false} LocatorTop(F: Field, t: nat, syn: seq<nat>, loc: seq<nat>)
    requires F.Ok() && IsLocator(F, t, syn, loc)
    ensures Trimmed(F, loc) && loc[|loc| - 1] != 0
  {
    hide F.Ok, Solves, Minimal, SynSer, SerTo;
    var d := |loc| - 1;
    SolvesSer(F, SynSer(syn), SerTo(loc, d), d, 2 * t);
    SerToAt(loc, d, 0);
    if d > 0 { LeadingNonzero(F, SynSer(syn), loc, d, 2 * t); }
  }

  /** What the outcome says about the errors that have the given syndromes. */
  ghost predicate Answers(F: Field, t: nat, syn: seq<nat>, swap: bool, nbits: nat, r: Outcome, ps: seq<nat>)
    requires F.Ok() && |syn| == 2 * t && IsPoly(F, syn)
  {
    && (r.Located? || r.BadMessage?)
    && (r.BadMessage? ==> forall qs: seq<nat> :: Explains(F, t, syn, qs) ==> !Within(qs, nbits))
    && (r.Located? ==> forall qs: seq<nat> :: Explains(F, t, syn, qs) ==>
          Within(ps, nbits) && multiset(ps) == multiset(qs) && r.errloc == Locations(swap, nbits, ps))
  }

  /** Locators of degree at most 4 are never divided, and split when the finder finds as many roots as the degree. */
  lemma {:induction false} LowNeverMisled(F: Field, nbits: nat, loc: seq<nat>, T: Factoring)
    requires F.Ok() && IsPoly(F, loc) && 1 <= |loc| <= 5 && nbits <= F.N() && Fits(F, 1, loc, T)
    requires AllBelow(F, loc, T, nbits)
    ensures Divided(T) && Splits(F, loc, |loc| - 1)
  {
    hide F.Ok, SplitsBelow, Splits;
    BelowSolved(F, loc, T, nbits);
  }

  /** Errors are located if some explanation exists in the message, and then exactly these. Locations that explain
      nothing are returned exactly when the default finder has divided the locator or a factor of it with a remainder
      and nevertheless found as many roots as the degree. */
  method LocateErrors(F: Field, t: nat, syn: seq<nat>, f: Finder, swap: bool, nbits: nat)
    returns (r: Outcome, ghost ps: seq<nat>, ghost loc: seq<nat>, ghost T: Factoring)
    requires F.Ok() && F.m > 1 && t > 0 && |syn| == 2 * t && IsPoly(F, syn) && FinderOk(F, f) && 0 < nbits <= F.N()
    ensures Answers(F, t, syn, swap, nbits, r, ps)
    ensures loc == [] ==> r.BadMessage? && Minimal(F, SynSer(syn), t + 1, 2 * t)
    ensures loc != [] ==> IsLocator(F, t, syn, loc) && (f.ByDegree? ==> Fits(F, 1, loc, T))
    ensures loc != [] ==> (r.Located? <==> FindsAll(F, f, loc, T, nbits))
    ensures r.Located? && Squares(F, t, syn) ==>
              (Names(F, t, syn, swap, nbits, r.errloc, ps) <==> f.Exhaustive? || Divided(T))
  {
    hide F.Ok, Solves, Minimal, SynSer, SerTo, Squares, Explains, Within, Locations, Fits, AllBelow, Splits,
         SplitsBelow, AllRoots, FinderOk, Divided;
    NotDivided();
    var elp := new nat[2 * t + 1];
    var deg := ComputeErrorLocatorPolynomial(F, t, syn, elp);
    ps, loc, T := [], [], Leaf;
    if deg < 0 {
      r := BadMessage;
      forall qs: seq<nat> ensures !Explains(F, t, syn, qs) { NoneShort(F, t, syn, qs); }
      return;
    }
    loc := elp[..deg + 1];
    assert loc == elp[..][..deg + 1];
    ShortestPrefix(F, t, syn, elp[..], deg);
    if deg == 0 {
      r := Located([]);
      ConstantLocator(F, f, nbits, loc);
      EmptyResult(F, t, syn, loc, swap, nbits);
    } else {
      LeadingNonzero(F, SynSer(syn), loc, deg, 2 * t);
      var roots;
      roots, T := FindPolyRoots(F, f, elp[..deg + 1], nbits);
      ps := roots;
      if |roots| != deg {
        r := BadMessage;
      } else {
        r := PostProcess(swap, nbits, roots);
      }
      RootsResult(F, f, t, syn, loc, T, nbits, roots);
    }
  }

  lemma {:induction false} NotDivided()
    ensures Divided(Leaf)
  {
  }

  lemma {:induction false} ShortestPrefix(F: Field, t: nat, syn: seq<nat>, c: seq<nat>, d: nat)
    requires F.Ok() && IsPoly(F, c) && d <= t && d < |c|
    requires Solves(F, SynSer(syn), SerTo(c, d), d, 2 * t) && Minimal(F, SynSer(syn), d, 2 * t)
    ensures IsLocator(F, t, syn, c[..d + 1])
  {
    hide F.Ok, Solves, Minimal, SynSer, SerTo;
    var p := c[..d + 1];
    SerToIsSer(F, p, d);
    forall i: nat ensures SerTo(c, d)(i) == SerTo(p, d)(i) {
      SerToAt(c, d, i);
      SerToAt(p, d, i);
    }
    SolvesCong(F, SynSer(syn), SerTo(c, d), SerTo(p, d), d, 2 * t);
  }

  /** A constant locator has no roots to find. */
  lemma {:induction false} ConstantLocator(F: Field, f: Finder, n: nat, loc: seq<nat>)
    requires F.Ok() && IsPoly(F, loc) && |loc| == 1
    ensures Fits(F, 1, loc, Leaf) && FindsAll(F, f, loc, Leaf, n) && Splits(F, loc, 0)
  {
    hide F.Ok;
    assert AllRoots(F, loc, 0, n, []);
    assert AllRoots(F, loc, 0, F.N(), []);
  }

  lemma {:induction false} EmptyResult(F: Field, t: nat, syn: seq<nat>, c: seq<nat>, swap: bool, nbits: nat)
    requires F.Ok() && |syn| == 2 * t && IsPoly(F, syn) && IsShortest(F, t, syn, c, 0)
    ensures Within([], nbits) && [] == Locations(swap, nbits, [])
    ensures Squares(F, t, syn) ==> Explains(F, t, syn, [])
    ensures forall qs: seq<nat> :: Explains(F, t, syn, qs) ==> multiset(qs) == multiset([])
  {
    hide F.Ok, Solves, Minimal, SynSer, SerTo, Squares, IsRoot;
    if Squares(F, t, syn) { NoErrors(F, t, syn, c); }
    forall qs: seq<nat> | Explains(F, t, syn, qs) ensures multiset(qs) == multiset([]) {
      ComputedLocator(F, t, syn, c, 0, qs);
    }
  }

  lemma {:induction false} RootsResult(F: Field, f: Finder, t: nat, syn: seq<nat>, loc: seq<nat>, T: Factoring,
                                       nbits: nat, roots: seq<nat>)
    requires F.Ok() && F.m > 1 && |syn| == 2 * t && IsPoly(F, syn) && IsLocator(F, t, syn, loc) && nbits <= F.N()
    requires f.ByDegree? ==> Fits(F, 1, loc, T)
    requires |roots| + 1 == |loc| && Within(roots, nbits) <==> FindsAll(F, f, loc, T, nbits)
    requires SplitsBelow(F, loc, |loc| - 1, nbits) ==> AllRoots(F, loc, |loc| - 1, nbits, roots)
    requires f.Exhaustive? && |roots| + 1 == |loc| ==> AllRoots(F, loc, |loc| - 1, nbits, roots)
    requires f.ByDegree? && Splits(F, loc, |loc| - 1) ==> AllRoots(F, loc, |loc| - 1, F.N(), roots)
    ensures |roots| + 1 != |loc| || !Within(roots, nbits) ==> forall qs: seq<nat> :: Explains(F, t, syn, qs) ==>
              !Within(qs, nbits)
    ensures |roots| + 1 == |loc| && Within(roots, nbits) ==>
              forall qs: seq<nat> :: Explains(F, t, syn, qs) ==> multiset(roots) == multiset(qs)
    ensures |roots| + 1 == |loc| && Within(roots, nbits) && Squares(F, t, syn) ==>
              (Explains(F, t, syn, roots) <==> f.Exhaustive? || Divided(T))
  {
    hide F.Ok, Solves, Minimal, SynSer, SerTo, Squares, IsRoot, Fits, AllBelow, AllSolved, Divided;
    var d := |loc| - 1;
    forall qs: seq<nat> | Explains(F, t, syn, qs)
      ensures |roots| == d && Within(roots, nbits) ==> multiset(roots) == multiset(qs)
      ensures |roots| != d || !Within(roots, nbits) ==> !Within(qs, nbits)
    {
      ComputedLocator(F, t, syn, loc, d, qs);
      WithinN(F, t, syn, qs);
      ExplainsAllRoots(F, t, syn, loc, d, qs, F.N());
      if Within(qs, nbits) { ExplainsAllRoots(F, t, syn, loc, d, qs, nbits); }
      if |roots| == d && Within(roots, nbits) { SameRootSet(F, loc, d, F.N(), roots, qs); }
    }
    if |roots| == d && Within(roots, nbits) && Squares(F, t, syn) {
      if f.ByDegree? {
        LocatorSplits(F, t, syn, loc, T);
        BelowSolved(F, loc, T, nbits);
      }
      if Explains(F, t, syn, roots) {
        WithinN(F, t, syn, roots);
        ExplainsAllRoots(F, t, syn, loc, d, roots, F.N());
      } else if f.Exhaustive? {
        RootsExplain(F, t, syn, loc, d, nbits, roots);
      } else if Divided(T) {
        RootsExplain(F, t, syn, loc, d, F.N(), roots);
      }
    }
  }

  lemma {:induction false} WithinN(F: Field, t: nat, syn: seq<nat>, qs: seq<nat>)
    requires F.Ok() && |syn| == 2 * t && Explains(F, t, syn, qs)
    ensures Within(qs, F.N())
  {
  }

  lemma {:induction false} SameRootSet(F: Field, c: seq<nat>, d: nat, k: nat, ps: seq<nat>, qs: seq<nat>)
    requires F.Ok() && IsPoly(F, c) && AllRoots(F, c, d, k, ps) && Positions(F, qs) && |qs| == d
    requires forall q: nat :: q < F.N() ==> (IsRoot(F, c, d, q) <==> q in qs)
    ensures multiset(ps) == multiset(qs) && forall i :: 0 <= i < |ps| ==> ps[i] in qs
  {
    hide F.Ok, IsRoot, IsPoly;
    forall x | x in qs ensures x in ps {
      if x !in ps {
        var i :| 0 <= i < |qs| && qs[i] == x;
        var rest := qs[..i] + qs[i + 1..];
        forall j | 0 <= j < |ps| ensures ps[j] in rest {
          var l :| 0 <= l < |qs| && qs[l] == ps[j];
          assert rest[if l < i then l else l - 1] == ps[j];
        }
        Pigeons(ps, rest);
      }
    }
    SameElements(ps, qs);
  }
}
