/** Exhaustive search for the roots of a polynomial, over its monic logarithmic representation. */
module Chien {
  import opened Gf2
  import opened GaloisField
  import opened FieldLaws
  import opened FieldPoly
  import opened PowerSeries
  import opened BerlekampMassey
  import opened Locator
  import opened LocatorUnique

  // ----- monic representation by logarithms

  /** rep holds the logarithms of the coefficients of c divided by the leading one, -1 for zero. */
  ghost predicate IsLogRep(F: Field, c: seq<nat>, d: nat, rep: seq<int>)
    requires F.Ok() && IsPoly(F, c) && d < |c| && c[d] != 0
  {
    && |rep| == d
    && forall i: nat :: i < d ==> RepAt(F, c[i], c[d], rep[i])
  }

  ghost predicate RepAt(F: Field, x: nat, lead: nat, r: int)
    requires F.Ok() && F.El(x) && F.El(lead) && lead != 0
  {
    if x == 0 then r == -1 else 0 <= r < F.N() && A(F, r) == GfDiv(F, x, lead)
  }

  lemma {:induction false} LogOfQuotient(F: Field, x: nat, lead: nat)
    requires F.Ok() && F.El(x) && F.El(lead) && lead != 0 && x != 0
    ensures x < |F.log| && lead < |F.log| && F.log[lead] < F.N() && F.log[x] < F.N()
    ensures RepAt(F, x, lead, ModS(F.N(), F.log[x] + (F.N() - F.log[lead])))
  {
    hide F.Ok, A, Pow2, APow;
    LogEntry(F, x);
    LogEntry(F, lead);
    var v := F.log[x] + (F.N() - F.log[lead]);
    AModS(F, v);
    PowEntry(F, ModS(F.N(), v));
    ALookup(F, ModS(F.N(), v));
  }

  method LogRep(F: Field, c: seq<nat>, d: nat) returns (rep: seq<int>)
    requires F.Ok() && IsPoly(F, c) && d < |c| && c[d] != 0
    ensures IsLogRep(F, c, d, rep)
  {
    hide F.Ok, RepAt, Pow2;
    LogEntry(F, c[d]);
    var l := F.N() - F.log[c[d]];
    rep := [];
    for i := 0 to d
      invariant |rep| == i
      invariant forall j: nat :: j < i ==> RepAt(F, c[j], c[d], rep[j])
    {
      if c[i] != 0 {
        LogOfQuotient(F, c[i], c[d]);
        rep := rep + [ModS(F.N(), F.log[c[i]] + l)];
      } else {
        RepZero(F, c[d]);
        rep := rep + [-1];
      }
    }
  }

  lemma {:induction false} RepZero(F: Field, lead: nat)
    requires F.Ok() && F.El(lead) && lead != 0
    ensures F.El(0) && RepAt(F, 0, lead, -1)
  {
    hide F.Ok, Pow2;
    FieldShape(F);
  }

  // ----- evaluation, lowest coefficient first

  /** The coefficients divided by the leading one. */
  ghost function Monic(F: Field, c: seq<nat>, d: nat): (a: Ser)
    requires F.Ok() && IsPoly(F, c) && d < |c| && c[d] != 0
    ensures IsSer(F, a)
  {
    SerToIsSer(F, c, d);
    Times(F, GfInv(F, c[d]), SerTo(c, d))
  }

  lemma {:induction false} DivIsMulInv(F: Field, x: nat, y: nat)
    requires F.Ok() && F.El(x) && F.El(y) && y != 0
    ensures GfDiv(F, x, y) == GfMul(F, GfInv(F, y), x)
  {
    hide F.Ok, Pow2, GfMul, GfDiv, GfInv;
    var q, i := GfDiv(F, x, y), GfInv(F, y);
    DivMul(F, x, y);
    MulInverse(F, y);
    MulAssoc(F, q, y, i);
    MulOne(F, q);
    MulComm(F, x, i);
  }

  lemma {:induction false} MonicAt(F: Field, c: seq<nat>, d: nat, i: nat)
    requires F.Ok() && IsPoly(F, c) && d < |c| && c[d] != 0 && i <= d
    ensures F.El(c[i]) && Monic(F, c, d)(i) == GfDiv(F, c[i], c[d])
  {
    hide F.Ok, Pow2, GfMul, GfDiv, GfInv;
    SerToIsSer(F, c, d);
    DivIsMulInv(F, c[i], c[d]);
    TimesCoef(F, GfInv(F, c[d]), SerTo(c, d), i);
  }

  lemma {:induction false} MonicValue(F: Field, c: seq<nat>, d: nat, x: nat)
    requires F.Ok() && IsPoly(F, c) && d < |c| && c[d] != 0 && F.El(x)
    ensures IsSer(F, SerTo(c, d))
    ensures EvalSer(F, Monic(F, c, d), d, x) == 0 <==> EvalSer(F, SerTo(c, d), d, x) == 0
  {
    hide F.Ok, Pow2, GfMul, GfInv, EvalSer, SerTo;
    SerToIsSer(F, c, d);
    var k, s := GfInv(F, c[d]), SerTo(c, d);
    EvalSerTimes(F, k, s, d, x);
    MulInverse(F, c[d]);
    MulZero(F, c[d]);
    MulZero(F, k);
    var v := EvalSer(F, s, d, x);
    if v != 0 { MulNonzero(F, k, v); }
  }

  /** Taking the term of degree j off the value at a^i. */
  lemma {:induction false} EvalDrop(F: Field, a: Ser, d: nat, i: nat, j: nat)
    requires F.Ok() && IsSer(F, a) && j < d
    ensures F.El(a(j)) && IsSer(F, Drop(a, j)) && IsSer(F, Drop(a, j + 1))
    ensures GfMul(F, A(F, j * i), EvalSer(F, Drop(a, j), d - j, A(F, i)))
         == Xor(GfMul(F, A(F, j * i), a(j)),
                GfMul(F, A(F, (j + 1) * i), EvalSer(F, Drop(a, j + 1), d - j - 1, A(F, i))))
  {
    hide *;
    SerAt(F, a, j);
    DropAt(F, a, j);
    DropAt(F, a, j + 1);
    var x, y := A(F, i), A(F, j * i);
    EvalSerStep(F, Drop(a, j), d - j, x);
    EvalSerCong(F, Tail(Drop(a, j)), Drop(a, j + 1), d - j - 1, x);
    var v := EvalSer(F, Drop(a, j + 1), d - j - 1, x);
    MulDistrib(F, y, a(j), GfMul(F, x, v));
    MulAssoc(F, y, x, v);
    assert (j + 1) * i == j * i + i;
    MulPowers(F, j * i, i);
  }

  lemma {:induction false} EvalDropNone(F: Field, a: Ser, d: nat, i: nat)
    requires F.Ok() && IsSer(F, a)
    ensures IsSer(F, Drop(a, 0))
    ensures GfMul(F, A(F, 0), EvalSer(F, Drop(a, 0), d, A(F, i))) == EvalSer(F, a, d, A(F, i))
  {
    hide *;
    DropAt(F, a, 0);
    AZero(F);
    EvalSerCong(F, Drop(a, 0), a, d, A(F, i));
    MulOne(F, EvalSer(F, a, d, A(F, i)));
  }

  lemma {:induction false} EvalDropLast(F: Field, a: Ser, d: nat, i: nat)
    requires F.Ok() && IsSer(F, a)
    ensures F.El(a(d)) && IsSer(F, Drop(a, d))
    ensures GfMul(F, A(F, d * i), EvalSer(F, Drop(a, d), 0, A(F, i))) == GfMul(F, A(F, d * i), a(d))
  {
    hide *;
    SerAt(F, a, d);
    DropAt(F, a, d);
    EvalSerStep(F, Drop(a, d), 0, A(F, i));
  }

  /** One term of the monic polynomial, from its logarithm. */
  lemma {:induction false} TermFromLog(F: Field, c: seq<nat>, d: nat, rep: seq<int>, j: nat, a: Ser, r: int, e: nat)
    requires F.Ok() && IsPoly(F, c) && j <= d < |c| && |rep| == d && c[d] != 0 && IsSer(F, a)
    requires r == (if j == d then 0 else rep[j]) && IsLogRep(F, c, d, rep) && a == Monic(F, c, d)
    ensures F.El(a(j)) && r >= -1
    ensures GfMul(F, A(F, e), a(j)) == if r >= 0 then A(F, r + e) else 0
  {
    hide F.Ok, Pow2, GfMul, GfDiv, GfInv, A, Monic;
    SerAt(F, a, j);
    MonicAt(F, c, d, j);
    if j == d {
      DivSelf(F, c[d]);
      AZero(F);
      MulPowers(F, e, 0);
    } else {
      assert RepAt(F, c[j], c[d], rep[j]);
      if c[j] == 0 {
        DivIsMulInv(F, 0, c[d]);
        MulZero(F, GfInv(F, c[d]));
        MulZero(F, A(F, e));
      } else {
        MulPowers(F, e, r);
      }
    }
  }

  lemma {:induction false} DivSelf(F: Field, x: nat)
    requires F.Ok() && F.El(x) && x != 0
    ensures GfDiv(F, x, x) == 1
  {
    hide F.Ok, Pow2, GfMul, GfDiv, GfInv;
    DivIsMulInv(F, x, x);
    MulInverse(F, x);
    MulComm(F, x, GfInv(F, x));
  }

  /** The value of the monic polynomial at a^i. */
  method EvalAt(F: Field, c: seq<nat>, d: nat, rep: seq<int>, syn0: nat, i: nat) returns (syn: nat)
    requires F.Ok() && F.m > 1 && IsPoly(F, c) && 0 < d < |c| && c[d] != 0 && IsLogRep(F, c, d, rep)
    requires syn0 == GfDiv(F, c[0], c[d])
    ensures syn == EvalSer(F, Monic(F, c, d), d, A(F, i))
  {
    hide F.Ok, Pow2, GfMul, GfDiv, GfInv, A, Monic, EvalSer, Xor, IsLogRep, Drop;
    ghost var a, x := Monic(F, c, d), A(F, i);
    syn := syn0;
    MonicAt(F, c, d, 0);
    assert 0 * i == 0 && (0 + 1) * i == 1 * i;
    EvalDropNone(F, a, d, i);
    EvalDrop(F, a, d, i, 0);
    AZero(F);
    MulOne(F, syn);
    LogRepLength(F, c, d, rep);
    var j := 1;
    while j <= d
      invariant 1 <= j <= d + 1
      invariant IsSer(F, Drop(a, j))
      invariant j <= d ==> Xor(syn, GfMul(F, A(F, j * i), EvalSer(F, Drop(a, j), d - j, x))) == EvalSer(F, a, d, x)
      invariant j == d + 1 ==> syn == EvalSer(F, a, d, x)
    {
      var m := if j == d then 0 else rep[j];
      TermFromLog(F, c, d, rep, j, a, m, j * i);
      ghost var term := GfMul(F, A(F, j * i), a(j));
      ghost var was := syn;
      if m >= 0 {
        var y := PowerOf(F, m + j * i);
        syn := Xor(syn, y);
      } else {
        XorZero(syn);
      }
      assert syn == Xor(was, term);
      DropAt(F, a, j + 1);
      if j == d {
        EvalDropLast(F, a, d, i);
      } else {
        EvalDrop(F, a, d, i, j);
        XorAssoc(was, term, GfMul(F, A(F, (j + 1) * i), EvalSer(F, Drop(a, j + 1), d - j - 1, x)));
      }
      j := j + 1;
    }
  }

  lemma {:induction false} LogRepLength(F: Field, c: seq<nat>, d: nat, rep: seq<int>)
    requires F.Ok() && IsPoly(F, c) && d < |c| && c[d] != 0 && IsLogRep(F, c, d, rep)
    ensures |rep| == d
  {
  }

  // ----- the search

  /** q names a root of the polynomial c[0..d]: the inverse of a^q. */
  ghost predicate IsRoot(F: Field, c: seq<nat>, d: nat, q: nat)
    requires F.Ok() && IsPoly(F, c)
  {
    SerToIsSer(F, c, d);
    q < F.N() && EvalSer(F, SerTo(c, d), d, Inverse(F, q)) == 0
  }

  /** ps are as many distinct roots as the degree allows, all below k. */
  ghost predicate AllRoots(F: Field, c: seq<nat>, d: nat, k: nat, ps: seq<nat>)
    requires F.Ok() && IsPoly(F, c)
  {
    && |ps| == d && Positions(F, ps)
    && forall i :: 0 <= i < |ps| ==> ps[i] < k && IsRoot(F, c, d, ps[i])
  }

  lemma {:induction false} RootTest(F: Field, c: seq<nat>, d: nat, i: nat)
    requires F.Ok() && IsPoly(F, c) && d < |c| && c[d] != 0 && 1 <= i <= F.N()
    ensures EvalSer(F, Monic(F, c, d), d, A(F, i)) == 0 <==> IsRoot(F, c, d, F.N() - i)
  {
    hide F.Ok, Pow2, Monic, EvalSer, A, SerTo;
    MonicValue(F, c, d, A(F, i));
  }

  /** ps lists the roots among the positions from lo to hi - 1, in descending order. */
  ghost predicate RootsBetween(F: Field, c: seq<nat>, d: nat, lo: nat, hi: nat, ps: seq<nat>)
    requires F.Ok() && IsPoly(F, c)
  {
    && (forall i :: 0 <= i < |ps| ==> lo <= ps[i] < hi && IsRoot(F, c, d, ps[i]))
    && (forall i, j :: 0 <= i < j < |ps| ==> ps[i] > ps[j])
    && (forall q: nat :: lo <= q < hi && IsRoot(F, c, d, q) ==> q in ps)
  }

  lemma {:induction false} RootsBetweenStep(F: Field, c: seq<nat>, d: nat, lo: nat, hi: nat, ps: seq<nat>)
    requires F.Ok() && IsPoly(F, c) && 0 < lo <= hi && RootsBetween(F, c, d, lo, hi, ps)
    ensures IsRoot(F, c, d, lo - 1) ==> RootsBetween(F, c, d, lo - 1, hi, ps + [lo - 1])
    ensures !IsRoot(F, c, d, lo - 1) ==> RootsBetween(F, c, d, lo - 1, hi, ps)
  {
    hide IsRoot, F.Ok, IsPoly;
    if IsRoot(F, c, d, lo - 1) {
      var r := ps + [lo - 1];
      forall q: nat | lo - 1 <= q < hi && IsRoot(F, c, d, q) ensures q in r {
        if q >= lo { assert q in ps; }
      }
    }
  }

  /** Fewer roots than the degree below k: no complete set of roots exists there. */
  lemma {:induction false} TooFewRoots(F: Field, c: seq<nat>, d: nat, k: nat, ps: seq<nat>, other: seq<nat>)
    requires F.Ok() && IsPoly(F, c) && RootsBetween(F, c, d, 0, k, ps) && |ps| < d
    ensures !AllRoots(F, c, d, k, other)
  {
    hide IsRoot, F.Ok, IsPoly;
    if AllRoots(F, c, d, k, other) {
      forall i | 0 <= i < |other| ensures other[i] in ps { }
      Pigeons(other, ps);
    }
  }

  lemma {:induction false} Pigeons(a: seq<nat>, b: seq<nat>)
    requires forall i :: 0 <= i < |a| ==> a[i] in b
    requires forall i, j :: 0 <= i < j < |a| ==> a[i] != a[j]
    ensures |a| <= |b|
    decreases |b|
  {
    assert a != [] ==> a[0] in b;
    if b == [] {
    } else if exists i :: 0 <= i < |a| && a[i] == b[0] {
      var i :| 0 <= i < |a| && a[i] == b[0];
      var a' := a[..i] + a[i + 1..];
      forall j | 0 <= j < |a'| ensures a'[j] in b[1..] {
        assert a'[j] == if j < i then a[j] else a[j + 1];
        assert a'[j] in b;
      }
      forall j, k | 0 <= j < k < |a'| ensures a'[j] != a'[k] {
        assert a'[j] == if j < i then a[j] else a[j + 1];
        assert a'[k] == if k < i then a[k] else a[k + 1];
      }
      Pigeons(a', b[1..]);
    } else {
      forall j | 0 <= j < |a| ensures a[j] in b[1..] { assert a[j] in b; }
      Pigeons(a, b[1..]);
    }
  }

  /** The roots whose positions are below k, if there are as many as the degree. */
  method ChienSearch(F: Field, c: seq<nat>, d: nat, k: nat) returns (roots: seq<nat>)
    requires F.Ok() && F.m > 1 && IsPoly(F, c) && 0 < d < |c| && c[d] != 0 && 0 < k <= F.N()
    ensures roots != [] ==> AllRoots(F, c, d, k, roots)
    ensures roots == [] ==> forall ps: seq<nat> :: !AllRoots(F, c, d, k, ps)
  {
    hide F.Ok, Pow2, GfDiv, A, EvalSer, Monic, IsRoot, IsLogRep;
    var rep := LogRep(F, c, d);
    var syn0 := GfDiv(F, c[0], c[d]);
    var n := F.N();
    roots := [];
    var i := n - k + 1;
    while i <= n
      invariant n - k + 1 <= i <= n + 1
      invariant RootsBetween(F, c, d, n + 1 - i, k, roots) && |roots| < d
    {
      var syn := EvalAt(F, c, d, rep, syn0, i);
      RootTest(F, c, d, i);
      RootsBetweenStep(F, c, d, n + 1 - i, k, roots);
      if syn == 0 {
        roots := roots + [n - i];
        if |roots| == d { break; }
      }
      i := i + 1;
    }
    if |roots| == d {
      FullSet(F, c, d, n - i, k, roots);
    } else {
      forall ps: seq<nat> ensures !AllRoots(F, c, d, k, ps) { TooFewRoots(F, c, d, k, roots, ps); }
      roots := [];
    }
  }

  lemma {:induction false} FullSet(F: Field, c: seq<nat>, d: nat, lo: nat, k: nat, ps: seq<nat>)
    requires F.Ok() && IsPoly(F, c) && RootsBetween(F, c, d, lo, k, ps) && |ps| == d && k <= F.N()
    ensures AllRoots(F, c, d, k, ps)
  {
    hide IsRoot, F.Ok, IsPoly;
  }
}
