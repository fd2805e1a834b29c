/** GF(2^m) as the log and antilog tables of the BCH codec represent it: the elements are the
    polynomials over GF(2) of degree below m, a is the class of X modulo the field polynomial, and
    products are computed by adding logarithms. */
module GaloisField {
  import opened Gf2

  // ----- powers of a, and the loop that tabulates them

  /** Multiplication by a: shift left and reduce by the field polynomial. */
  function MulX(p: nat, m: nat, x: nat): (y: nat)
    requires IsDivisor(p, m) && x < Pow2(m)
    ensures y < Pow2(m)
  {
    Step(p, m, x, 0)
  }

  function Iter(p: nat, m: nat, i: nat, x: nat): (y: nat)
    requires IsDivisor(p, m) && x < Pow2(m)
    ensures y < Pow2(m)
  {
    if i == 0 then x else MulX(p, m, Iter(p, m, i - 1, x))
  }

  /** The i-th power of a. */
  function APow(p: nat, m: nat, i: nat): (y: nat)
    requires IsDivisor(p, m) && m > 0
    ensures y < Pow2(m)
  {
    Pow2Mono(1, m);
    Iter(p, m, i, 1)
  }

  /** The order of the multiplicative group. */
  function Order(m: nat): (n: nat)
  {
    Pow2(m) - 1
  }

  /** The test the table builder makes: no power below the group order is 1 again. */
  ghost predicate Accepts(p: nat, m: nat)
    requires m > 0
  {
    IsDivisor(p, m) && forall i :: 0 < i < Order(m) ==> APow(p, m, i) != 1
  }

  lemma {:induction false} IterAdd(p: nat, m: nat, i: nat, j: nat, x: nat)
    requires IsDivisor(p, m) && x < Pow2(m)
    ensures Iter(p, m, i + j, x) == Iter(p, m, i, Iter(p, m, j, x))
  {
    hide MulX;
    if i > 0 {
      IterAdd(p, m, i - 1, j, x);
    }
  }

  lemma {:induction false} IterLinear(p: nat, m: nat, i: nat, x: nat, y: nat)
    requires IsDivisor(p, m) && x < Pow2(m) && y < Pow2(m)
    ensures Xor(x, y) < Pow2(m)
    ensures Iter(p, m, i, Xor(x, y)) == Xor(Iter(p, m, i, x), Iter(p, m, i, y))
  {
    hide Xor, Step;
    XorBound(x, y, m);
    if i > 0 {
      IterLinear(p, m, i - 1, x, y);
      StepLinear(p, m, Iter(p, m, i - 1, x), 0, Iter(p, m, i - 1, y), 0);
    }
  }

  lemma {:induction false} IterZero(p: nat, m: nat, i: nat)
    requires IsDivisor(p, m)
    ensures Iter(p, m, i, 0) == 0
  {
    if i > 0 {
      IterZero(p, m, i - 1);
      StepZero(p, m);
    }
  }

  /** With an odd field polynomial, multiplication by a loses nothing. */
  lemma {:induction false} MulXInjective(p: nat, m: nat, x: nat, y: nat)
    requires IsDivisor(p, m) && m > 0 && p % 2 == 1 && x < Pow2(m) && y < Pow2(m)
    requires MulX(p, m, x) == MulX(p, m, y)
    ensures x == y
  {
    hide Xor;
    XorHalves(2 * x, p);
    XorHalves(2 * y, p);
    if 2 * x >= Pow2(m) && 2 * y >= Pow2(m) {
      XorSolve(2 * x, p);
      XorSolve(2 * y, p);
    }
  }

  lemma {:induction false} IterInjective(p: nat, m: nat, i: nat, x: nat, y: nat)
    requires IsDivisor(p, m) && m > 0 && p % 2 == 1 && x < Pow2(m) && y < Pow2(m)
    requires Iter(p, m, i, x) == Iter(p, m, i, y)
    ensures x == y
  {
    hide MulX;
    if i > 0 {
      MulXInjective(p, m, Iter(p, m, i - 1, x), Iter(p, m, i - 1, y));
      IterInjective(p, m, i - 1, x, y);
    }
  }

  lemma {:induction false} APowNonzero(p: nat, m: nat, i: nat)
    requires IsDivisor(p, m) && m > 0 && p % 2 == 1
    ensures APow(p, m, i) != 0
  {
    hide Iter;
    Pow2Mono(1, m);
    IterZero(p, m, i);
    if APow(p, m, i) == 0 {
      IterInjective(p, m, i, 1, 0);
    }
  }

  lemma {:induction false} APowDistinct(p: nat, m: nat, i: nat, j: nat)
    requires m > 0 && Accepts(p, m) && p % 2 == 1
    requires i < j < Order(m)
    ensures APow(p, m, i) != APow(p, m, j)
  {
    hide Iter;
    Pow2Mono(1, m);
    if APow(p, m, i) == APow(p, m, j) {
      IterAdd(p, m, i, j - i, 1);
      IterInjective(p, m, i, 1, APow(p, m, j - i));
    }
  }

  // ----- counting: n distinct values between 1 and n take every value

  function UpTo(n: nat): (s: set<nat>)
    ensures |s| == n
    ensures forall x :: x in s <==> 1 <= x <= n
  {
    if n == 0 then {} else UpTo(n - 1) + {n}
  }

  function Elements(s: seq<nat>): (r: set<nat>)
    ensures forall x :: x in r <==> x in s
    ensures (forall i, j :: 0 <= i < j < |s| ==> s[i] != s[j]) ==> |r| == |s|
  {
    if s == [] then {} else
      var k := |s| - 1;
      assert s == s[..k] + [s[k]];
      Elements(s[..k]) + {s[k]}
  }

  lemma {:induction false} SubsetSameSize(a: set<nat>, b: set<nat>)
    requires a <= b && |a| == |b|
    ensures a == b
  {
    assert |b - a| == |b| - |a|;
    assert b - a == {};
  }

  lemma {:induction false} Pigeonhole(s: seq<nat>, x: nat)
    requires forall i, j :: 0 <= i < j < |s| ==> s[i] != s[j]
    requires forall i :: 0 <= i < |s| ==> 1 <= s[i] <= |s|
    requires 1 <= x <= |s|
    ensures x in s
  {
    SubsetSameSize(Elements(s), UpTo(|s|));
  }

  // ----- the tables

  /** Always true: naming an index or an element here is what makes the facts about its table entry
      available to a proof. */
  ghost predicate Probe(i: int) { true }

  datatype Field = Field(m: nat, poly: nat, pow: seq<nat>, log: seq<nat>) {
    function N(): nat { Order(m) }

    predicate El(x: nat) { x < Pow2(m) }

    /** The tables hold the powers of a and their logarithms, each the inverse of the other. */
    ghost predicate Ok() {
      && m > 0 && IsDivisor(poly, m) && poly % 2 == 1
      && |pow| == |log| == Pow2(m)
      && (forall i {:trigger Probe(i)} :: 0 <= i <= N() ==> pow[i] == APow(poly, m, i))
      && pow[N()] == 1
      && log[0] == 0
      && (forall i {:trigger Probe(i)} :: 0 <= i < N() ==> 0 < pow[i] < Pow2(m) && log[pow[i]] == i)
      && (forall x {:trigger Probe(x)} :: 0 < x < Pow2(m) ==> log[x] < N() && pow[log[x]] == x)
    }
  }

  lemma {:induction false} APowBase(p: nat, m: nat)
    requires IsDivisor(p, m) && m > 0
    ensures APow(p, m, 0) == 1
  {
  }

  lemma {:induction false} APowNext(p: nat, m: nat, i: nat)
    requires IsDivisor(p, m) && m > 0
    ensures APow(p, m, i + 1) == if 2 * APow(p, m, i) >= Pow2(m) then Xor(2 * APow(p, m, i), p) else 2 * APow(p, m, i)
  {
    hide Xor;
  }

  /** What the loop of the table builder leaves behind, for any polynomial it accepts: later writes
      to a logarithm win. */
  ghost predicate Tabulated(p: nat, m: nat, pow: seq<nat>, log: seq<nat>)
    requires m > 0 && IsDivisor(p, m)
  {
    && |pow| == |log| == Pow2(m)
    && (forall i :: 0 <= i < Order(m) ==> pow[i] == APow(p, m, i))
    && pow[Order(m)] == 1
    && log[0] == 0
    && (forall i :: 0 <= i < Order(m) && APow(p, m, i) != 0
                    && (forall k :: i < k < Order(m) ==> APow(p, m, k) != APow(p, m, i))
                    ==> log[APow(p, m, i)] == i)
  }

  method BuildGfTables(m: nat, poly: nat, pow: array<nat>, log: array<nat>) returns (ok: bool)
    requires m > 0 && poly > 0 && pow != log
    requires pow.Length == log.Length == Pow2(m)
    modifies pow, log
    ensures ok <==> Accepts(poly, m)
    ensures ok ==> Tabulated(poly, m, pow[..], log[..])
  {
    hide Iter, Step, Xor;
    var d := Deg(poly);
    if d != m {
      if IsDivisor(poly, m) {
        DegUnique(poly, m);
      }
      return false;
    }
    var n := Order(m);
    Pow2Mono(1, m);
    var x, i := 1, 0;
    assert x == APow(poly, m, 0) by { APowBase(poly, m); }
    while i < n
      invariant 0 <= i <= n && x < Pow2(m)
      invariant x == APow(poly, m, i)
      invariant forall k :: 0 <= k < i ==> pow[k] == APow(poly, m, k)
      invariant forall k :: 0 < k < i ==> APow(poly, m, k) != 1
      invariant forall k :: 0 <= k < i && (forall h :: k < h < i ==> APow(poly, m, h) != APow(poly, m, k))
                  ==> log[APow(poly, m, k)] == k
    {
      pow[i] := x;
      log[x] := i;
      if i != 0 && x == 1 {
        return false;
      }
      APowNext(poly, m, i);
      x := 2 * x;
      if x >= Pow2(m) {
        x := Xor(x, poly);
      }
      i := i + 1;
    }
    pow[n] := 1;
    log[0] := 0;
    ok := true;
  }

  /** For an accepted odd polynomial the n-th power of a is 1, so the powers repeat with period n. */
  lemma {:induction false} APowOrder(p: nat, m: nat)
    requires m > 0 && Accepts(p, m) && p % 2 == 1
    ensures APow(p, m, Order(m)) == 1
  {
    hide Iter;
    var n := Order(m);
    Pow2Mono(1, m);
    var s := seq(n, i requires 0 <= i < n => APow(p, m, i));
    forall i | 0 <= i < n ensures 1 <= s[i] <= n { APowNonzero(p, m, i); }
    forall i, j | 0 <= i < j < n ensures s[i] != s[j] { APowDistinct(p, m, i, j); }
    var v := APow(p, m, n);
    APowNonzero(p, m, n);
    Pigeonhole(s, v);
    var j :| 0 <= j < n && s[j] == v;
    IterAdd(p, m, j, n - j, 1);
    IterInjective(p, m, j, 1, APow(p, m, n - j));
    APowBase(p, m);
    assert j == 0;
  }

  /** Accepting an odd polynomial of degree m makes log and pow mutually inverse bijections between
      the exponents below n and the nonzero elements. */
  lemma {:induction false} OddGivesField(p: nat, m: nat, pow: seq<nat>, log: seq<nat>)
    requires m > 0 && Accepts(p, m) && p % 2 == 1
    requires Tabulated(p, m, pow, log)
    ensures Field(m, p, pow, log).Ok()
  {
    hide Iter;
    var n := Order(m);
    Pow2Mono(1, m);
    forall i | 0 <= i < n
      ensures 0 < pow[i] < Pow2(m) && log[pow[i]] == i
    {
      APowNonzero(p, m, i);
      forall k | i < k < n ensures APow(p, m, k) != APow(p, m, i) { APowDistinct(p, m, i, k); }
    }
    forall x | 0 < x < Pow2(m)
      ensures log[x] < n && pow[log[x]] == x
    {
      forall i, j | 0 <= i < j < n ensures pow[i] != pow[j] { APowDistinct(p, m, i, j); }
      Pigeonhole(pow[..n], x);
      var i :| 0 <= i < n && pow[i] == x;
    }
    APowOrder(p, m);
    forall i | 0 <= i <= n ensures pow[i] == APow(p, m, i) {
      if i < n { assert pow[i] == APow(p, m, i); }
    }
    var F := Field(m, p, pow, log);
    assert F.m == m && F.poly == p && F.pow == pow && F.log == log && F.N() == n;
  }

  /** The builder does not look at the constant term: an even polynomial it accepts yields tables in
      which the element X+1 has no logarithm. */
  lemma {:induction false} EvenIsNoField(p: nat, m: nat, i: nat)
    requires m > 1 && IsDivisor(p, m) && p % 2 == 0
    ensures Pow2(m) > 3 && APow(p, m, i) != 3
  {
    hide Iter, Xor;
    Pow2Mono(2, m);
    if i == 0 {
      APowBase(p, m);
    } else {
      APowNext(p, m, i - 1);
      XorHalves(2 * APow(p, m, i - 1), p);
    }
  }

  /** For an accepted polynomial, the tables describe a field exactly when its constant term is 1. */
  lemma {:induction false} FieldIffOdd(p: nat, m: nat, pow: seq<nat>, log: seq<nat>)
    requires m > 1 && Accepts(p, m) && Tabulated(p, m, pow, log)
    ensures p % 2 == 1 ==> Field(m, p, pow, log).Ok()
    ensures p % 2 == 1 <==> forall x :: 0 < x < Pow2(m) ==> x in pow[..Order(m)]
  {
    hide Iter;
    if p % 2 == 1 {
      OddGivesField(p, m, pow, log);
      forall x | 0 < x < Pow2(m)
        ensures x in pow[..Order(m)]
      {
        assert Probe(x);
        assert pow[..Order(m)][log[x]] == x;
      }
    } else {
      EvenIsNoField(p, m, 0);
      forall i | 0 <= i < Order(m) ensures pow[i] != 3 { EvenIsNoField(p, m, i); }
      assert 3 !in pow[..Order(m)];
    }
  }

  /** X^5 itself, of degree 5, is accepted although it generates nothing. */
  lemma {:induction false} EvenAccepted()
    ensures Accepts(32, 5)
  {
    assert IsDivisor(32, 5);
    forall i | 0 < i < Order(5) ensures APow(32, 5, i) != 1 {
      APowNext(32, 5, i - 1);
      XorHalves(2 * APow(32, 5, i - 1), 32);
    }
  }
}
