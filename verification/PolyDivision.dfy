/** Division with remainder and greatest common divisors of polynomials over GF(2^m), in place. */
module PolyDivision {
  import opened Gf2
  import opened GaloisField
  import opened FieldLaws
  import opened FieldPoly
  import opened PowerSeries
  import opened Newton
  import opened BerlekampMassey
  import opened Locator
  import opened Chien

  // ----- the state of a division

  /** The part of c at degree j and below, still to be divided. */
  ghost function Rest(c: seq<nat>, j: int): Ser {
    (n: nat) => if n <= j && n < |c| then c[n] else 0
  }

  /** The quotient found so far, in the coefficients of c from j + 1 to top. */
  ghost function Found(c: seq<nat>, d: nat, j: int, top: nat): Ser {
    (n: nat) => if j < n + d <= top && n + d < |c| then c[n + d] else 0
  }

  lemma {:induction false} RestAt(F: Field, c: seq<nat>, j: int)
    requires F.Ok() && IsPoly(F, c)
    ensures IsSer(F, Rest(c, j)) && forall n: nat :: Rest(c, j)(n) == if n <= j && n < |c| then c[n] else 0
  {
    hide F.Ok, Pow2;
    FieldShape(F);
  }

  lemma {:induction false} FoundAt(F: Field, c: seq<nat>, d: nat, j: int, top: nat)
    requires F.Ok() && IsPoly(F, c)
    ensures IsSer(F, Found(c, d, j, top))
    ensures forall n: nat :: Found(c, d, j, top)(n) == if j < n + d <= top && n + d < |c| then c[n + d] else 0
  {
    hide F.Ok, Pow2;
    FieldShape(F);
  }

  /** a = b q + r, coefficient by coefficient. */
  ghost predicate Division(F: Field, a: Ser, b: Ser, q: Ser, r: Ser)
    requires F.Ok()
  {
    && IsSer(F, a) && IsSer(F, b) && IsSer(F, q) && IsSer(F, r)
    && forall n: nat :: a(n) == Xor(Conv(F, b, q, n), r(n))
  }

  lemma {:induction false} DivisionSer(F: Field, a: Ser, b: Ser, q: Ser, r: Ser)
    requires F.Ok() && Division(F, a, b, q, r)
    ensures IsSer(F, a) && IsSer(F, b) && IsSer(F, q) && IsSer(F, r)
  {
  }

  lemma {:induction false} DivisionAt(F: Field, a: Ser, b: Ser, q: Ser, r: Ser, n: nat)
    requires F.Ok() && Division(F, a, b, q, r)
    ensures IsSer(F, a) && IsSer(F, b) && IsSer(F, q) && IsSer(F, r)
    ensures a(n) == Xor(Conv(F, b, q, n), r(n))
  {
  }

  lemma {:induction false} ConvOne(F: Field, b: Ser, n: nat)
    requires F.Ok() && IsSer(F, b)
    ensures Conv(F, b, One(F), n) == b(n)
  {
    hide *;
    var o := One(F);
    OneAt(F);
    ConvComm(F, b, o, n);
    ConvStep(F, o, b, n);
    SerAt(F, b, n);
    MulOne(F, b(n));
    if n > 0 {
      forall i: nat | i <= n - 1 ensures Tail(o)(i) == 0 { TailAt(o, i); }
      ConvZero(F, Tail(o), b, n - 1);
      XorZero(b(n));
    }
  }

  lemma {:induction false} OneAt(F: Field)
    requires F.Ok()
    ensures One(F)(0) == 1 && forall i: nat :: i > 0 ==> One(F)(i) == 0
  {
  }

  /** Moving t X^p times the divisor from the rest to the quotient. */
  lemma {:induction false} DivisionStep(F: Field, a: Ser, b: Ser, q: Ser, r: Ser, q': Ser, r': Ser, t: nat, p: nat)
    requires F.Ok() && F.El(t) && Division(F, a, b, q, r) && IsSer(F, b) && IsSer(F, q) && IsSer(F, r)
    requires IsUpdate(F, q', q, t, p, One(F)) && IsUpdate(F, r', r, t, p, b)
    ensures Division(F, a, b, q', r')
  {
    hide *;
    UpdateSer(F, q', q, t, p, One(F));
    UpdateSer(F, r', r, t, p, b);
    DivisionSer(F, a, b, q, r);
    forall n: nat ensures a(n) == Xor(Conv(F, b, q', n), r'(n)) {
      DivisionAt(F, a, b, q, r, n);
      UpdateConv(F, b, q', q, t, p, One(F), n);
      UpdateDef(F, r', r, t, p, b, n);
      if n >= p {
        ConvOne(F, b, n - p);
        var x := GfMul(F, t, b(n - p));
        XorSwap4(Conv(F, b, q, n), x, r(n), x);
        XorSelf(x);
        XorZero(a(n));
      }
    }
    DivisionIntro(F, a, b, q', r');
  }

  lemma {:induction false} DivisionIntro(F: Field, a: Ser, b: Ser, q: Ser, r: Ser)
    requires F.Ok() && IsSer(F, a) && IsSer(F, b) && IsSer(F, q) && IsSer(F, r)
    requires forall n: nat :: a(n) == Xor(Conv(F, b, q, n), r(n))
    ensures Division(F, a, b, q, r)
  {
  }

  // ----- the method

  /** c with t times the monic divisor, shifted to end below j, added to it. */
  ghost predicate Reduced(F: Field, c: seq<nat>, c': seq<nat>, b: Ser, d: nat, j: nat, t: nat)
    requires F.Ok() && IsSer(F, b) && F.El(t) && d <= j
  {
    && |c'| == |c| && IsPoly(F, c')
    && forall n: nat :: n < |c| ==> c'[n] == if j - d <= n < j then Xor(c[n], GfMul(F, t, b(n - (j - d)))) else c[n]
  }

  lemma {:induction false} ReducedStep(F: Field, a: Ser, b: Ser, c: seq<nat>, c': seq<nat>, d: nat, j: nat, top: nat)
    requires F.Ok() && IsPoly(F, c) && d <= j <= top < |c| && IsSer(F, b) && b(d) == 1 && DegreeAtMost(b, d)
    requires Division(F, a, b, Found(c, d, j, top), Rest(c, j)) && Reduced(F, c, c', b, d, j, c[j])
    ensures Division(F, a, b, Found(c', d, j - 1, top), Rest(c', j - 1))
  {
    hide F.Ok, Pow2, Xor, GfMul, Conv, Division, Found, Rest;
    var t, p := c[j], j - d;
    FoundAt(F, c, d, j, top);
    FoundAt(F, c', d, j - 1, top);
    RestAt(F, c, j);
    RestAt(F, c', j - 1);
    var q, r, q', r' := Found(c, d, j, top), Rest(c, j), Found(c', d, j - 1, top), Rest(c', j - 1);
    OneAt(F);
    MulOne(F, t);
    MulZero(F, t);
    XorSelf(t);
    forall n: nat ensures q'(n) == if n < p then q(n) else Xor(q(n), GfMul(F, t, One(F)(n - p))) {
      XorZero(q(n));
      XorZero(t);
    }
    forall n: nat ensures r'(n) == if n < p then r(n) else Xor(r(n), GfMul(F, t, b(n - p))) {
      XorZero(r(n));
    }
    DivisionStep(F, a, b, q, r, q', r', t, p);
  }

  lemma {:induction false} ReducedNone(F: Field, c: seq<nat>, b: Ser, d: nat, j: nat)
    requires F.Ok() && IsPoly(F, c) && IsSer(F, b) && d <= j < |c| && c[j] == 0
    ensures F.El(0) && Reduced(F, c, c, b, d, j, 0)
  {
    hide F.Ok, Pow2, Xor, GfMul;
    FieldShape(F);
    forall n: nat | j - d <= n < j ensures c[n] == Xor(c[n], GfMul(F, 0, b(n - (j - d)))) {
      MulZero(F, b(n - (j - d)));
      XorZero(c[n]);
    }
  }

  /** One row: adds c[j] times the monic divisor given by its logarithms. */
  method AddRow(F: Field, c: array<nat>, ghost b: seq<nat>, d: nat, rep: seq<int>, j: nat)
    requires F.Ok() && IsPoly(F, c[..]) && IsPoly(F, b) && d < |b| && b[d] != 0 && IsLogRep(F, b, d, rep)
    requires d <= j < c.Length && c[j] != 0
    modifies c
    ensures IsPoly(F, old(c[..])) && Reduced(F, old(c[..]), c[..], Monic(F, b, d), d, j, old(c[j]))
  {
    hide F.Ok, Pow2, Xor, GfMul, Monic, IsLogRep, A;
    ghost var was, t, m := c[..], c[j], Monic(F, b, d);
    LogRepLength(F, b, d, rep);
    LogEntry(F, c[j]);
    var la := F.log[c[j]];
    var p := j - d;
    var i := 0;
    while i < d
      invariant 0 <= i <= d && p == j - d + i && IsPoly(F, c[..])
      invariant forall n: nat :: n < c.Length ==>
                  c[n] == if j - d <= n < j - d + i then Xor(was[n], GfMul(F, t, m(n - (j - d)))) else was[n]
    {
      var e := rep[i];
      RowTerm(F, b, d, rep, i, t, la);
      SerAt(F, m, i);
      if e >= 0 {
        var x := F.pow[ModS(F.N(), e + la)];
        XorBound(c[p], x, F.m);
        c[p] := Xor(c[p], x);
      } else {
        XorZero(c[p]);
      }
      i, p := i + 1, p + 1;
    }
  }

  lemma {:induction false} RowTerm(F: Field, b: seq<nat>, d: nat, rep: seq<int>, i: nat, t: nat, la: nat)
    requires F.Ok() && IsPoly(F, b) && i < d < |b| && |rep| == d && b[d] != 0 && IsLogRep(F, b, d, rep)
    requires F.El(t) && t != 0 && t < |F.log| && la == F.log[t] < F.N()
    ensures F.El(Monic(F, b, d)(i)) && rep[i] >= -1 && (rep[i] >= 0 ==> ModS(F.N(), rep[i] + la) < |F.pow|)
    ensures rep[i] >= 0 ==> F.pow[ModS(F.N(), rep[i] + la)] == GfMul(F, t, Monic(F, b, d)(i))
    ensures rep[i] >= 0 ==> F.El(F.pow[ModS(F.N(), rep[i] + la)])
    ensures rep[i] < 0 ==> GfMul(F, t, Monic(F, b, d)(i)) == 0
  {
    hide F.Ok, Pow2, GfMul, Monic, A;
    var e, a := rep[i], Monic(F, b, d);
    ALog(F, t);
    TermFromLog(F, b, d, rep, i, a, e, la);
    if e >= 0 {
      assert RepAt(F, b[i], b[d], e);
      AModS(F, e + la);
      PowEntry(F, 0);
    }
  }

  /** The divisor made monic. */
  lemma {:induction false} MonicShape(F: Field, b: seq<nat>, d: nat)
    requires F.Ok() && IsPoly(F, b) && d < |b| && b[d] != 0
    ensures Monic(F, b, d)(d) == 1 && DegreeAtMost(Monic(F, b, d), d)
  {
    hide F.Ok, Pow2, GfMul, GfDiv, GfInv;
    MonicAt(F, b, d, d);
    DivSelf(F, b[d]);
    SerToIsSer(F, b, d);
    forall i: nat | i > d ensures Monic(F, b, d)(i) == 0 {
      TimesCoef(F, GfInv(F, b[d]), SerTo(b, d), i);
      MulZero(F, GfInv(F, b[d]));
    }
  }

  lemma {:induction false} DivisionStart(F: Field, c: seq<nat>, b: Ser, d: nat, deg: nat)
    requires F.Ok() && IsPoly(F, c) && IsSer(F, b) && deg < |c|
    ensures Division(F, SerTo(c, deg), b, Found(c, d, deg, deg), Rest(c, deg))
  {
    hide F.Ok, Pow2, Xor, Conv, Found, Rest, SerTo;
    SerToIsSer(F, c, deg);
    FoundAt(F, c, d, deg, deg);
    RestAt(F, c, deg);
    var a, q, r := SerTo(c, deg), Found(c, d, deg, deg), Rest(c, deg);
    forall n: nat ensures a(n) == Xor(Conv(F, b, q, n), r(n)) {
      ConvZero(F, q, b, n);
      XorZero(r(n));
      SerToAt(c, deg, n);
    }
  }

  lemma {:induction false} DivisionCong(F: Field, a: Ser, b: Ser, q: Ser, r: Ser, a': Ser, q': Ser, r': Ser)
    requires F.Ok() && Division(F, a, b, q, r) && IsSer(F, a') && IsSer(F, q') && IsSer(F, r')
    requires forall n: nat :: a'(n) == a(n) && q'(n) == q(n) && r'(n) == r(n)
    ensures Division(F, a', b, q', r')
  {
    hide F.Ok, Pow2, Xor, Conv;
    forall n: nat ensures a'(n) == Xor(Conv(F, b, q', n), r'(n)) {
      ConvCong(F, b, b, q', q, n);
    }
  }

  /** The subtraction loop of the division, from degree deg down to d. */
  method ReduceRows(F: Field, c: array<nat>, deg: nat, ghost b: seq<nat>, d: nat, rep: seq<int>)
    requires F.Ok() && IsPoly(F, c[..]) && IsPoly(F, b) && 0 < d < |b| && b[d] != 0 && IsLogRep(F, b, d, rep)
    requires d <= deg < c.Length
    modifies c
    ensures IsPoly(F, c[..]) && forall n :: deg < n < c.Length ==> c[n] == old(c[n])
    ensures Division(F, SerTo(old(c[..]), deg), Monic(F, b, d), Found(c[..], d, d - 1, deg), Rest(c[..], d - 1))
  {
    hide F.Ok, Pow2, Xor, GfMul, Monic, IsLogRep, Division, Found, Rest, SerTo;
    ghost var a, m := SerTo(c[..], deg), Monic(F, b, d);
    MonicShape(F, b, d);
    DivisionStart(F, c[..], m, d, deg);
    var j := deg;
    while j >= d
      invariant d - 1 <= j <= deg && IsPoly(F, c[..])
      invariant forall n :: deg < n < c.Length ==> c[n] == old(c[n])
      invariant Division(F, a, m, Found(c[..], d, j, deg), Rest(c[..], j))
    {
      ghost var was := c[..];
      if c[j] != 0 {
        AddRow(F, c, b, d, rep, j);
      } else {
        ReducedNone(F, was, m, d, j);
      }
      ReducedStep(F, a, m, was, c[..], d, j, deg);
      j := j - 1;
    }
  }

  /** gf_poly_mod: the remainder is left in the low coefficients, the quotient by the monic divisor in
      the high ones. */
  method PolyMod(F: Field, c: array<nat>, deg: nat, b: seq<nat>, d: nat) returns (r: nat)
    requires F.Ok() && IsPoly(F, c[..]) && IsPoly(F, b) && 0 < d < |b| && b[d] != 0 && deg < c.Length
    modifies c
    ensures IsPoly(F, c[..]) && r < c.Length
    ensures deg < d ==> r == deg && c[..] == old(c[..])
    ensures deg >= d ==> r < d && (r > 0 ==> c[r] != 0) && forall n :: deg < n < c.Length ==> c[n] == old(c[n])
    ensures deg >= d ==> Division(F, SerTo(old(c[..]), deg), Monic(F, b, d), Found(c[..], d, d - 1, deg),
              SerTo(c[..], r))
  {
    hide F.Ok, Pow2, Monic, IsLogRep, Division, Found, Rest, SerTo;
    if deg < d { return deg; }
    var rep := LogRep(F, b, d);
    ghost var a := SerTo(c[..], deg);
    ReduceRows(F, c, deg, b, d, rep);
    r := d - 1;
    while c[r] == 0 && r > 0
      invariant 0 <= r < d
      invariant forall n :: r < n < d ==> c[n] == 0
    {
      r := r - 1;
    }
    TrimRest(F, a, Monic(F, b, d), Found(c[..], d, d - 1, deg), c[..], d, r);
  }

  lemma {:induction false} TrimRest(F: Field, a: Ser, b: Ser, q: Ser, c: seq<nat>, d: nat, r: nat)
    requires F.Ok() && IsPoly(F, c) && r < d <= |c| && forall n :: r < n < d ==> c[n] == 0
    requires Division(F, a, b, q, Rest(c, d - 1))
    ensures Division(F, a, b, q, SerTo(c, r))
  {
    hide F.Ok, Pow2, Division, Rest, SerTo;
    SerToIsSer(F, c, r);
    RestAt(F, c, d - 1);
    forall n: nat ensures SerTo(c, r)(n) == Rest(c, d - 1)(n) { SerToAt(c, r, n); }
    DivisionSer(F, a, b, q, Rest(c, d - 1));
    DivisionCong(F, a, b, q, Rest(c, d - 1), a, q, SerTo(c, r));
  }

  /** gf_poly_div: the quotient by the monic divisor. */
  method PolyDiv(F: Field, a: array<nat>, deg: nat, b: seq<nat>, d: nat, q: array<nat>) returns (qdeg: nat, r: nat)
    requires F.Ok() && IsPoly(F, a[..]) && IsPoly(F, b) && 0 < d < |b| && b[d] != 0 && deg < a.Length && a != q
    requires q.Length > 0 && (deg >= d ==> deg - d < q.Length)
    modifies a, q
    ensures qdeg == (if deg >= d then deg - d else 0) < q.Length && r < a.Length && (deg >= d ==> r < d)
    ensures IsPoly(F, a[..]) && IsPoly(F, q[..qdeg + 1]) && (deg >= d && r > 0 ==> a[r] != 0)
    ensures Division(F, SerTo(old(a[..]), deg), Monic(F, b, d), SerTo(q[..qdeg + 1], qdeg), SerTo(a[..], r))
  {
    hide F.Ok, Pow2, Monic, Division, Found, SerTo;
    ghost var x, m := SerTo(a[..], deg), Monic(F, b, d);
    if deg >= d {
      qdeg := deg - d;
      r := PolyMod(F, a, deg, b, d);
      ghost var after := a[..];
      forall i | 0 <= i <= qdeg { q[i] := a[i + d]; }
      assert a[..] == after;
      QuotientCopied(F, x, m, a[..], d, deg, q[..qdeg + 1], r);
    } else {
      qdeg, r := 0, deg;
      q[0] := 0;
      FieldShape(F);
      ZeroQuotient(F, a[..], deg, m, q[..1]);
    }
  }

  lemma {:induction false} QuotientCopied(F: Field, x: Ser, m: Ser, c: seq<nat>, d: nat, deg: nat, q: seq<nat>, r: nat)
    requires F.Ok() && IsPoly(F, c) && d <= deg < |c| && |q| == deg - d + 1
    requires forall i :: 0 <= i <= deg - d ==> q[i] == c[i + d]
    requires Division(F, x, m, Found(c, d, d - 1, deg), SerTo(c, r))
    ensures Division(F, x, m, SerTo(q, deg - d), SerTo(c, r))
  {
    hide F.Ok, Pow2, Division, Found, SerTo;
    FoundAt(F, c, d, d - 1, deg);
    SerToIsSer(F, q, deg - d);
    var f, g := Found(c, d, d - 1, deg), SerTo(q, deg - d);
    forall n: nat ensures g(n) == f(n) { SerToAt(q, deg - d, n); }
    DivisionSer(F, x, m, f, SerTo(c, r));
    DivisionCong(F, x, m, f, SerTo(c, r), x, g, SerTo(c, r));
  }

  lemma {:induction false} ZeroQuotient(F: Field, c: seq<nat>, deg: nat, m: Ser, q: seq<nat>)
    requires F.Ok() && IsPoly(F, c) && deg < |c| && IsSer(F, m) && q == [0]
    ensures Division(F, SerTo(c, deg), m, SerTo(q, 0), SerTo(c, deg))
  {
    hide F.Ok, Pow2, Conv, Xor;
    FieldShape(F);
    SerToIsSer(F, c, deg);
    SerToIsSer(F, q, 0);
    var a, z := SerTo(c, deg), SerTo(q, 0);
    forall n: nat ensures a(n) == Xor(Conv(F, m, z, n), a(n)) {
      ConvZero(F, z, m, n);
      XorZero(a(n));
    }
  }

  // ----- divisibility

  /** q, of degree at most n, times h is a. */
  ghost predicate Cofactor(F: Field, h: Ser, a: Ser, q: Ser, n: nat)
    requires F.Ok() && IsSer(F, h)
  {
    IsSer(F, q) && DegreeAtMost(q, n) && forall k: nat :: a(k) == Conv(F, q, h, k)
  }

  ghost predicate Divides(F: Field, h: Ser, a: Ser)
    requires F.Ok()
  {
    IsSer(F, h) && exists q: Ser, n: nat :: Cofactor(F, h, a, q, n)
  }

  lemma {:induction false} DividesIntro(F: Field, h: Ser, a: Ser, q: Ser, n: nat)
    requires F.Ok() && IsSer(F, h) && IsSer(F, q) && DegreeAtMost(q, n) && forall k: nat :: a(k) == Conv(F, q, h, k)
    ensures Divides(F, h, a)
  {
    hide Conv, F.Ok;
    assert Cofactor(F, h, a, q, n);
  }

  /** h divides b c when it divides b and c is a polynomial. */
  lemma {:induction false} DividesProduct(F: Field, h: Ser, b: Ser, c: Ser, m: nat, a: Ser)
    requires F.Ok() && Divides(F, h, b) && IsSer(F, b) && IsSer(F, c) && DegreeAtMost(c, m)
    requires forall k: nat :: a(k) == Conv(F, b, c, k)
    ensures Divides(F, h, a)
  {
    hide Conv, F.Ok, Prod, Divides;
    DividesSer(F, h, b);
    var q, n := DividesElim(F, h, b);
    var p := Prod(F, c, q);
    forall k: nat ensures a(k) == Conv(F, p, h, k) {
      // b c = c (q h) = (c q) h
      ConvComm(F, b, c, k);
      forall i: nat | i <= k ensures c(i) == c(i) && b(i) == Prod(F, q, h)(i) { ProdAt(F, q, h, i); }
      ConvCong(F, c, c, b, Prod(F, q, h), k);
      ConvAssoc(F, c, q, h, k);
    }
    forall i: nat | i > m + n ensures p(i) == 0 {
      ProdAt(F, c, q, i);
      ConvDegree(F, c, m, q, n, i);
    }
    DividesIntro(F, h, a, p, m + n);
  }

  lemma {:induction false} DividesSer(F: Field, h: Ser, a: Ser)
    requires F.Ok() && Divides(F, h, a)
    ensures IsSer(F, h)
  {
  }

  lemma {:induction false} DividesElim(F: Field, h: Ser, a: Ser) returns (q: Ser, n: nat)
    requires F.Ok() && Divides(F, h, a) && IsSer(F, h)
    ensures IsSer(F, q) && DegreeAtMost(q, n) && forall k: nat :: a(k) == Conv(F, q, h, k)
  {
    hide Conv, F.Ok;
    q, n :| Cofactor(F, h, a, q, n);
  }

  lemma {:induction false} DividesSum(F: Field, h: Ser, a: Ser, b: Ser, c: Ser)
    requires F.Ok() && Divides(F, h, a) && Divides(F, h, b) && forall k: nat :: c(k) == Xor(a(k), b(k))
    ensures Divides(F, h, c)
  {
    hide Conv, F.Ok, Divides, Xor, Sum;
    DividesSer(F, h, a);
    var q, n := DividesElim(F, h, a);
    var p, m := DividesElim(F, h, b);
    SumIsSer(F, q, p);
    SumAt(F, q, p);
    forall k: nat ensures c(k) == Conv(F, Sum(q, p), h, k) { ConvAddLeft(F, q, p, h, k); }
    XorZero(0);
    DividesIntro(F, h, c, Sum(q, p), n + m);
  }

  lemma {:induction false} DividesSelf(F: Field, h: Ser)
    requires F.Ok() && IsSer(F, h)
    ensures Divides(F, h, h)
  {
    hide Conv, F.Ok, Divides, One;
    OneAt(F);
    forall k: nat ensures h(k) == Conv(F, One(F), h, k) { ConvOne(F, h, k); ConvComm(F, h, One(F), k); }
    DividesIntro(F, h, h, One(F), 0);
  }

  lemma {:induction false} DividesZero(F: Field, h: Ser, z: Ser)
    requires F.Ok() && IsSer(F, h) && forall k: nat :: z(k) == 0
    ensures Divides(F, h, z)
  {
    hide Conv, F.Ok, Divides;
    FieldShape(F);
    forall k: nat ensures z(k) == Conv(F, z, h, k) { ConvZero(F, z, h, k); }
    DividesIntro(F, h, z, z, 0);
  }

  /** A multiple of h by a scalar. */
  lemma {:induction false} DividesTimes(F: Field, h: Ser, k: nat, a: Ser)
    requires F.Ok() && F.El(k) && IsSer(F, a) && Divides(F, h, a)
    ensures Divides(F, h, Times(F, k, a))
  {
    hide Conv, F.Ok, Divides, Times;
    DividesSer(F, h, a);
    var q, n := DividesElim(F, h, a);
    forall i: nat ensures Times(F, k, a)(i) == Conv(F, Times(F, k, q), h, i) {
      ConvTimesLeft(F, k, q, h, i);
      TimesCoef(F, k, a, i);
    }
    forall i: nat | i > n ensures Times(F, k, q)(i) == 0 { TimesCoef(F, k, q, i); MulZero(F, k); }
    DividesIntro(F, h, Times(F, k, a), Times(F, k, q), n);
  }
}
