/** The identities that an error locator polynomial satisfies, and what they determine. Syndromes S_1, S_2, ... are
    put in the series U = 1 + S_1 X + S_2 X^2 + ...; a polynomial s with constant term 1 satisfies the first
    identities when the product U s has no term of odd degree up to a bound. */
module Newton {
  import opened Gf2
  import opened GaloisField
  import opened FieldLaws
  import opened PowerSeries

  /** s, of degree at most d, satisfies the identities of odd index below n. */
  ghost predicate Solves(F: Field, u: Ser, s: Ser, d: nat, n: nat)
    requires F.Ok()
  {
    && IsSer(F, u) && IsSer(F, s) && s(0) == 1 && DegreeAtMost(s, d)
    && forall k: nat :: k < n && k % 2 == 1 ==> Conv(F, u, s, k) == 0
  }

  /** No solution has a smaller degree bound than d. */
  ghost predicate Minimal(F: Field, u: Ser, d: nat, n: nat)
    requires F.Ok()
  {
    forall s: Ser, e: nat :: Solves(F, u, s, e, n) ==> d <= e
  }

  lemma {:induction false} ConvLeftComm(F: Field, a: Ser, b: Ser, c: Ser, n: nat)
    requires F.Ok() && IsSer(F, a) && IsSer(F, b) && IsSer(F, c)
    ensures Conv(F, a, Prod(F, b, c), n) == Conv(F, b, Prod(F, a, c), n)
  {
    hide *;
    ConvAssoc(F, a, b, c, n);
    ConvAssoc(F, b, a, c, n);
    forall i: nat | i <= n ensures Prod(F, a, b)(i) == Prod(F, b, a)(i) && c(i) == c(i) {
      ProdAt(F, a, b, i);
      ProdAt(F, b, a, i);
      ConvComm(F, a, b, i);
    }
    ConvCong(F, Prod(F, a, b), Prod(F, b, a), c, c, n);
  }

  /** t (U s) = s (U t). */
  lemma {:induction false} Exchange(F: Field, u: Ser, s: Ser, t: Ser, n: nat)
    requires F.Ok() && IsSer(F, u) && IsSer(F, s) && IsSer(F, t)
    ensures Conv(F, t, Prod(F, u, s), n) == Conv(F, s, Prod(F, u, t), n)
  {
    hide *;
    forall i: nat | i <= n ensures t(i) == t(i) && Prod(F, u, s)(i) == Prod(F, s, u)(i) {
      ProdAt(F, u, s, i);
      ProdAt(F, s, u, i);
      ConvComm(F, u, s, i);
    }
    ConvCong(F, t, t, Prod(F, u, s), Prod(F, s, u), n);
    ConvLeftComm(F, t, s, u, n);
    forall i: nat | i <= n ensures s(i) == s(i) && Prod(F, u, t)(i) == Prod(F, t, u)(i) {
      ProdAt(F, u, t, i);
      ProdAt(F, t, u, i);
      ConvComm(F, u, t, i);
    }
    ConvCong(F, s, s, Prod(F, u, t), Prod(F, t, u), n);
  }

  lemma {:induction false} EvenAt(a: Ser, i: nat)
    ensures Even(a)(i) == if i % 2 == 0 then a(i) else 0
    ensures Odd(a)(i) == if i % 2 == 1 then a(i) else 0
  {
  }

  lemma {:induction false} EvenParity(a: Ser, n: nat)
    ensures ParityUpTo(Even(a), 0, n) && ParityUpTo(Odd(a), 1, n)
  {
  }

  /** t times a series w whose odd part vanishes below n: only the even part of w and the term of
      degree n matter. */
  lemma {:induction false} ProductWithEven(F: Field, t: Ser, w: Ser, n: nat, k: nat)
    requires F.Ok() && IsSer(F, t) && IsSer(F, w) && t(0) == 1 && n % 2 == 1 && k <= n
    requires forall i: nat :: i < n && i % 2 == 1 ==> w(i) == 0
    ensures IsSer(F, Even(t)) && IsSer(F, Odd(t)) && IsSer(F, Even(w))
    ensures k % 2 == 0 ==> Conv(F, t, w, k) == Conv(F, Even(t), Even(w), k) && Conv(F, Odd(t), Even(w), k) == 0
    ensures k % 2 == 1 ==> Conv(F, t, w, k) == Xor(Conv(F, Odd(t), Even(w), k), if k == n then w(n) else 0)
                           && Conv(F, Even(t), Even(w), k) == 0
  {
    hide Xor, GfMul, F.Ok, Conv, Even, Odd;
    PartsAreSer(F, t);
    PartsAreSer(F, w);
    var we, wo := Even(w), Odd(w);
    forall i: nat | i < n ensures wo(i) == 0 { EvenAt(w, i); }
    EvenAt(w, n);
    ConvComm(F, t, w, k);
    ConvSplit(F, w, t, k);
    ConvComm(F, we, t, k);
    if k < n {
      ConvZero(F, wo, t, k);
    } else {
      ConvLeading(F, wo, t, k);
      MulOne(F, w(n));
    }
    ConvSplit(F, t, we, k);
    EvenParity(t, k);
    EvenParity(w, k);
    var x := Conv(F, t, we, k);
    XorZero(x);
    if k % 2 == 0 {
      ConvParity(F, Odd(t), 1, we, 0, k);
      XorZero(Conv(F, Even(t), we, k));
    } else {
      ConvParity(F, Even(t), 0, we, 0, k);
      XorZero(Conv(F, Odd(t), we, k));
    }
  }

  /** The cross product of the even and odd parts of two polynomials. */
  ghost function Cross(F: Field, s: Ser, t: Ser): (w: Ser)
    requires F.Ok() && IsSer(F, s) && IsSer(F, t)
    ensures IsSer(F, w)
  {
    PartsAreSer(F, s);
    PartsAreSer(F, t);
    SumIsSer(F, Prod(F, Even(s), Odd(t)), Prod(F, Odd(s), Even(t)));
    Sum(Prod(F, Even(s), Odd(t)), Prod(F, Odd(s), Even(t)))
  }

  /** If s and t both satisfy the identities below an odd n, their cross product vanishes below n, and at
      n it is the sum of their two discrepancies. */
  lemma {:induction false} CrossVanishes(F: Field, u: Ser, s: Ser, t: Ser, d: nat, e: nat, n: nat)
    requires F.Ok() && u(0) == 1 && n % 2 == 1 && Solves(F, u, s, d, n) && Solves(F, u, t, e, n)
    ensures forall i: nat :: i < n ==> Cross(F, s, t)(i) == 0
    ensures Cross(F, s, t)(n) == Xor(Conv(F, u, s, n), Conv(F, u, t, n))
  {
    hide Xor, GfMul, F.Ok, Conv, Even, Odd, Prod, Sum, Cross;
    PartsAreSer(F, s);
    PartsAreSer(F, t);
    var w, w' := Prod(F, u, s), Prod(F, u, t);
    PartsAreSer(F, w);
    var we := Even(w);
    var x := Cross(F, s, t);
    forall i: nat | i <= n
      ensures Conv(F, we, x, i) == if i < n then 0 else Xor(Conv(F, u, s, n), Conv(F, u, t, n))
    {
      CrossTimesEven(F, u, s, t, d, e, n, i);
    }
    EvenAt(w, 0);
    ProdAt(F, u, s, 0);
    ConvStep(F, u, s, 0);
    MulOne(F, 1);
    UnitCancel(F, we, x, n);
  }

  lemma {:induction false} CrossTimesEven(F: Field, u: Ser, s: Ser, t: Ser, d: nat, e: nat, n: nat, i: nat)
    requires F.Ok() && u(0) == 1 && n % 2 == 1 && i <= n && Solves(F, u, s, d, n) && Solves(F, u, t, e, n)
    ensures IsSer(F, Even(Prod(F, u, s)))
    ensures Conv(F, Even(Prod(F, u, s)), Cross(F, s, t), i)
         == if i < n then 0 else Xor(Conv(F, u, s, n), Conv(F, u, t, n))
  {
    hide Xor, GfMul, F.Ok, Conv, Even, Odd, Prod, Sum, Cross;
    var w, w' := Prod(F, u, s), Prod(F, u, t);
    PartsAreSer(F, s);
    PartsAreSer(F, t);
    PartsAreSer(F, w);
    PartsAreSer(F, w');
    var se, so, te, to, we, we' := Even(s), Odd(s), Even(t), Odd(t), Even(w), Even(w');
    var A, B := Prod(F, to, we), Prod(F, so, we');
    CrossExpand(F, s, t, we, i);
    // we (so te) = so (te we) = so (se we') = se (so we')
    forall k: nat | k <= i ensures so(k) == so(k) && Prod(F, te, we)(k) == Prod(F, se, we')(k) {
      Parts(F, u, s, t, d, e, n, k);
    }
    ConvCong(F, so, so, Prod(F, te, we), Prod(F, se, we'), i);
    ConvLeftComm(F, so, se, we', i);
    SumIsSer(F, A, B);
    forall k: nat | k <= i
      ensures Sum(A, B)(k) == if k < n then 0 else Xor(Conv(F, u, s, n), Conv(F, u, t, n))
    {
      Parts(F, u, s, t, d, e, n, k);
      SumAt(F, A, B);
    }
    ConvAddRight(F, se, A, B, i);
    ConvComm(F, se, Sum(A, B), i);
    EvenAt(s, 0);
    if i < n {
      ConvZero(F, Sum(A, B), se, i);
    } else {
      ConvLeading(F, Sum(A, B), se, i);
      MulOne(F, Sum(A, B)(i));
    }
  }

  lemma {:induction false} ConvAddRight(F: Field, a: Ser, b: Ser, c: Ser, n: nat)
    requires F.Ok() && IsSer(F, a) && IsSer(F, b) && IsSer(F, c)
    ensures IsSer(F, Sum(b, c)) && Conv(F, a, Sum(b, c), n) == Xor(Conv(F, a, b, n), Conv(F, a, c, n))
  {
    hide *;
    ConvAddLeft(F, b, c, a, n);
    ConvComm(F, a, Sum(b, c), n);
    ConvComm(F, a, b, n);
    ConvComm(F, a, c, n);
  }

  lemma {:induction false} CrossExpand(F: Field, s: Ser, t: Ser, v: Ser, n: nat)
    requires F.Ok() && IsSer(F, s) && IsSer(F, t) && IsSer(F, v)
    ensures IsSer(F, Even(s)) && IsSer(F, Odd(s)) && IsSer(F, Even(t)) && IsSer(F, Odd(t))
    ensures Conv(F, v, Cross(F, s, t), n)
         == Xor(Conv(F, Even(s), Prod(F, Odd(t), v), n), Conv(F, Odd(s), Prod(F, Even(t), v), n))
  {
    hide Xor, GfMul, F.Ok, Conv, Even, Odd, Prod, Sum;
    PartsAreSer(F, s);
    PartsAreSer(F, t);
    var se, so, te, to := Even(s), Odd(s), Even(t), Odd(t);
    ConvAddRight(F, v, Prod(F, se, to), Prod(F, so, te), n);
    Rotate(F, v, se, to, n);
    Rotate(F, v, so, te, n);
  }

  /** v (a b) = a (b v). */
  lemma {:induction false} Rotate(F: Field, v: Ser, a: Ser, b: Ser, n: nat)
    requires F.Ok() && IsSer(F, v) && IsSer(F, a) && IsSer(F, b)
    ensures Conv(F, v, Prod(F, a, b), n) == Conv(F, a, Prod(F, b, v), n)
  {
    hide *;
    ConvLeftComm(F, v, a, b, n);
    forall i: nat | i <= n ensures a(i) == a(i) && Prod(F, v, b)(i) == Prod(F, b, v)(i) {
      ProdAt(F, v, b, i);
      ProdAt(F, b, v, i);
      ConvComm(F, v, b, i);
    }
    ConvCong(F, a, a, Prod(F, v, b), Prod(F, b, v), n);
  }

  /** The even and the odd coefficients of the identity t (U s) = s (U t). */
  lemma {:induction false} Parts(F: Field, u: Ser, s: Ser, t: Ser, d: nat, e: nat, n: nat, k: nat)
    requires F.Ok() && u(0) == 1 && n % 2 == 1 && k <= n && Solves(F, u, s, d, n) && Solves(F, u, t, e, n)
    ensures IsSer(F, Even(s)) && IsSer(F, Odd(s)) && IsSer(F, Even(t)) && IsSer(F, Odd(t))
    ensures var w, w' := Prod(F, u, s), Prod(F, u, t);
            && IsSer(F, Even(w)) && IsSer(F, Even(w'))
            && Prod(F, Even(t), Even(w))(k) == Prod(F, Even(s), Even(w'))(k)
            && Xor(Prod(F, Odd(t), Even(w))(k), Prod(F, Odd(s), Even(w'))(k))
               == if k < n then 0 else Xor(Conv(F, u, s, n), Conv(F, u, t, n))
  {
    hide Xor, GfMul, F.Ok, Conv, Even, Odd, Prod;
    var w, w' := Prod(F, u, s), Prod(F, u, t);
    forall i: nat | i < n && i % 2 == 1 ensures w(i) == 0 && w'(i) == 0 {
      ProdAt(F, u, s, i);
      ProdAt(F, u, t, i);
    }
    ProdAt(F, u, s, n);
    ProdAt(F, u, t, n);
    Exchange(F, u, s, t, k);
    ProductWithEven(F, t, w, n, k);
    ProductWithEven(F, s, w', n, k);
    ProdAt(F, Even(t), Even(w), k);
    ProdAt(F, Even(s), Even(w'), k);
    ProdAt(F, Odd(t), Even(w), k);
    ProdAt(F, Odd(s), Even(w'), k);
    var a, b := Conv(F, Odd(t), Even(w), k), Conv(F, Odd(s), Even(w'), k);
    if k % 2 == 0 {
      XorZero(0);
    } else {
      var x, y := if k == n then w(n) else 0, if k == n then w'(n) else 0;
      Balance(a, x, b, y);
      XorZero(0);
    }
  }

  lemma {:induction false} Balance(a: nat, x: nat, b: nat, y: nat)
    requires Xor(a, x) == Xor(b, y)
    ensures Xor(a, b) == Xor(x, y)
  {
    hide Xor;
    XorSwap4(a, x, b, y);
    XorSelf(Xor(a, x));
    XorEqualZero(Xor(a, b), Xor(x, y));
  }

  lemma {:induction false} CrossDegree(F: Field, s: Ser, d: nat, t: Ser, e: nat, n: nat)
    requires F.Ok() && IsSer(F, s) && IsSer(F, t) && DegreeAtMost(s, d) && DegreeAtMost(t, e) && n > d + e
    ensures Cross(F, s, t)(n) == 0
  {
    hide Xor, GfMul, F.Ok, Conv;
    PartsAreSer(F, s);
    PartsAreSer(F, t);
    ConvDegree(F, Even(s), d, Odd(t), e, n);
    ConvDegree(F, Odd(s), d, Even(t), e, n);
    XorZero(0);
  }

  /** If s stops solving at n while t still does, their degrees add up to n at least. */
  lemma {:induction false} DegreesAddUp(F: Field, u: Ser, s: Ser, t: Ser, d: nat, e: nat, n: nat)
    requires F.Ok() && u(0) == 1 && n % 2 == 1 && Solves(F, u, s, d, n) && Solves(F, u, t, e, n + 1)
    requires Conv(F, u, s, n) != 0
    ensures n <= d + e
  {
    hide Xor, GfMul, F.Ok, Conv, Cross;
    CrossVanishes(F, u, s, t, d, e, n);
    XorZero(Conv(F, u, s, n));
    if n > d + e {
      CrossDegree(F, s, d, t, e, n);
    }
  }

  lemma {:induction false} CrossIsOdd(F: Field, s: Ser, t: Ser, k: nat)
    requires F.Ok() && IsSer(F, s) && IsSer(F, t) && k % 2 == 0
    ensures Cross(F, s, t)(k) == 0
  {
    hide Xor, GfMul, F.Ok, Conv, Even, Odd;
    PartsAreSer(F, s);
    PartsAreSer(F, t);
    EvenParity(s, k);
    EvenParity(t, k);
    ConvParity(F, Even(s), 0, Odd(t), 1, k);
    ConvParity(F, Odd(s), 1, Even(t), 0, k);
    XorZero(0);
  }

  lemma {:induction false} CrossZeroOdd(F: Field, u: Ser, s: Ser, t: Ser, d: nat, e: nat, n: nat, k: nat)
    requires F.Ok() && u(0) == 1 && n % 2 == 0 && k < n && Solves(F, u, s, d, n) && Solves(F, u, t, e, n)
    ensures Cross(F, s, t)(k) == 0
  {
    hide Xor, GfMul, F.Ok, Conv, Cross;
    CrossVanishes(F, u, s, t, d, e, n - 1);
    XorZero(0);
  }

  /** Two solutions of all identities below n, of degrees adding up to at most n, have a zero cross
      product. */
  lemma {:induction false} CrossZero(F: Field, u: Ser, s: Ser, t: Ser, d: nat, e: nat, n: nat, k: nat)
    requires F.Ok() && u(0) == 1 && n % 2 == 0 && d + e <= n && Solves(F, u, s, d, n) && Solves(F, u, t, e, n)
    ensures Cross(F, s, t)(k) == 0
  {
    hide Xor, GfMul, F.Ok, Conv, Cross;
    if k > d + e {
      CrossDegree(F, s, d, t, e, k);
    } else if k % 2 == 0 {
      CrossIsOdd(F, s, t, k);
    } else {
      CrossZeroOdd(F, u, s, t, d, e, n, k);
    }
  }
}
