/** The simplified binary Berlekamp-Massey iteration: it finds a shortest polynomial that satisfies the
    identities given by the syndromes, or shows that none of degree at most t exists. */
module BerlekampMassey {
  import opened Gf2
  import opened GaloisField
  import opened FieldLaws
  import opened FieldPoly
  import opened PowerSeries
  import opened Newton

  /** The polynomial with coefficients c[0..d]. */
  ghost function SerTo(c: seq<nat>, d: nat): Ser {
    (i: nat) => if i <= d && i < |c| then c[i] else 0
  }

  /** The series 1 + S_1 X + S_2 X^2 + ... of a list of syndromes. */
  ghost function SynSer(syn: seq<nat>): Ser {
    (i: nat) => if i == 0 then 1 else if i <= |syn| then syn[i - 1] else 0
  }

  lemma {:induction false} SerToAt(c: seq<nat>, d: nat, i: nat)
    ensures SerTo(c, d)(i) == if i <= d && i < |c| then c[i] else 0
  {
  }

  lemma {:induction false} SynSerAt(syn: seq<nat>, i: nat)
    ensures SynSer(syn)(i) == if i == 0 then 1 else if i <= |syn| then syn[i - 1] else 0
  {
  }

  lemma {:induction false} SerToIsSer(F: Field, c: seq<nat>, d: nat)
    requires F.Ok() && IsPoly(F, c)
    ensures IsSer(F, SerTo(c, d)) && DegreeAtMost(SerTo(c, d), d)
  {
    hide F.Ok, Pow2;
    FieldShape(F);
  }

  lemma {:induction false} SynSerIsSer(F: Field, syn: seq<nat>)
    requires F.Ok() && IsPoly(F, syn)
    ensures IsSer(F, SynSer(syn)) && SynSer(syn)(0) == 1
  {
    hide F.Ok, Pow2;
    FieldShape(F);
  }

  // ----- multiplication by a power of X

  ghost function Shifted(k: nat, a: Ser): Ser {
    (n: nat) => if n < k then 0 else a(n - k)
  }

  lemma {:induction false} ShiftedAt(F: Field, k: nat, a: Ser)
    requires F.Ok() && IsSer(F, a)
    ensures IsSer(F, Shifted(k, a))
    ensures forall n: nat :: Shifted(k, a)(n) == if n < k then 0 else a(n - k)
    ensures k > 0 ==> forall n: nat :: Tail(Shifted(k, a))(n) == Shifted(k - 1, a)(n)
  {
    hide F.Ok, Pow2;
    FieldShape(F);
  }

  lemma {:induction false} ConvShifted(F: Field, u: Ser, k: nat, a: Ser, n: nat)
    requires F.Ok() && IsSer(F, u) && IsSer(F, a)
    ensures IsSer(F, Shifted(k, a))
    ensures Conv(F, Shifted(k, a), u, n) == if n < k then 0 else Conv(F, a, u, n - k)
    decreases k
  {
    hide *;
    var b := Shifted(k, a);
    ShiftedAt(F, k, a);
    if k == 0 {
      ConvCong(F, b, a, u, u, n);
    } else {
      ShiftedAt(F, k - 1, a);
      ConvStep(F, b, u, n);
      SerAt(F, u, n);
      SerAt(F, u, 0);
      MulZero(F, u(n));
      MulZero(F, u(0));
      if n > 0 {
        ConvCong(F, Tail(b), Shifted(k - 1, a), u, u, n - 1);
        ConvShifted(F, u, k - 1, a, n - 1);
        XorZero(Conv(F, Tail(b), u, n - 1));
      }
    }
  }

  // ----- one step

  /** What holds before step i: s of length l solves the first i identities and is a shortest solution;
      b of length lp is the solution before the last change of length, at pp, with discrepancy pd. */
  ghost predicate Inv(F: Field, u: Ser, s: Ser, l: nat, b: Ser, lp: nat, pd: nat, pp: int, i: nat)
    requires F.Ok()
  {
    && u(0) == 1 && Solves(F, u, s, l, 2 * i) && Minimal(F, u, l, 2 * i)
    && IsSer(F, b) && DegreeAtMost(b, lp) && F.El(pd) && pd != 0
    && -1 <= pp < 2 * i && l + lp == pp + 1 && (pp == -1 || pp % 2 == 0)
    && Conv(F, u, b, pp + 1) == pd
    && forall n: nat :: n < pp && n % 2 == 1 ==> Conv(F, u, b, n) == 0
  }

  /** s' = s + q X^k b, coefficient by coefficient. */
  ghost predicate IsUpdate(F: Field, s': Ser, s: Ser, q: nat, k: nat, b: Ser)
    requires F.Ok() && F.El(q) && IsSer(F, s) && IsSer(F, b)
  {
    && IsSer(F, s')
    && forall n: nat :: s'(n) == if n < k then s(n) else Xor(s(n), GfMul(F, q, b(n - k)))
  }

  lemma {:induction false} UpdateConv(F: Field, u: Ser, s': Ser, s: Ser, q: nat, k: nat, b: Ser, n: nat)
    requires F.Ok() && F.El(q) && IsSer(F, u) && IsSer(F, s) && IsSer(F, b) && IsUpdate(F, s', s, q, k, b)
    ensures IsSer(F, s')
    ensures n < k ==> Conv(F, u, s', n) == Conv(F, u, s, n)
    ensures n >= k ==> Conv(F, u, s', n) == Xor(Conv(F, u, s, n), GfMul(F, q, Conv(F, u, b, n - k)))
  {
    hide *;
    var x := Shifted(k, b);
    ShiftedAt(F, k, b);
    var y := Times(F, q, x);
    SumIsSer(F, s, y);
    UpdateSer(F, s', s, q, k, b);
    forall i: nat | i <= n ensures s'(i) == Sum(s, y)(i) && u(i) == u(i) { UpdateAt(F, s', s, q, k, b, i); }
    ConvComm(F, u, s', n);
    ConvComm(F, u, s, n);
    ConvCong(F, s', Sum(s, y), u, u, n);
    ConvAddLeft(F, s, y, u, n);
    ConvTimesLeft(F, q, x, u, n);
    ConvShifted(F, u, k, b, n);
    if n < k {
      MulZero(F, q);
      XorZero(Conv(F, s, u, n));
    } else {
      ConvComm(F, u, b, n - k);
    }
  }

  lemma {:induction false} UpdateSer(F: Field, s': Ser, s: Ser, q: nat, k: nat, b: Ser)
    requires F.Ok() && F.El(q) && IsSer(F, s) && IsSer(F, b) && IsUpdate(F, s', s, q, k, b)
    ensures IsSer(F, s')
  {
  }

  lemma {:induction false} UpdateDef(F: Field, s': Ser, s: Ser, q: nat, k: nat, b: Ser, i: nat)
    requires F.Ok() && F.El(q) && IsSer(F, s) && IsSer(F, b) && IsUpdate(F, s', s, q, k, b)
    ensures i < k ==> s'(i) == s(i)
    ensures i >= k ==> F.El(b(i - k)) && s'(i) == Xor(s(i), GfMul(F, q, b(i - k)))
  {
  }

  lemma {:induction false} UpdateAt(F: Field, s': Ser, s: Ser, q: nat, k: nat, b: Ser, i: nat)
    requires F.Ok() && F.El(q) && IsSer(F, s) && IsSer(F, b) && IsUpdate(F, s', s, q, k, b)
    ensures IsSer(F, Shifted(k, b)) && s'(i) == Sum(s, Times(F, q, Shifted(k, b)))(i)
  {
    hide *;
    UpdateDef(F, s', s, q, k, b, i);
    ShiftedAt(F, k, b);
    SumAt(F, s, Times(F, q, Shifted(k, b)));
    TimesCoef(F, q, Shifted(k, b), i);
    MulZero(F, q);
    XorZero(s(i));
  }

  /** The corrected polynomial satisfies one more identity. */
  lemma {:induction false} UpdateSolves(F: Field, u: Ser, s: Ser, l: nat, b: Ser, lp: nat, pd: nat, pp: int, i: nat,
                                        s': Ser, q: nat, l': nat)
    requires F.Ok() && Inv(F, u, s, l, b, lp, pd, pp, i) && F.El(q)
    requires GfMul(F, q, pd) == Conv(F, u, s, 2 * i + 1)
    requires IsUpdate(F, s', s, q, 2 * i - pp, b) && l' >= l && l' >= lp + 2 * i - pp
    ensures Solves(F, u, s', l', 2 * i + 2)
  {
    hide Xor, GfMul, F.Ok, Pow2, Conv;
    var k: nat := 2 * i - pp;
    forall n: nat | n < 2 * i + 2 && n % 2 == 1 ensures Conv(F, u, s', n) == 0 {
      UpdateConv(F, u, s', s, q, k, b, n);
      if n == 2 * i + 1 {
        XorSelf(Conv(F, u, s, n));
      } else if n >= k {
        MulZero(F, q);
        XorZero(0);
      }
    }
    MulZero(F, q);
    XorZero(0);
  }

  lemma {:induction false} SolvesFewer(F: Field, u: Ser, s: Ser, d: nat, n: nat, n': nat)
    requires F.Ok() && Solves(F, u, s, d, n) && n' <= n
    ensures Solves(F, u, s, d, n')
  {
  }

  lemma {:induction false} MinimalMore(F: Field, u: Ser, d: nat, n: nat, n': nat)
    requires F.Ok() && Minimal(F, u, d, n) && n <= n'
    ensures Minimal(F, u, d, n')
  {
    hide Solves;
    forall s: Ser, e: nat | Solves(F, u, s, e, n') ensures d <= e { SolvesFewer(F, u, s, e, n', n); }
  }

  lemma {:induction false} SolvesOdd(F: Field, u: Ser, s: Ser, d: nat, i: nat)
    requires F.Ok() && Solves(F, u, s, d, 2 * i)
    ensures Solves(F, u, s, d, 2 * i + 1)
    ensures Conv(F, u, s, 2 * i + 1) == 0 ==> Solves(F, u, s, d, 2 * i + 2)
  {
    hide Conv, F.Ok, Pow2;
  }

  /** After a step with a nonzero discrepancy every solution is at least as long as claimed. */
  lemma {:induction false} LongerIsMinimal(F: Field, u: Ser, s: Ser, l: nat, i: nat, l': nat)
    requires F.Ok() && u(0) == 1 && Solves(F, u, s, l, 2 * i) && Conv(F, u, s, 2 * i + 1) != 0
    requires l + l' == 2 * i + 1
    ensures Minimal(F, u, l', 2 * i + 2)
  {
    hide Solves, Conv, F.Ok, Pow2;
    SolvesOdd(F, u, s, l, i);
    var n := 2 * i + 2;
    forall t: Ser, e: nat | Solves(F, u, t, e, n) ensures l' <= e {
      DegreesAddUp(F, u, s, t, l, e, 2 * i + 1);
    }
  }

  lemma {:induction false} StepIdle(F: Field, u: Ser, s: Ser, l: nat, b: Ser, lp: nat, pd: nat, pp: int, i: nat)
    requires F.Ok() && Inv(F, u, s, l, b, lp, pd, pp, i) && Conv(F, u, s, 2 * i + 1) == 0
    ensures Inv(F, u, s, l, b, lp, pd, pp, i + 1)
  {
    hide Solves, Conv, F.Ok, Pow2, Minimal;
    SolvesOdd(F, u, s, l, i);
    MinimalMore(F, u, l, 2 * i, 2 * i + 2);
  }

  lemma {:induction false} StepSameLength(F: Field, u: Ser, s: Ser, l: nat, b: Ser, lp: nat, pd: nat, pp: int,
                                          i: nat, s': Ser, q: nat)
    requires F.Ok() && Inv(F, u, s, l, b, lp, pd, pp, i) && F.El(q)
    requires GfMul(F, q, pd) == Conv(F, u, s, 2 * i + 1)
    requires IsUpdate(F, s', s, q, 2 * i - pp, b) && lp + 2 * i - pp <= l
    ensures Inv(F, u, s', l, b, lp, pd, pp, i + 1)
  {
    hide Solves, Conv, F.Ok, Pow2, Minimal, GfMul, IsUpdate;
    UpdateSolves(F, u, s, l, b, lp, pd, pp, i, s', q, l);
    MinimalMore(F, u, l, 2 * i, 2 * i + 2);
  }

  lemma {:induction false} StepLonger(F: Field, u: Ser, s: Ser, l: nat, b: Ser, lp: nat, pd: nat, pp: int, i: nat,
                                      s': Ser, q: nat, d: nat, l': nat, b': Ser)
    requires F.Ok() && Inv(F, u, s, l, b, lp, pd, pp, i) && F.El(q) && F.El(d) && d != 0
    requires GfMul(F, q, pd) == d == Conv(F, u, s, 2 * i + 1)
    requires IsUpdate(F, s', s, q, 2 * i - pp, b) && l' == lp + 2 * i - pp > l
    requires IsSer(F, b') && forall n: nat :: b'(n) == s(n)
    ensures Inv(F, u, s', l', b', l, d, 2 * i, i + 1)
  {
    hide Conv, F.Ok, Pow2, Minimal, GfMul, IsUpdate;
    UpdateSolves(F, u, s, l, b, lp, pd, pp, i, s', q, l');
    LongerIsMinimal(F, u, s, l, i, l');
    forall n: nat ensures Conv(F, u, b', n) == Conv(F, u, s, n) {
      ConvCong(F, u, u, b', s, n);
    }
  }

  lemma {:induction false} InitInv(F: Field, u: Ser, s: Ser, b: Ser)
    requires F.Ok() && IsSer(F, u) && u(0) == 1 && IsSer(F, s) && IsSer(F, b)
    requires forall n: nat :: s(n) == b(n) == if n == 0 then 1 else 0
    ensures Inv(F, u, s, 0, b, 0, 1, -1, 0)
  {
    hide Conv, F.Ok, Pow2, GfMul;
    FieldShape(F);
    ConvStep(F, u, b, 0);
    MulOne(F, 1);
  }

  // ----- the method

  /** a_pow: a power of a by table, for any exponent. */
  method PowerOf(F: Field, i: nat) returns (x: nat)
    requires F.Ok() && F.m > 1
    ensures x == A(F, i)
  {
    ALookup(F, i);
    FieldShape(F);
    var r := Modulo(F.m, i);
    x := F.pow[r];
  }

  method CopyPoly(dst: array<nat>, src: array<nat>, deg: nat)
    requires deg < src.Length && deg < dst.Length && dst != src
    modifies dst
    ensures forall i :: 0 <= i <= deg ==> dst[i] == src[i]
    ensures forall i :: deg < i < dst.Length ==> dst[i] == old(dst[i])
  {
    for j := 0 to deg + 1
      invariant forall i :: 0 <= i < j ==> dst[i] == src[i]
      invariant forall i :: j <= i < dst.Length ==> dst[i] == old(dst[i])
    {
      dst[j] := src[j];
    }
  }

  /** Adds q X^k b to the polynomial in elp; the factor is given by its exponent. */
  method AddMultiple(F: Field, elp: array<nat>, pelp: array<nat>, lp: nat, e: nat, k: nat)
    requires F.Ok() && F.m > 1 && elp != pelp && lp < pelp.Length && lp + k < elp.Length
    requires IsPoly(F, elp[..]) && IsPoly(F, pelp[..])
    modifies elp
    ensures IsPoly(F, elp[..])
    ensures forall j :: 0 <= j < elp.Length ==>
              elp[j] == if k <= j <= lp + k then Xor(old(elp[j]), GfMul(F, A(F, e), pelp[j - k])) else old(elp[j])
  {
    ghost var was := elp[..];
    for j := 0 to lp + 1
      invariant IsPoly(F, elp[..])
      invariant forall x :: 0 <= x < elp.Length ==>
                  elp[x] == if k <= x < j + k then Xor(was[x], GfMul(F, A(F, e), pelp[x - k])) else was[x]
    {
      hide Xor, F.Ok, Pow2, A, GfMul;
      if pelp[j] != 0 {
        ALog(F, pelp[j]);
        var l := F.log[pelp[j]];
        var x := PowerOf(F, e + l);
        MulPowers(F, e, l);
        XorBound(elp[j + k], x, F.m);
        elp[j + k] := Xor(elp[j + k], x);
      } else {
        MulZero(F, A(F, e));
        XorZero(elp[j + k]);
      }
    }
  }

  ghost function Drop(a: Ser, j: nat): Ser {
    (i: nat) => a(i + j)
  }

  lemma {:induction false} DropAt(F: Field, a: Ser, j: nat)
    requires IsSer(F, a)
    ensures IsSer(F, Drop(a, j)) && forall i: nat :: Drop(a, j)(i) == a(i + j)
    ensures IsSer(F, Tail(Drop(a, j))) && forall i: nat :: Tail(Drop(a, j))(i) == a(i + j + 1)
  {
  }

  /** Taking one term off a coefficient of a product. */
  lemma {:induction false} ConvDrop(F: Field, a: Ser, b: Ser, n: nat, j: nat)
    requires F.Ok() && IsSer(F, a) && IsSer(F, b) && j < n
    ensures F.El(a(j)) && F.El(b(n - j)) && IsSer(F, Drop(a, j)) && IsSer(F, Drop(a, j + 1))
    ensures Conv(F, Drop(a, j), b, n - j) == Xor(GfMul(F, a(j), b(n - j)), Conv(F, Drop(a, j + 1), b, n - j - 1))
  {
    hide *;
    SerAt(F, a, j);
    SerAt(F, b, n - j);
    DropAt(F, a, j);
    DropAt(F, a, j + 1);
    ConvStep(F, Drop(a, j), b, n - j);
    ConvCong(F, Tail(Drop(a, j)), Drop(a, j + 1), b, b, n - j - 1);
  }

  lemma {:induction false} ConvDropNone(F: Field, a: Ser, b: Ser, n: nat)
    requires F.Ok() && IsSer(F, a) && IsSer(F, b)
    ensures IsSer(F, Drop(a, 0)) && Conv(F, Drop(a, 0), b, n) == Conv(F, b, a, n)
  {
    hide *;
    DropAt(F, a, 0);
    ConvCong(F, Drop(a, 0), a, b, b, n);
    ConvComm(F, a, b, n);
  }

  lemma {:induction false} ConvDropAll(F: Field, a: Ser, d: nat, b: Ser, n: nat)
    requires F.Ok() && IsSer(F, a) && IsSer(F, b) && DegreeAtMost(a, d)
    ensures IsSer(F, Drop(a, d + 1)) && Conv(F, Drop(a, d + 1), b, n) == 0
  {
    hide Conv, F.Ok, Pow2;
    DropAt(F, a, d + 1);
    ConvZero(F, Drop(a, d + 1), b, n);
  }

  /** The coefficient 2i + 3 of the product of the syndromes and the polynomial in elp. */
  method Discrepancy(F: Field, elp: array<nat>, l: nat, syn: seq<nat>, i: nat) returns (d: nat)
    requires F.Ok() && IsPoly(F, elp[..]) && IsPoly(F, syn) && l < elp.Length && elp[0] == 1
    requires 2 * i + 2 < |syn| && l <= 2 * i + 2
    ensures IsSer(F, SynSer(syn)) && IsSer(F, SerTo(elp[..], l))
    ensures d == Conv(F, SynSer(syn), SerTo(elp[..], l), 2 * i + 3)
  {
    hide Xor, GfMul, F.Ok, Conv, SynSer, SerTo, Drop, Pow2, IsSer;
    ghost var u, s, n := SynSer(syn), SerTo(elp[..], l), 2 * i + 3;
    SynSerIsSer(F, syn);
    SerToIsSer(F, elp[..], l);
    d := syn[2 * i + 2];
    ConvDropNone(F, s, u, n);
    ConvDrop(F, s, u, n, 0);
    SynSerAt(syn, n);
    SerToAt(elp[..], l, 0);
    MulOne(F, d);
    var j := 1;
    while j <= l
      invariant 1 <= j <= l + 1
      invariant F.El(d) && IsSer(F, Drop(s, j))
      invariant Xor(d, Conv(F, Drop(s, j), u, n - j)) == Conv(F, u, s, n)
    {
      ConvDrop(F, s, u, n, j);
      SynSerAt(syn, n - j);
      SerToAt(elp[..], l, j);
      var x := GfMul(F, elp[j], syn[2 * i + 2 - j]);
      XorAssoc(d, x, Conv(F, Drop(s, j + 1), u, n - j - 1));
      XorBound(d, x, F.m);
      d := Xor(d, x);
      j := j + 1;
    }
    ConvDropAll(F, s, l, u, n - l - 1);
    XorZero(d);
  }

  lemma {:induction false} Quotient(F: Field, d: nat, pd: nat)
    requires F.Ok() && F.El(d) && F.El(pd) && d != 0 && pd != 0
    ensures pd < |F.log| && d < |F.log| && F.log[pd] < F.N() && F.log[d] < F.N()
    ensures GfMul(F, A(F, F.log[d] + F.N() - F.log[pd]), pd) == d
  {
    hide GfMul, F.Ok, A, Pow2;
    LogEntry(F, d);
    LogEntry(F, pd);
    ALog(F, d);
    ALog(F, pd);
    MulPowers(F, F.log[d] + F.N() - F.log[pd], F.log[pd]);
    APeriod(F, F.log[d]);
  }

  lemma {:induction false} AfterUpdate(F: Field, c: seq<nat>, c': seq<nat>, l: nat, l': nat, p: seq<nat>, lp: nat,
                                       q: nat, k: nat)
    requires F.Ok() && F.El(q) && IsPoly(F, c) && IsPoly(F, c') && IsPoly(F, p) && |c| == |c'|
    requires lp < |p| && l < |c| && l' < |c| && lp + k <= l' && l <= l'
    requires forall j :: l < j < |c| ==> c[j] == 0
    requires forall j :: 0 <= j < |c| ==>
               c'[j] == if k <= j <= lp + k then Xor(c[j], GfMul(F, q, p[j - k])) else c[j]
    ensures IsSer(F, SerTo(c, l)) && IsSer(F, SerTo(p, lp))
    ensures IsUpdate(F, SerTo(c', l'), SerTo(c, l), q, k, SerTo(p, lp))
    ensures forall j :: l' < j < |c| ==> c'[j] == 0
  {
    hide Xor, GfMul, F.Ok, Pow2;
    SerToIsSer(F, c, l);
    SerToIsSer(F, c', l');
    SerToIsSer(F, p, lp);
    MulZero(F, q);
    var s', s, b := SerTo(c', l'), SerTo(c, l), SerTo(p, lp);
    forall n: nat ensures s'(n) == if n < k then s(n) else Xor(s(n), GfMul(F, q, b(n - k))) {
      XorZero(s(n));
    }
  }

  /** The arrays and lengths hold a state of the iteration. */
  ghost predicate State(F: Field, u: Ser, c: seq<nat>, l: nat, p: seq<nat>, lp: nat, pd: nat, pp: int, i: nat)
    requires F.Ok()
  {
    && IsPoly(F, c) && IsPoly(F, p) && l < |c| && lp < |p| && c[0] == 1
    && (forall j :: l < j < |c| ==> c[j] == 0)
    && IsSer(F, u) && Inv(F, u, SerTo(c, l), l, SerTo(p, lp), lp, pd, pp, i)
  }

  /** One correction: adds the multiple of the earlier polynomial that cancels the discrepancy d, and
      remembers the polynomial it replaces when the length grows. */
  method Correct(F: Field, ghost u: Ser, elp: array<nat>, pelp: array<nat>, copy: array<nat>, l: nat, lp: nat,
                 pd: nat, pp: int, d: nat, i: nat)
    returns (l': nat, lp': nat, pd': nat, pp': int)
    requires F.Ok() && F.m > 1 && elp != pelp && elp != copy && pelp != copy
    requires elp.Length == pelp.Length == copy.Length && 2 * i + 1 < elp.Length
    requires State(F, u, elp[..], l, pelp[..], lp, pd, pp, i) && F.El(d) && d != 0
    requires IsSer(F, SerTo(elp[..], l)) && d == Conv(F, u, SerTo(elp[..], l), 2 * i + 1)
    modifies elp, pelp, copy
    ensures State(F, u, elp[..], l', pelp[..], lp', pd', pp', i + 1)
  {
    hide Xor, GfMul, F.Ok, Pow2, Conv, A, SerTo, Inv, Minimal, Solves, IsUpdate;
    ghost var c, p := elp[..], pelp[..];
    ghost var s, b := SerTo(c, l), SerTo(p, lp);
    InvFacts(F, u, s, l, b, lp, pd, pp, i);
    l', lp', pd', pp' := l, lp, pd, pp;
    var k: nat := 2 * i - pp;
    CopyPoly(copy, elp, l);
    Quotient(F, d, pd);
    var e := F.log[d] + F.N() - F.log[pd];
    ghost var q := A(F, e);
    AddMultiple(F, elp, pelp, lp, e, k);
    ghost var c' := elp[..];
    var tmp := lp + k;
    AfterUpdate(F, c, c', l, if tmp > l then tmp else l, p, lp, q, k);
    if tmp > l {
      CopyPoly(pelp, copy, l);
      ghost var p' := pelp[..];
      Copied(F, c, p', l);
      StepLonger(F, u, s, l, b, lp, pd, pp, i, SerTo(c', tmp), q, d, tmp, SerTo(p', l));
      l', lp', pd', pp' := tmp, l, d, 2 * i;
      assert elp[..] == c';
    } else {
      StepSameLength(F, u, s, l, b, lp, pd, pp, i, SerTo(c', l), q);
    }
  }

  lemma {:induction false} StateIdle(F: Field, u: Ser, c: seq<nat>, l: nat, p: seq<nat>, lp: nat, pd: nat, pp: int,
                                     i: nat)
    requires F.Ok() && State(F, u, c, l, p, lp, pd, pp, i)
    requires IsSer(F, SerTo(c, l)) && Conv(F, u, SerTo(c, l), 2 * i + 1) == 0
    ensures State(F, u, c, l, p, lp, pd, pp, i + 1)
  {
    hide F.Ok, Pow2, Conv, SerTo, Inv;
    StepIdle(F, u, SerTo(c, l), l, SerTo(p, lp), lp, pd, pp, i);
  }

  lemma {:induction false} StateFacts(F: Field, u: Ser, c: seq<nat>, l: nat, p: seq<nat>, lp: nat, pd: nat, pp: int,
                                      i: nat)
    requires F.Ok() && State(F, u, c, l, p, lp, pd, pp, i)
    ensures l < |c| && IsPoly(F, c) && c[0] == 1 && IsSer(F, u) && IsSer(F, SerTo(c, l)) && l <= 2 * i
  {
    hide F.Ok, Pow2, Conv, SerTo, Inv;
    InvFacts(F, u, SerTo(c, l), l, SerTo(p, lp), lp, pd, pp, i);
  }

  /** Finds in elp a shortest polynomial solving the 2t identities of the syndromes; a negative result
      means that no polynomial of degree at most t solves them. */
  method ComputeErrorLocatorPolynomial(F: Field, t: nat, syn: seq<nat>, elp: array<nat>) returns (deg: int)
    requires F.Ok() && F.m > 1 && t > 0 && |syn| == 2 * t && IsPoly(F, syn) && elp.Length == 2 * t + 1
    modifies elp
    ensures IsSer(F, SynSer(syn)) && IsPoly(F, elp[..])
    ensures deg >= 0 ==> deg <= t && Solves(F, SynSer(syn), SerTo(elp[..], deg), deg, 2 * t)
                         && Minimal(F, SynSer(syn), deg, 2 * t)
    ensures deg < 0 ==> deg == -1 && Minimal(F, SynSer(syn), t + 1, 2 * t)
  {
    hide Xor, GfMul, F.Ok, Pow2, Conv, A, SynSer, SerTo, State, Minimal, Solves, IsPoly;
    ghost var u := SynSer(syn);
    var pelp, copy := new nat[2 * t + 1](_ => 0), new nat[2 * t + 1];
    forall x | 0 <= x < elp.Length { elp[x] := 0; }
    var l: nat, lp: nat, pd: nat, d: nat, pp: int := 0, 0, 1, syn[0], -1;
    pelp[0], elp[0] := 1, 1;
    Start(F, syn, elp[..], pelp[..]);
    var i := 0;
    while i < t && l <= t
      invariant 0 <= i <= t
      invariant State(F, u, elp[..], l, pelp[..], lp, pd, pp, i)
      invariant IsSer(F, u) && IsSer(F, SerTo(elp[..], l))
      invariant i < t ==> d == Conv(F, u, SerTo(elp[..], l), 2 * i + 1)
    {
      if d != 0 {
        l, lp, pd, pp := Correct(F, u, elp, pelp, copy, l, lp, pd, pp, d, i);
      } else {
        StateIdle(F, u, elp[..], l, pelp[..], lp, pd, pp, i);
      }
      StateFacts(F, u, elp[..], l, pelp[..], lp, pd, pp, i + 1);
      if i < t - 1 {
        d := Discrepancy(F, elp, l, syn, i);
      }
      i := i + 1;
    }
    StateFacts(F, u, elp[..], l, pelp[..], lp, pd, pp, i);
    Finish(F, u, elp[..], l, pelp[..], lp, pd, pp, i, t);
    deg := if l > t then -1 else l;
  }

  lemma {:induction false} Start(F: Field, syn: seq<nat>, c: seq<nat>, p: seq<nat>)
    requires F.Ok() && IsPoly(F, syn) && |syn| >= 1 && |c| == |p| >= 1
    requires c[0] == 1 == p[0] && forall j :: 0 < j < |c| ==> c[j] == 0 == p[j]
    ensures State(F, SynSer(syn), c, 0, p, 0, 1, -1, 0)
    ensures IsSer(F, SynSer(syn)) && IsSer(F, SerTo(c, 0)) && syn[0] == Conv(F, SynSer(syn), SerTo(c, 0), 1)
  {
    hide Xor, GfMul, F.Ok, Pow2, Conv, Inv;
    FieldShape(F);
    SynSerIsSer(F, syn);
    SerToIsSer(F, c, 0);
    SerToIsSer(F, p, 0);
    var u, s := SynSer(syn), SerTo(c, 0);
    InitInv(F, u, s, SerTo(p, 0));
    ConvDropNone(F, s, u, 1);
    ConvDrop(F, s, u, 1, 0);
    ConvDropAll(F, s, 0, u, 0);
    MulOne(F, syn[0]);
    XorZero(syn[0]);
  }

  lemma {:induction false} InvFacts(F: Field, u: Ser, s: Ser, l: nat, b: Ser, lp: nat, pd: nat, pp: int, i: nat)
    requires F.Ok() && Inv(F, u, s, l, b, lp, pd, pp, i)
    ensures F.El(pd) && pd != 0 && -1 <= pp < 2 * i && l + lp == pp + 1 && IsSer(F, s)
  {
  }

  lemma {:induction false} Copied(F: Field, c: seq<nat>, p: seq<nat>, l: nat)
    requires F.Ok() && IsPoly(F, c) && l < |c| && l < |p| && IsPoly(F, p)
    requires forall j :: 0 <= j <= l ==> c[j] == p[j]
    ensures IsSer(F, SerTo(p, l)) && forall n: nat :: SerTo(p, l)(n) == SerTo(c, l)(n)
  {
    hide F.Ok, Pow2;
    SerToIsSer(F, p, l);
  }

  lemma {:induction false} Finish(F: Field, u: Ser, c: seq<nat>, l: nat, p: seq<nat>, lp: nat, pd: nat, pp: int,
                                  i: nat, t: nat)
    requires F.Ok() && State(F, u, c, l, p, lp, pd, pp, i) && i <= t && (i < t ==> l > t)
    ensures l <= t ==> Solves(F, u, SerTo(c, l), l, 2 * t) && Minimal(F, u, l, 2 * t)
    ensures l > t ==> Minimal(F, u, t + 1, 2 * t)
  {
    hide F.Ok, Pow2, Solves, Conv, SerTo;
    MinimalMore(F, u, l, 2 * i, 2 * t);
  }
}
