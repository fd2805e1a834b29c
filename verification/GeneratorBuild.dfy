/** The loops that compute the generator polynomial: mark the roots, multiply the factors in place,
    store the coefficients left-justified in words. */
module GeneratorBuild {
  import opened Gf2
  import opened GaloisField
  import opened FieldLaws
  import opened FieldPoly
  import opened Generator
  import opened Words
  import opened Encoder
  import opened RemainderTables

  lemma {:induction false} CountSet(f: seq<bool>, k: nat)
    requires k < |f|
    ensures Count(f) <= Count(f[k := true]) <= Count(f) + 1
  {
    var n := |f| - 1;
    var f' := f[k := true];
    if k < n {
      assert f'[..n] == f[..n][k := true];
      CountSet(f[..n], k);
    } else {
      assert f'[..n] == f[..n];
    }
  }

  lemma {:induction false} CountNone(f: seq<bool>)
    requires forall i :: 0 <= i < |f| ==> !f[i]
    ensures Count(f) == 0
  {
    if f != [] {
      CountNone(f[..|f| - 1]);
    }
  }

  lemma {:induction false} CountPrefix(f: seq<bool>, k: nat)
    requires k <= |f|
    ensures Count(f[..k]) <= Count(f)
  {
    if k == |f| {
      assert f[..k] == f;
    } else {
      var n := |f| - 1;
      CountPrefix(f[..n], k);
      assert f[..n][..k] == f[..k];
    }
  }

  /** Exponent k has been marked when the loops have reached (i, j). */
  ghost predicate Marked(n: nat, m: nat, t: nat, i: nat, j: nat, k: nat)
    requires 2 * t <= n
  {
    exists r, h :: 0 <= r < 2 * t && r % 2 == 1 && 0 <= h < m && (r < 2 * i || (r == 2 * i + 1 && h < j))
                   && k == Doubled(n, r, h)
  }

  ghost predicate MarkedUpTo(roots: seq<bool>, m: nat, t: nat, i: nat, j: nat)
    requires 2 * t <= |roots|
  {
    forall k :: 0 <= k < |roots| ==> (roots[k] <==> Marked(|roots|, m, t, i, j, k))
  }

  /** Mark the exponents 2i+1, 2(2i+1), 4(2i+1), ... modulo n. */
  method MarkCoset(m: nat, t: nat, i: nat, roots: array<bool>)
    requires roots.Length == Order(m) + 1 && 2 * t <= Order(m) && i < t
    requires MarkedUpTo(roots[..Order(m)], m, t, i, 0)
    modifies roots
    ensures MarkedUpTo(roots[..Order(m)], m, t, i, m)
    ensures Count(roots[..Order(m)]) <= old(Count(roots[..Order(m)])) + m
  {
    hide Pow2, Marked, Count, Order;
    var n := Order(m);
    var j, r := 0, 2 * i + 1;
    while j < m
      invariant 0 <= j <= m && r < n && r == Doubled(n, 2 * i + 1, j)
      invariant MarkedUpTo(roots[..n], m, t, i, j)
      invariant Count(roots[..n]) <= old(Count(roots[..n])) + j
    {
      ghost var f := roots[..n];
      CountSet(f, r);
      roots[r] := true;
      assert roots[..n] == f[r := true];
      forall k | 0 <= k < n ensures roots[..n][k] <==> Marked(n, m, t, i, j + 1, k) {
        MarkedStep(n, m, t, i, j, k);
      }
      r := ModS(n, 2 * r);
      j := j + 1;
    }
  }

  method MarkRoots(m: nat, t: nat) returns (roots: array<bool>)
    requires m > 0 && 2 * t <= Order(m)
    ensures fresh(roots) && roots.Length == Order(m) + 1
    ensures roots[..Order(m)] == GenFlags(m, t)
    ensures Count(roots[..Order(m)]) <= m * t
  {
    hide Pow2, Marked, Count, Order, InCoset;
    var n := Order(m);
    roots := new bool[n + 1](_ => false);
    CountNone(roots[..n]);
    forall k | 0 <= k < n ensures !Marked(n, m, t, 0, 0, k) { MarkedNone(n, m, t, k); }
    var i := 0;
    while i < t
      invariant 0 <= i <= t
      invariant MarkedUpTo(roots[..n], m, t, i, 0)
      invariant Count(roots[..n]) <= m * i
    {
      MarkCoset(m, t, i, roots);
      forall k | 0 <= k < n ensures roots[..n][k] <==> Marked(n, m, t, i + 1, 0, k) {
        MarkedRow(n, m, t, i, k);
      }
      NextMultiple(m, i);
      i := i + 1;
    }
    forall k | 0 <= k < n ensures roots[..n][k] == InCoset(n, m, t, k) {
      MarkedAll(n, m, t, k);
    }
  }

  lemma {:induction false} NextMultiple(m: nat, i: nat)
    ensures m * (i + 1) == m * i + m
  {
  }

  lemma {:induction false} MarkedNone(n: nat, m: nat, t: nat, k: nat)
    requires 2 * t <= n
    ensures !Marked(n, m, t, 0, 0, k)
  {
  }

  lemma {:induction false} MarkedStep(n: nat, m: nat, t: nat, i: nat, j: nat, k: nat)
    requires 2 * t <= n && i < t && j < m
    ensures Marked(n, m, t, i, j + 1, k) <==> Marked(n, m, t, i, j, k) || k == Doubled(n, 2 * i + 1, j)
  {
    hide Doubled;
    if Marked(n, m, t, i, j, k) {
      var r, h :| 0 <= r < 2 * t && r % 2 == 1 && 0 <= h < m && (r < 2 * i || (r == 2 * i + 1 && h < j))
                  && k == Doubled(n, r, h);
    }
    if Marked(n, m, t, i, j + 1, k) {
      var r, h :| 0 <= r < 2 * t && r % 2 == 1 && 0 <= h < m && (r < 2 * i || (r == 2 * i + 1 && h < j + 1))
                  && k == Doubled(n, r, h);
    }
  }

  lemma {:induction false} MarkedRow(n: nat, m: nat, t: nat, i: nat, k: nat)
    requires 2 * t <= n && i < t
    ensures Marked(n, m, t, i, m, k) <==> Marked(n, m, t, i + 1, 0, k)
  {
    hide Doubled;
    if Marked(n, m, t, i, m, k) {
      var r, h :| 0 <= r < 2 * t && r % 2 == 1 && 0 <= h < m && (r < 2 * i || (r == 2 * i + 1 && h < m))
                  && k == Doubled(n, r, h);
    }
    if Marked(n, m, t, i + 1, 0, k) {
      var r, h :| 0 <= r < 2 * t && r % 2 == 1 && 0 <= h < m && (r < 2 * (i + 1) || (r == 2 * (i + 1) + 1 && h < 0))
                  && k == Doubled(n, r, h);
    }
  }

  lemma {:induction false} MarkedAll(n: nat, m: nat, t: nat, k: nat)
    requires 2 * t <= n
    ensures Marked(n, m, t, t, 0, k) <==> InCoset(n, m, t, k)
  {
    hide Doubled;
    if InCoset(n, m, t, k) {
      var r, h :| 0 <= r < 2 * t && r % 2 == 1 && 0 <= h < m && k == Doubled(n, r, h);
    }
    if Marked(n, m, t, t, 0, k) {
      var r, h :| 0 <= r < 2 * t && r % 2 == 1 && 0 <= h < m && (r < 2 * t || (r == 2 * t + 1 && h < 0))
                  && k == Doubled(n, r, h);
    }
  }

  /** Multiply the polynomial of degree deg in g by X + r, in place. */
  method MultiplyByRoot(F: Field, g: array<nat>, deg: nat, r: nat)
    requires F.Ok() && F.El(r) && deg + 1 < g.Length && IsPoly(F, g[..deg + 1]) && g[deg] == 1
    modifies g
    ensures IsPoly(F, old(g[..deg + 1]))
    ensures g[..deg + 2] == MulRoot(F, old(g[..deg + 1]), r)
    ensures g[deg + 1] == 1
  {
    hide F.Ok, Xor, GfMul;
    ghost var c := g[..deg + 1];
    g[deg + 1] := 1;
    XorZero(1);
    FieldShape(F);
    var j := deg;
    while j > 0
      invariant 0 <= j <= deg
      invariant forall k :: 0 <= k <= j ==> g[k] == c[k]
      invariant forall k :: j < k <= deg + 1 ==> g[k] == MulRootCoef(F, c, r, k)
    {
      g[j] := Xor(GfMul(F, g[j], r), g[j - 1]);
      j := j - 1;
    }
    XorZero(GfMul(F, c[0], r));
    g[0] := GfMul(F, g[0], r);
  }

  lemma {:induction false} ProductStep(F: Field, flags: seq<bool>, i: nat)
    requires F.Ok() && i < |flags|
    ensures Count(flags[..i + 1]) == Count(flags[..i]) + (if flags[i] then 1 else 0) <= Count(flags)
    ensures Product(F, flags[..i + 1])
         == if flags[i] then MulRoot(F, Product(F, flags[..i]), A(F, i)) else Product(F, flags[..i])
  {
    assert flags[..i + 1][..i] == flags[..i];
    CountPrefix(flags, i + 1);
  }

  lemma {:induction false} ProductStart(F: Field)
    requires F.Ok()
    ensures Product(F, []) == [1] && Count([]) == 0
  {
  }

  /** The first deg + 1 coefficients are the product over the first i flags. */
  ghost predicate Partial(F: Field, g: seq<nat>, deg: nat, flags: seq<bool>, i: nat)
    requires F.Ok() && i <= |flags|
  {
    deg == Count(flags[..i]) && deg < |g| && g[deg] == 1 && g[..deg + 1] == Product(F, flags[..i])
  }

  method MultiplyFlagged(F: Field, g: array<nat>, deg: nat, r: nat, ghost flags: seq<bool>, ghost i: nat)
    requires F.Ok() && F.El(r) && i < |flags| && flags[i] && r == A(F, i)
    requires Count(flags) < g.Length && Partial(F, g[..], deg, flags, i)
    modifies g
    ensures Partial(F, g[..], deg + 1, flags, i + 1)
  {
    hide Pow2, MulRoot, GfMul, A, F.Ok, Product, Count;
    ProductStep(F, flags, i);
    ghost var c := Product(F, flags[..i]);
    assert g[..deg + 1] == g[..][..deg + 1] == c;
    MultiplyByRoot(F, g, deg, r);
    assert g[..][..deg + 2] == g[..deg + 2];
  }

  lemma {:induction false} PartialSkip(F: Field, g: seq<nat>, deg: nat, flags: seq<bool>, i: nat)
    requires F.Ok() && i < |flags| && !flags[i] && Partial(F, g, deg, flags, i)
    ensures Partial(F, g, deg, flags, i + 1)
  {
    hide Pow2, MulRoot, A, F.Ok, Product, Count;
    ProductStep(F, flags, i);
  }

  lemma {:induction false} PartialStart(F: Field, g: seq<nat>, flags: seq<bool>)
    requires F.Ok() && |g| > 0 && g[0] == 1
    ensures Partial(F, g, 0, flags, 0)
  {
    hide Pow2, F.Ok, Product, Count;
    ProductStart(F);
    assert flags[..0] == [];
    assert g[..1] == [1];
  }

  method MultiplyFactors(F: Field, t: nat, roots: array<bool>) returns (g: array<nat>, deg: nat)
    requires F.Ok() && roots.Length == F.N() + 1 && Count(roots[..F.N()]) <= F.m * t
    ensures fresh(g) && deg == Count(roots[..F.N()]) < g.Length
    ensures g[..deg + 1] == Product(F, roots[..F.N()])
  {
    hide Pow2, A, F.Ok, Product, Count, F.N, Partial;
    var n := F.N();
    NatMul(F.m, t);
    g := new nat[F.m * t + 1];
    deg := 0;
    g[0] := 1;
    var i := 0;
    ghost var flags := roots[..n];
    PartialStart(F, g[..], flags);
    while i < n
      invariant 0 <= i <= n && flags == roots[..n]
      invariant Partial(F, g[..], deg, flags, i)
    {
      if roots[i] {
        TableLookup(F, i);
        MultiplyFlagged(F, g, deg, F.pow[i], flags, i);
        deg := deg + 1;
      } else {
        PartialSkip(F, g[..], deg, flags, i);
      }
      i := i + 1;
    }
    PartialDone(F, g[..], deg, flags);
    assert g[..deg + 1] == g[..][..deg + 1];
  }

  lemma {:induction false} PartialDone(F: Field, g: seq<nat>, deg: nat, flags: seq<bool>)
    requires F.Ok() && Partial(F, g, deg, flags, |flags|)
    ensures deg == Count(flags) && deg < |g| && g[..deg + 1] == Product(F, flags)
  {
    hide Pow2, F.Ok, Product, Count;
    assert flags[..|flags|] == flags;
  }

  lemma {:induction false} TableLookup(F: Field, i: nat)
    requires F.Ok() && i < F.N()
    ensures |F.pow| == F.N() + 1 && F.pow[i] == A(F, i)
  {
    ALookup(F, i);
  }

  /** Store coefficients 0..deg left-justified, the leading one in bit 31 of the first word. */
  method StoreWords(c: seq<nat>) returns (words: seq<nat>)
    requires c != []
    ensures AreWords(words) && |words| == (|c| + 31) / 32
    ensures WordsVal(words) == Shl(BinVal(c), 32 * |words| - |c|)
  {
    hide Pow2, BinVal, Digits, Shl;
    words := [];
    var n := |c|;
    assert c[n..] == [];
    BinValEmpty();
    ZeroDigits(words, 32);
    ShlNothing(0);
    while n > 0
      invariant 0 <= n <= |c| && AreWords(words)
      invariant 32 * |words| >= |c| - n && (n > 0 ==> 32 * |words| == |c| - n)
      invariant n == 0 ==> |words| == (|c| + 31) / 32
      invariant WordsVal(words) == Shl(BinVal(c[n..]), 32 * |words| - (|c| - n))
    {
      var nbits := if n > 32 then 32 else n;
      var j, word := 0, 0;
      assert c[n..n] == [];
      ShlNothing(32);
      while j < nbits
        invariant 0 <= j <= nbits
        invariant word == Shl(BinVal(c[n - j..n]), 32 - j)
      {
        BitBelow(c, n - j - 1, n, 31 - j);
        if c[n - 1 - j] != 0 {
          word := word + Pow2(31 - j);
        }
        j := j + 1;
      }
      WordBound(c[n - nbits..n]);
      AppendWord(words, c, n, nbits, word);
      words := words + [word];
      n := n - nbits;
    }
    assert c[0..] == c;
  }

  lemma {:induction false} BinValEmpty()
    ensures BinVal([]) == 0
  {
  }

  lemma {:induction false} BitBelow(c: seq<nat>, lo: nat, hi: nat, k: nat)
    requires lo < hi <= |c|
    ensures Shl(BinVal(c[lo..hi]), k) == Shl(BinVal(c[lo + 1..hi]), k + 1) + if c[lo] != 0 then Pow2(k) else 0
  {
    assert c[lo..hi][1..] == c[lo + 1..hi];
    var b := BinVal(c[lo + 1..hi]);
    var x := if c[lo] != 0 then 1 else 0;
    assert BinVal(c[lo..hi]) == x + 2 * b;
    hide BinVal;
    OneMoreBit(x, b, k);
  }

  lemma {:induction false} OneMoreBit(x: nat, b: nat, k: nat)
    requires x < 2
    ensures Shl(x + 2 * b, k) == Shl(b, k + 1) + if x == 1 then Pow2(k) else 0
  {
    var p := Pow2(k);
    assert Pow2(k + 1) == 2 * p;
    hide Pow2;
    assert (x + 2 * b) * p == x * p + b * (2 * p);
  }

  lemma {:induction false} WordBound(c: seq<nat>)
    requires |c| <= 32
    ensures Shl(BinVal(c), 32 - |c|) < W
  {
    Pow2Values();
    hide Pow2, Shl;
    BinValBounds(c);
    ShlBound(BinVal(c), |c|, 32 - |c|);
  }

  lemma {:induction false} AppendWord(words: seq<nat>, c: seq<nat>, n: nat, nbits: nat, word: nat)
    requires n <= |c| && nbits <= n && nbits <= 32 && 32 * |words| == |c| - n
    requires WordsVal(words) == Shl(BinVal(c[n..]), 0)
    requires word == Shl(BinVal(c[n - nbits..n]), 32 - nbits)
    ensures WordsVal(words + [word]) == Shl(BinVal(c[n - nbits..]), 32 - nbits)
  {
    hide Pow2, BinVal, Digits, Shl;
    DigitsConcat(words, [word], 32);
    DigitsOne(word, 32);
    assert c[n - nbits..] == c[n - nbits..n] + c[n..];
    BinValConcat(c[n - nbits..n], c[n..]);
    var hi, lo := BinVal(c[n..]), BinVal(c[n - nbits..n]);
    ShlDef(hi, nbits);
    MulCommutes(Pow2(nbits), hi);
    ShlSum(hi, nbits, lo, 32 - nbits);
    ShlDef(hi, 32);
    ShlDef(hi, 0);
    Pow2Zero();
  }

  /** The generator polynomial of the (m, t) code, in words, and its degree. */
  method ComputeGeneratorPolynomial(F: Field, t: nat) returns (genpoly: seq<nat>, eccBits: nat)
    requires F.Ok() && 2 * t <= F.N()
    ensures eccBits == EccBits(F.m, t) <= F.m * t
    ensures GenWords(genpoly, GenPoly(F, t), eccBits)
  {
    hide Pow2, F.Ok, Product, Count, BinVal, Digits, Shl;
    FieldShape(F);
    var roots := MarkRoots(F.m, t);
    var g, deg := MultiplyFactors(F, t, roots);
    genpoly := StoreWords(g[..deg + 1]);
    eccBits := deg;
    GeneratorDegree(F, t);
  }
}
