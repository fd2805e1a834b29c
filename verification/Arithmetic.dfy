/** Division with remainder by a variable. */
module Arithmetic {
  lemma {:induction false} ModBelow(r: nat, n: nat)
    requires r < n
    ensures r % n == r
  {
  }

  lemma {:induction false} ModAddMultiple(r: nat, k: nat, n: nat)
    requires n > 0
    ensures (r + k * n) % n == r % n
  {
    if k > 0 {
      ModAddMultiple(r, k - 1, n);
      ModSub(r + (k - 1) * n, n);
      assert r + k * n == r + (k - 1) * n + n;
    }
  }

  lemma {:induction false} ModSub(r: nat, n: nat)
    requires n > 0
    ensures (r + n) % n == r % n
  {
    var q, t := r / n, r % n;
    assert r == q * n + t;
    assert r + n == (q + 1) * n + t;
    DivModUnique(r + n, n, q + 1, t);
  }

  lemma {:induction false} MulAtLeast(k: int, n: nat)
    requires k >= 1
    ensures k * n >= n
  {
  }

  lemma {:induction false} DivModUnique(a: nat, n: nat, q: nat, t: nat)
    requires n > 0 && t < n && a == q * n + t
    ensures a / n == q && a % n == t
  {
    var q', t' := a / n, a % n;
    assert q' * n - q * n == t - t';
    assert (q' - q) * n == t - t' && (q - q') * n == t' - t;
    if q' < q {
      MulAtLeast(q - q', n);
    } else if q < q' {
      MulAtLeast(q' - q, n);
    }
  }
}
