/** Divisibility stated without the remainder operator: `n` is a multiple of
    `m` when repeatedly taking `m` away reaches zero. The hypotheses test it
    with `%`; the lemmas here connect the two. */
module Multiples {

  /** `n` is reached from zero by steps of `m`. */
  ghost predicate IsMultiple(n: nat, m: nat)
    requires m > 0
    decreases n
  {
    n == 0 || (n >= m && IsMultiple(n - m, m))
  }

  /** The remainder test agrees with the step definition. */
  lemma {:induction false} RemainderTest(n: nat, m: nat)
    requires m > 0
    ensures n % m == 0 <==> IsMultiple(n, m)
    decreases n
  {
    if n == 0 {
    } else if n < m {
      RemainderUnique(n, m, 0, n);
    } else {
      RemainderTest(n - m, m);
      RemainderStep(n, m);
    }
  }

  /** Every m-th number is a multiple of `m`. */
  lemma {:induction false} ScaledIsMultiple(k: nat, m: nat)
    requires m > 0
    ensures IsMultiple(k * m, m)
  {
    if k > 0 {
      ScaledIsMultiple(k - 1, m);
      assert k * m - m == (k - 1) * m;
    }
  }

  /** Taking `m` away keeps the remainder. */
  lemma RemainderStep(n: nat, m: nat)
    requires m > 0 && n >= m
    ensures (n - m) % m == n % m
  {
    var q, r := (n - m) / m, (n - m) % m;
    assert n - m == q * m + r;
    assert (q + 1) * m == q * m + m;
    RemainderUnique(n, m, q + 1, r);
  }

  /** Quotient and remainder are unique. */
  lemma RemainderUnique(n: nat, m: nat, q: int, r: int)
    requires m > 0 && 0 <= r < m && n == q * m + r
    ensures n % m == r
  {
    var q', r' := n / m, n % m;
    assert n == q' * m + r';
    Distribute(q, q', m);
    if q > q' {
      AtLeastOnce(q - q', m);
    } else if q < q' {
      AtLeastOnce(q' - q, m);
      Distribute(q', q, m);
    }
  }

  lemma Distribute(a: int, b: int, m: int)
    ensures (a - b) * m == a * m - b * m
  {
  }

  lemma AtLeastOnce(a: int, m: int)
    requires a >= 1 && m > 0
    ensures a * m >= m
  {
  }
}
