/** Quotients and remainders of natural numbers. */
module Division {

  lemma {:induction false} Multiples(i: nat, j: nat, k: nat)
    requires i < j
    ensures i * k + k <= j * k
    decreases j
  {
    if i + 1 < j {
      Multiples(i, j - 1, k);
    }
    assert j * k == (j - 1) * k + k;
  }

  lemma QuotientParts(a: nat, k: nat)
    requires k > 0
    ensures a / k * k <= a < a / k * k + k
  {
    assert a == k * (a / k) + a % k;
  }

  lemma DivMultiple(i: nat, k: nat)
    requires k > 0
    ensures i * k / k == i
  {
    var q := i * k / k;
    QuotientParts(i * k, k);
    if q < i {
      Multiples(q, i, k);
    } else if q > i {
      Multiples(i, q, k);
    }
  }

  /** A number written as quotient and remainder has just those. */
  lemma PartsUnique(q: nat, r: nat, d: nat)
    requires r < d
    ensures (q * d + r) / d == q && (q * d + r) % d == r
  {
    var n := q * d + r;
    QuotientParts(n, d);
    if n / d < q {
      Multiples(n / d, q, d);
    } else if n / d > q {
      Multiples(q, n / d, d);
    }
  }

  lemma Parts(n: nat, d: nat)
    requires d > 0
    ensures n == n / d * d + n % d && n % d < d
  {
  }

  /** The quotient tells how far a number lies among the multiples. */
  lemma QuotientBelow(n: nat, m: nat, d: nat)
    requires d > 0
    ensures n / d < m <==> n < m * d
  {
    QuotientParts(n, d);
    if n / d < m {
      Multiples(n / d, m, d);
    } else if m < n / d {
      Multiples(m, n / d, d);
    }
  }

  /** n times d, by addition. */
  function Times(n: nat, d: nat): nat {
    if n == 0 then 0 else Times(n - 1, d) + d
  }

  lemma {:induction false} TimesIsProduct(n: nat, d: nat)
    ensures Times(n, d) == n * d
  {
    if n > 0 {
      TimesIsProduct(n - 1, d);
      assert n * d == (n - 1) * d + d;
    }
  }

  lemma {:induction false} TimesApart(i: nat, j: nat, d: nat)
    requires i < j
    ensures Times(i, d) + d <= Times(j, d)
    decreases j
  {
    if i + 1 < j {
      TimesApart(i, j - 1, d);
    }
  }

  lemma TimesMonotone(i: nat, j: nat, d: nat)
    requires i <= j
    ensures Times(i, d) <= Times(j, d)
  {
    if i < j {
      TimesApart(i, j, d);
    }
  }
}
