/** Facts about products and quotients that span several modules. */
module Arithmetic {
  lemma NoMultiple(k: int, d: int)
    requires d > 0 && -d < k * d < d
    ensures k == 0
  {
  }

  /** `n / d` is the quotient of any division with a proper remainder. */
  lemma Quotient(n: int, d: int, q: int, r: int)
    requires d > 0 && n == q * d + r && 0 <= r < d
    ensures n / d == q && n % d == r
  {
    assert (q - n / d) * d == q * d - (n / d) * d;
    NoMultiple(q - n / d, d);
  }

  lemma QuotientBound(n: int, p: int)
    requires 0 <= n && p >= 1
    ensures 0 <= n / p <= n && 0 <= n % p <= n
    ensures p >= 2 ==> 2 * (n / p) <= n
  {
    FactorBound(n, p, n / p, n % p);
    Product(n / p, p);
  }

  lemma FactorBound(n: int, p: int, q: int, r: int)
    requires 0 <= n && p >= 1 && n == q * p + r && 0 <= r < p
    ensures 0 <= q <= n
    ensures p >= 2 ==> 2 * q <= n
  {
    assert (q + 1) * p == q * p + p;
    PositiveFactor(q + 1, p);
    Product(q, p - 1);
    assert q * (p - 1) == q * p - q;
    if p >= 2 {
      Product(q, p - 2);
      assert q * (p - 2) == q * p - 2 * q;
    }
  }

  lemma Product(a: int, b: int)
    requires a >= 0 && b >= 0
    ensures a * b >= 0
  {
  }

  lemma PositiveFactor(a: int, p: int)
    requires p > 0 && a * p > 0
    ensures a > 0
  {
  }

  lemma PositiveProduct(a: int, b: int)
    requires a > 0 && b > 0
    ensures a * b > 0
  {
  }

  lemma Associates(a: int, b: int, c: int)
    ensures a * (b * c) == a * b * c
  {
  }
}
