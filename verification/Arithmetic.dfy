/** Quotients and remainders by a variable divisor. */
module Arithmetic {
  lemma Distribute(a: int, b: int, p: int)
    ensures (a + b) * p == a * p + b * p
  {
  }

  lemma MulAtLeast(d: int, p: int)
    requires d > 0 && p >= 0
    ensures d * p >= p
  {
    Distribute(d - 1, 1, p);
    assert (d - 1) * p >= 0;
  }

  lemma MulMonotone(a: int, b: int, p: int)
    requires a <= b && p >= 0
    ensures a * p <= b * p
  {
    Distribute(b - a, a, p);
    assert (b - a) * p >= 0;
  }

  lemma DivModIdentity(n: int, p: int)
    requires p > 0
    ensures n == (n / p) * p + n % p && 0 <= n % p < p
  {
  }

  /** A quotient and a remainder are the only ones. */
  lemma DivModUnique(n: int, p: int, q: int, r: int)
    requires 0 <= r < p && n == q * p + r
    ensures n / p == q && n % p == r
  {
    var q', r' := n / p, n % p;
    DivModIdentity(n, p);
    if q > q' {
      MulAtLeast(q - q', p);
      Distribute(q, -q', p);
      assert false;
    } else if q' > q {
      MulAtLeast(q' - q, p);
      Distribute(q', -q, p);
      assert false;
    }
  }
}
