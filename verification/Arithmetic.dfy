/** The widths of machine words, and facts about products and quotients of variables that the solver
    does not find by itself. */
module Arithmetic {
  const B32: nat := 0x1_0000_0000
  const B64: nat := 0x1_0000_0000_0000_0000

  lemma QuotientUnique(p: int, m: int, d: int, r: int)
    requires p == m * d + r && 0 <= r < m
    ensures p / m == d && p % m == r
  {
    var q, s := p / m, p % m;
    assert p == m * q + s;
    assert m * (q - d) == m * q - m * d;
    assert m * (d - q) == m * d - m * q;
    if q > d { MulGrows(m, q - d); }
    if q < d { MulGrows(m, d - q); }
  }

  lemma MulGrows(m: int, e: int)
    requires m > 0 && e > 0
    ensures m * e >= m
  {
  }

  lemma MulMonotone(p: int, q: int, m: nat)
    requires p <= q
    ensures p * m <= q * m
  {
  }

  lemma MultipleOf(d: int, m: nat)
    requires m > 0
    ensures (d * m) % m == 0 && (d * m) / m == d
  {
    QuotientUnique(d * m, m, d, 0);
  }

  lemma MulAssoc(a: int, b: int, c: int)
    ensures (a * b) * c == a * (b * c)
  {
  }

  lemma MulDistributes(a: int, b: int, c: int)
    ensures a * (b + c) == a * b + a * c
    ensures a * (b - c) == a * b - a * c
  {
  }

  lemma DivRem(a: int, m: int)
    requires m > 0
    ensures a == m * (a / m) + a % m && 0 <= a % m < m
  {
  }

  lemma QuotientBelow(a: nat, m: nat, n: nat)
    requires m > 0 && a < m * n
    ensures a / m < n
  {
    DivRem(a, m);
    if a / m >= n { MulMonotone(n, a / m, m); }
  }

  /** Quotient and remainder of m * q + a. */
  lemma AddMultiple(a: int, m: int, q: int)
    requires m > 0
    ensures (m * q + a) / m == q + a / m && (m * q + a) % m == a % m
  {
    DivRem(a, m);
    MulDistributes(m, q, a / m);
    QuotientUnique(m * q + a, m, q + a / m, a % m);
  }

  lemma QuotientSmaller(a: nat, m: nat)
    requires m > 0
    ensures 0 <= a / m <= a
  {
    DivRem(a, m);
    MulMonotone(1, m, a / m);
  }
}
