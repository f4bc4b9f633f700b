/** Division with remainder, stated so that each fact can be used one instance at a time. */
module Modular {
  lemma Distribute(a: int, b: int, m: int)
    ensures (a - b) * m == a * m - b * m
  {
  }

  lemma MulAtLeast(k: int, m: int)
    requires k >= 1 && m >= 0
    ensures k * m >= m
  {
    assert (k - 1) * m >= 0;
    Distribute(k, 1, m);
  }

  lemma QuotientIsUnique(q: int, r: int, q': int, r': int, m: int)
    requires 0 <= r < m && 0 <= r' < m && q * m + r == q' * m + r'
    ensures q == q' && r == r'
  {
    Distribute(q, q', m);
    Distribute(q', q, m);
    if q > q' {
      MulAtLeast(q - q', m);
    } else if q < q' {
      MulAtLeast(q' - q, m);
    }
  }

  lemma DivMod(a: int, m: int)
    requires m > 0
    ensures a == a / m * m + a % m && 0 <= a % m < m
  {
  }

  lemma ModIs(a: int, q: int, r: int, m: int)
    requires 0 <= r < m && a == q * m + r
    ensures a % m == r
  {
    DivMod(a, m);
    QuotientIsUnique(a / m, a % m, q, r, m);
  }

  lemma OneMoreMod(q: int, r: int, m: int)
    requires 0 <= r < m
    ensures (q * m + r + 1) % m == (r + 1) % m
  {
    if r + 1 < m {
      ModIs(q * m + r + 1, q, r + 1, m);
      ModIs(r + 1, 0, r + 1, m);
    } else {
      Distribute(q, -1, m);
      ModIs(q * m + m, q + 1, 0, m);
      ModIs(m, 1, 0, m);
    }
  }

  lemma NextMod(a: int, m: int)
    requires m > 0
    ensures (a + 1) % m == (a % m + 1) % m
  {
    DivMod(a, m);
    OneMoreMod(a / m, a % m, m);
  }
}
