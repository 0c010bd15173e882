/** Minima, maxima, and the multiplication and division facts the solver needs one at a time. */
module Arithmetic {

  function Max(a: int, b: int): int { if a < b then b else a }

  function Min(a: int, b: int): int { if a < b then a else b }

  lemma Quotient(a: int, n: int, q: int, r: int)
    requires n > 0 && 0 <= r < n && a == n * q + r
    ensures a / n == q && a % n == r
  {
    SameQuotient(n, q, r, a / n, a % n);
  }

  lemma SameQuotient(n: int, q: int, r: int, q': int, r': int)
    requires 0 <= r < n && 0 <= r' < n && n * q + r == n * q' + r'
    ensures q == q' && r == r'
  {
    if q > q' {
      Spread(n, q, q');
    } else if q < q' {
      Spread(n, q', q);
    }
  }

  lemma Spread(n: int, q: int, q': int)
    requires n > 0 && q > q'
    ensures n * q >= n * q' + n
  {
    var k := q - q' - 1;
    assert n * k >= 0;
    assert n * q == n * (q' + 1 + k) == n * q' + n + n * k;
  }

  lemma CancelMul(a: int, b: int, g: int)
    requires a * g < b * g && g >= 0
    ensures a < b
  {
  }
}
