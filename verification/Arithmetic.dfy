/** The order facts about integer division that the schedulers and transfers rest on. */
module Arithmetic {

  function Min(a: nat, b: nat): nat { if a < b then a else b }

  function Max(a: int, b: int): int { if a < b then b else a }

  lemma MultiplyMonotone(n: int, p: int, q: int)
    requires n >= 0 && p <= q
    ensures n * p <= n * q
  {
  }

  /** The quotient is the largest factor that stays within the dividend. */
  lemma Quotient(a: int, n: int, q: int)
    requires n > 0
    ensures q <= a / n <==> n * q <= a
  {
    var p := a / n;
    assert n * p <= a < n * p + n;
    if q <= p {
      MultiplyMonotone(n, q, p);
    } else {
      MultiplyMonotone(n, p + 1, q);
      assert n * (p + 1) == n * p + n;
    }
  }

  lemma QuotientIs(a: int, n: int, q: int)
    requires n > 0 && n * q <= a < n * q + n
    ensures a / n == q
  {
    Quotient(a, n, q);
    Quotient(a, n, q + 1);
    assert n * (q + 1) == n * q + n;
  }

  lemma QuotientMonotone(a: int, b: int, n: int)
    requires n > 0 && a <= b
    ensures a / n <= b / n
  {
    Quotient(a, n, a / n);
    Quotient(b, n, a / n);
  }

  /** Shifting the dividend by a multiple shifts the quotient. */
  lemma QuotientShift(a: int, n: int, k: int)
    requires n > 0
    ensures (a + n * k) / n == a / n + k
  {
    var q := a / n;
    assert n * q <= a < n * q + n;
    assert n * (q + k) == n * q + n * k;
    QuotientIs(a + n * k, n, q + k);
  }
}
