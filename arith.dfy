/** Facts about integer multiplication and division that the solver does not find unaided. */
module Arithmetic {

  /** `k * q <= x` places `k` at or below the quotient. */
  lemma DivAtLeast(x: int, q: int, k: int)
    requires 0 < q && k * q <= x
    ensures x / q >= k
  {
    var d, m := x / q, x % q;
    assert x == q * d + m && 0 <= m < q;
    var gap := d + 1 - k;
    assert q * gap == q * d + q - q * k;
    assert q * gap > 0;
  }

  /** `x < (k + 1) * q` places `k` at or above the quotient. */
  lemma DivAtMost(x: int, q: int, k: int)
    requires 0 < q && 0 <= x && x < (k + 1) * q
    ensures x / q <= k
  {
    var d, m := x / q, x % q;
    assert x == q * d + m && 0 <= m < q;
    var gap := k + 1 - d;
    assert q * gap == q * (k + 1) - q * d;
    assert q * gap > 0;
  }

  /** `a <= b` is preserved by multiplying both sides with a positive factor. */
  lemma MulMonotone(factor: int, a: int, b: int)
    requires 0 < factor && a <= b
    ensures factor * a <= factor * b
  {
    assert factor * b - factor * a == factor * (b - a);
  }

  /** With a positive factor, `factor * a < factor * b` forces `a < b`. */
  lemma MulCancelLess(factor: int, a: int, b: int)
    requires 0 < factor && factor * a < factor * b
    ensures a < b
  {
    assert factor * (b - a) == factor * b - factor * a;
    assert factor * (b - a) > 0;
  }
}
