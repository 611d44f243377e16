/** Division facts that bytes, pages and histogram buckets share. */
module Arithmetic {
  lemma MulMonotone(a: int, b: int, d: int)
    requires a <= b && d >= 0
    ensures a * d <= b * d
  {
  }

  lemma DivUnique(n: int, d: int, q: int, r: int)
    requires d >= 1 && n == q * d + r && 0 <= r < d
    ensures n / d == q
  {
    var k := n / d;
    assert k * d <= n < (k + 1) * d;
    if k < q {
      MulMonotone(k + 1, q, d);
    } else if q < k {
      MulMonotone(q + 1, k, d);
    }
  }
}
