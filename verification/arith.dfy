/** Facts about Euclidean division used by the step clock and the checksum. */
module Arith {

  lemma MulMonotone(a: int, b: int, d: int)
    requires a <= b && d > 0
    ensures a * d <= b * d
  {
    var k := b - a;
    assert b * d == a * d + k * d;
    assert k * d >= 0;
  }

  lemma DivLowerBound(n: int, d: int, k: nat)
    requires d > 0 && 0 <= n && k * d <= n
    ensures k <= n / d
  {
    var q, m := n / d, n % d;
    assert q * d + m == n && m < d;
    if k > q {
      assert (q + 1) * d == q * d + d;
      MulMonotone(q + 1, k, d);
    }
  }

  lemma DivOfRemainder(n: int, d: int, q: int, m: int)
    requires d > 0 && 0 <= m < d && q * d + m == n
    ensures q == n / d && m == n % d
  {
    var q0, m0 := n / d, n % d;
    assert q0 * d + m0 == n && 0 <= m0 < d;
    if q > q0 {
      assert (q0 + 1) * d == q0 * d + d;
      MulMonotone(q0 + 1, q, d);
    } else if q < q0 {
      MulMonotone(q + 1, q0, d);
    }
  }
}
