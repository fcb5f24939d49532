/** Facts about integer multiplication and remainder used by the colour and placement proofs. */
module Arithmetic {

  /** Adding a multiple of the modulus does not change the remainder. */
  lemma ModAddMultiple(a: nat, m: nat, k: nat)
    requires 0 < m
    ensures (a + k * m) % m == a % m
  {
    var q, r := a / m, a % m;
    assert a + k * m == (q + k) * m + r;
    ModUnique(a + k * m, m, q + k, r);
  }

  /** Quotient and remainder are unique: n == q * m + r with 0 <= r < m fixes n % m. */
  lemma ModUnique(n: int, m: int, q: int, r: int)
    requires 0 < m && n == q * m + r && 0 <= r < m
    ensures n % m == r
  {
    var q0, r0 := n / m, n % m;
    var d := q - q0;
    assert d * m == r0 - r;
    if d >= 1 {
      ScaleMonotone(m, 1, d);
      assert false;
    } else if d <= -1 {
      ScaleMonotone(m, d, -1);
      assert false;
    }
  }

  /** Scaling by a non-negative factor keeps the order. */
  lemma ScaleMonotone(k: int, a: int, b: int)
    requires 0 <= k && a <= b
    ensures k * a <= k * b
  {
    assert k * b - k * a == k * (b - a);
  }
}
