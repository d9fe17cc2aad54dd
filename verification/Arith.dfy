// The word size, and division facts that the solver does not find by itself.
module Arith {

  const TWO32 := 0x1_0000_0000

  lemma MulAtLeast(a: int, m: nat)
    requires 1 <= a
    ensures a * m >= m
  {
    assert a * m == m + (a - 1) * m;
  }

  lemma MulMonotone(a: nat, b: nat, c: nat, d: nat)
    requires a <= c && b <= d
    ensures a * b <= c * d
  {
    assert a * b + (c - a) * b == c * b;
    assert c * b + c * (d - b) == c * d;
  }

  // A number is its quotient times the divisor plus its remainder, in only one way.
  lemma ModUnique(x: int, m: nat, k: int, r: nat)
    requires r < m && x == k * m + r
    ensures x % m == r && x / m == k
  {
    var q, s := x / m, x % m;
    assert x == q * m + s;
    assert (q - k) * m == r - s;
    if q > k {
      MulAtLeast(q - k, m);
      assert false;
    } else if q < k {
      MulAtLeast(k - q, m);
      assert false;
    }
  }
}
