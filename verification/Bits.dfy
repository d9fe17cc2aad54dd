// Bitwise operators on unbounded naturals.
module Bits {
  import opened Arith

  function Or(a: nat, b: nat): nat {
    if a == 0 then b
    else if b == 0 then a
    else 2 * Or(a / 2, b / 2) + if a % 2 == 1 || b % 2 == 1 then 1 else 0
  }

  function And(a: nat, b: nat): nat {
    if a == 0 || b == 0 then 0
    else 2 * And(a / 2, b / 2) + if a % 2 == 1 && b % 2 == 1 then 1 else 0
  }

  predicate IsPow2(m: nat) {
    m == 1 || (m > 1 && m % 2 == 0 && IsPow2(m / 2))
  }

  // Fields that do not overlap are added.
  lemma {:induction false} OrDisjoint(s: nat, v: nat, m: nat)
    requires IsPow2(m) && s < m
    ensures Or(s, v * m) == s + v * m
    decreases m
  {
    if m > 1 {
      var w := v * (m / 2);
      OrDisjoint(s / 2, v, m / 2);
      TwiceHalf(v, m);
      OrDouble(s, w);
    }
  }

  lemma TwiceHalf(v: nat, m: nat)
    requires m % 2 == 0
    ensures v * m == v * (m / 2) + v * (m / 2)
  {
    var h := m / 2;
    assert m == h + h;
  }

  lemma OrDouble(s: nat, w: nat)
    ensures Or(s, w + w) == 2 * Or(s / 2, w) + s % 2
  {
    if s > 0 && w > 0 {
      assert (w + w) / 2 == w && (w + w) % 2 == 0;
    }
  }

  // Masking with a power of two less one is the remainder.
  lemma {:induction false} AndMask(q: nat, m: nat)
    requires IsPow2(m)
    ensures And(q, m - 1) == q % m
    decreases m
  {
    if m > 1 {
      var h := m / 2;
      AndMask(q / 2, h);
      assert (m - 1) / 2 == h - 1;
      var k, r := q / 2 / h, q / 2 % h;
      assert q == k * m + (2 * r + q % 2);
      ModUnique(q, m, k, 2 * r + q % 2);
    }
  }

  lemma {:induction false} Pow2Product(a: nat, b: nat)
    requires IsPow2(a) && IsPow2(b)
    ensures IsPow2(a * b)
    decreases a
  {
    if a > 1 {
      Pow2Product(a / 2, b);
      assert a * b == 2 * (a / 2 * b);
    }
  }

  lemma Pow2Of24()
    ensures IsPow2(0x100_0000)
  {
    Pow2Product(16, 16);
    Pow2Product(256, 256);
    Pow2Product(256, 0x1_0000);
  }
}
