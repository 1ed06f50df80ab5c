/** Division facts for nonlinear terms. */
module Arith {

  lemma DivMod(q: nat, d: nat, r: nat)
    requires r < d
    ensures (q * d + r) / d == q && (q * d + r) % d == r
  {
    var n := q * d + r;
    var k := n / d - q;
    assert n == (q + k) * d + n % d && (q + k) * d == q * d + k * d;
    assert k >= 1 ==> k * d >= d;
    assert k <= -1 ==> k * d + d <= 0;
  }

  /** Two multiples less than one step apart are equal. */
  lemma CloseMultiples(n: nat, m: nat, d: nat)
    requires 0 < d && n % d == 0 && m % d == 0 && m <= n < m + d
    ensures n == m
  {
    var p := m / d;
    assert m == p * d;
    DivMod(p, d, n - m);
  }

  /** A quotient compared with a number is a product compared with the dividend. */
  lemma QuotientAtLeast(a: nat, b: nat, q: nat)
    requires 0 < b
    ensures q <= a / b <==> q * b <= a
  {
    var r := a / b;
    assert a == r * b + a % b;
    if q <= r {
      assert (r - q) * b >= 0;
      assert r * b == q * b + (r - q) * b;
    } else {
      assert (q - r - 1) * b >= 0;
      assert q * b == r * b + b + (q - r - 1) * b;
    }
  }

  lemma {:induction false} Monotone(k: nat, a: nat, b: nat)
    requires a <= b
    ensures k * a <= k * b
  {
    if k > 0 {
      Monotone(k - 1, a, b);
      assert k * a == (k - 1) * a + a && k * b == (k - 1) * b + b;
    }
  }
}
