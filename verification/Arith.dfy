/** Division facts with a symbolic divisor, and int arithmetic. */
module Arith {

  /** The value of an int expression as two's complement gives it on overflow. */
  function WrapInt(x: int): int {
    var r := x % 0x1_0000_0000;
    if r < 0x8000_0000 then r else r - 0x1_0000_0000
  }

  lemma DivUnique(n: int, d: int, q: int, r: int)
    requires d > 0 && n == d * q + r && 0 <= r < d
    ensures n / d == q && n % d == r
  {
    var k := q - n / d;
    assert d * k == n % d - r;
    MulAtLeast(d, k);
  }

  lemma MulAtLeast(d: int, k: int)
    requires d > 0
    ensures k >= 1 ==> d * k >= d
    ensures k <= -1 ==> d * k <= -d
  {
  }

  lemma ModAdd(n: int, d: int, k: int)
    requires d > 0
    ensures (n + d * k) % d == n % d && (n + d * k) / d == n / d + k
  {
    assert n + d * k == d * (n / d + k) + n % d;
    DivUnique(n + d * k, d, n / d + k, n % d);
  }

  lemma ModPeriod(n: int, d: int)
    requires d > 0
    ensures (n + d) % d == n % d && (n - d) % d == n % d
  {
    ModAdd(n, d, 1);
    ModAdd(n, d, -1);
  }

  lemma ModSmall(n: int, d: int)
    requires 0 <= n < d
    ensures n % d == n && n / d == 0
  {
    DivUnique(n, d, 0, n);
  }

  lemma ModOfSum(a: int, b: int, d: int)
    requires d > 0
    ensures (a % d + b) % d == (a + b) % d
  {
    assert a + b == a % d + b + d * (a / d);
    ModAdd(a % d + b, d, a / d);
  }

  /** A two-digit number base `d` modulo `d * d`: the low digit stays, the high one wraps. */
  lemma ModSquare(lo: int, hi: int, d: int)
    requires d > 0 && 0 <= lo < d
    ensures (lo + d * hi) % (d * d) == lo + d * (hi % d)
  {
    var r := lo + d * (hi % d);
    assert d * (hi % d) <= d * (d - 1);
    assert lo + d * hi == (d * d) * (hi / d) + r by {
      assert hi == d * (hi / d) + hi % d;
      assert d * hi == d * (d * (hi / d)) + d * (hi % d);
    }
    assert d * (d - 1) == d * d - d;
    DivUnique(lo + d * hi, d * d, hi / d, r);
  }

  lemma DivBound(n: int, d: int, k: int)
    requires d > 0 && 0 <= n < d * k
    ensures 0 <= n / d < k
  {
    MulAtLeast(d, n / d);
    MulAtLeast(d, n / d - k + 1);
    assert d * (n / d - k + 1) == d * (n / d) - d * k + d;
  }
}
