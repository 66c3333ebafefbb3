/** Division and remainder by a positive number, products, and powers of two. */
module Arith {
  lemma DivIs(a: int, m: int, q: int, r: int)
    requires m > 0 && 0 <= r < m && a == q * m + r
    ensures a / m == q && a % m == r
  {
    MulBelow(a / m - q, m, r - a % m);
  }

  /** A multiple of m strictly between -m and m is zero. */
  lemma MulBelow(k: int, m: int, d: int)
    requires m > 0 && k * m == d && -m < d < m
    ensures k == 0
  {
  }

  lemma ModShift(a: int, k: int, m: int)
    requires m > 0
    ensures (a + k * m) % m == a % m
  {
    assert a + k * m == (a / m + k) * m + a % m;
    DivIs(a + k * m, m, a / m + k, a % m);
  }

  lemma ModSame(a: int, b: int, m: int)
    requires m > 0
    ensures (a - b) % m == 0 <==> a % m == b % m
  {
    if (a - b) % m == 0 {
      assert a == b + ((a - b) / m) * m;
      ModShift(b, (a - b) / m, m);
    }
    if a % m == b % m {
      assert a - b == (a / m - b / m) * m + 0;
      DivIs(a - b, m, a / m - b / m, 0);
    }
  }

  lemma ModMod(a: int, m: int)
    requires m > 0
    ensures (a - a % m) % m == 0 && (a % m - a) % m == 0
  {
    DivIs(a - a % m, m, a / m, 0);
    DivIs(a % m - a, m, -(a / m), 0);
  }

  lemma QuotientBound(a: int, b: int, c: int)
    requires a >= 0 && b >= c > 0
    ensures 0 <= a / b && (a / b) * c <= a
  {
    var q := a / b;
    assert q * b <= a;
    assert q * c <= q * b by { assert q * (b - c) >= 0; }
  }

  /** The quotient is the largest number of times that the divisor fits. */
  lemma QuotientIs(a: nat, b: nat, k: nat)
    requires b > 0
    ensures k <= a / b <==> k * b <= a
  {
    var q := a / b;
    assert q * b <= a < (q + 1) * b;
    if k <= q { assert k * b <= q * b; } else { assert (q + 1) * b <= k * b; }
  }

  lemma OneMore(n: int, w: int)
    ensures (n + 1) * w == n * w + w
  {
  }

  lemma Distribute(a: int, b: int, w: int)
    ensures (a + b) * w == a * w + b * w
  {
  }

  lemma ProductBound(a: nat, b: nat, c: nat, d: nat)
    requires a <= b && c <= d
    ensures 0 <= a * c <= b * d
  {
    assert a * c <= b * c <= b * d;
  }

  lemma Quadruple(n: int, w: int)
    ensures n * (4 * w) == 4 * (n * w)
  {
  }

  function Pow2(n: nat): (r: nat)
    ensures r > 0
  {
    if n == 0 then 1 else 2 * Pow2(n - 1)
  }

  lemma {:induction false} Pow2Monotone(m: nat, n: nat)
    requires m <= n
    ensures Pow2(m) <= Pow2(n)
  {
    if m < n { Pow2Monotone(m, n - 1); }
  }
}
