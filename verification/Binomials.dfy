/** Binomial coefficients. */
module Binomials {
  import opened Arith

  ghost function Binomial(n: nat, k: nat): nat {
    if k == 0 then 1 else if n == 0 then 0 else Binomial(n - 1, k - 1) + Binomial(n - 1, k)
  }

  lemma {:induction false} BinomialBound(n: nat, k: nat)
    ensures Binomial(n, k) <= Pow2(n)
  {
    if k > 0 && n > 0 {
      BinomialBound(n - 1, k - 1);
      BinomialBound(n - 1, k);
    }
  }

  lemma {:induction false} BinomialAbove(n: nat, k: nat)
    requires k > n
    ensures Binomial(n, k) == 0
  {
    if n > 0 {
      BinomialAbove(n - 1, k - 1);
      BinomialAbove(n - 1, k);
    }
  }

  lemma Pascal(n: nat, k: nat)
    requires n > 0 && k > 0
    ensures Binomial(n, k) == Binomial(n - 1, k - 1) + Binomial(n - 1, k)
  {
  }

  /** From one coefficient of a row to the next. */
  lemma {:induction false} Absorption(n: nat, l: nat)
    requires 1 <= l <= n + 1
    ensures l * Binomial(n, l) == (n - l + 1) * Binomial(n, l - 1)
    ensures n > 0 ==> l * Binomial(n, l) == n * Binomial(n - 1, l - 1)
  {
    if n == 0 {
      assert Binomial(0, 1) == 0;
    } else {
      hide Binomial;
      var a, b := Binomial(n - 1, l - 1), Binomial(n - 1, l);
      Pascal(n, l);
      if l <= n {
        Absorption(n - 1, l);
      } else {
        BinomialAbove(n - 1, l - 1);
        BinomialAbove(n - 1, l);
      }
      Distribute3(l, n - l, a, b);
      if l >= 2 {
        Absorption(n - 1, l - 1);
        Pascal(n, l - 1);
        Distribute4(n - l + 1, l - 1, a, Binomial(n - 1, l - 2));
      } else {
        BinomialNone(n);
        BinomialNone(n - 1);
      }
    }
  }

  lemma BinomialNone(n: nat)
    ensures Binomial(n, 0) == 1
  {
  }

  lemma Distribute3(l: int, m: int, a: int, b: int)
    requires l * b == m * a
    ensures l * (a + b) == (l + m) * a
  {
    assert l * (a + b) == l * a + l * b;
  }

  lemma Distribute4(m: int, l: int, a: int, c: int)
    requires l * a == m * c
    ensures m * (c + a) == (m + l) * a
  {
    assert m * (c + a) == m * c + m * a;
  }

  /** The product of a step stays below 2^32 for up to 28 dimensions. */
  lemma StepFits(n: nat, l: nat)
    requires 1 <= l <= n <= 28
    ensures 0 <= (n - l + 1) * Binomial(n, l - 1) < 0x1_0000_0000
  {
    assert Pow2(27) == 0x800_0000 by { assert Pow2(9) == 512; assert Pow2(18) == 0x4_0000; }
    hide Binomial, Pow2;
    Absorption(n, l);
    BinomialBound(n - 1, l - 1);
    Pow2Monotone(n - 1, 27);
    ProductBound(n, 28, Binomial(n - 1, l - 1), 0x800_0000);
  }
}
