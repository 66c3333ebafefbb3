/** The linear congruential generator of the cross-section benchmark, and skipping ahead in its stream. All arithmetic
    is on unsigned 64-bit words. */
module SkipAhead {
  import opened NumberTheory
  import opened Arith

  const M: int := 0x8000_0000_0000_0000
  const TWO64: int := 0x1_0000_0000_0000_0000
  const A: int := 2806196910506780709
  const C: int := 1

  /** A 64-bit word keeps the low bits. */
  function Low64(x: int): (r: int)
    ensures 0 <= r < TWO64
  {
    x % TWO64
  }

  /** LCG_random_double: the new seed. */
  method LcgStep(seed: int) returns (seed': int)
    requires 0 <= seed < TWO64
    ensures seed' == (2806196910506780709 * seed + 1) % 0x8000_0000_0000_0000 == (A * seed + C) % M
  {
    seed' := ((A * seed + C) % TWO64) % M;
    ModTwice(A * seed + C);
  }

  lemma ModTwice(x: int)
    ensures (x % TWO64) % M == x % M
  {
    ModMod(x, TWO64);
    var q := (x - x % TWO64) / TWO64;
    assert x == x % TWO64 + (2 * q) * M;
    ModShift(x % TWO64, 2 * q, M);
  }

  /** n steps of x -> a * x + c, over the integers. */
  ghost function Iterate(a: int, c: int, n: nat, x: int): int {
    if n == 0 then x else a * Iterate(a, c, n - 1, x) + c
  }

  lemma {:induction false} IterateInside(a: int, c: int, n: nat, x: int)
    ensures Iterate(a, c, n + 1, x) == Iterate(a, c, n, a * x + c)
  {
    if n > 0 { IterateInside(a, c, n - 1, x); }
  }

  /** Doing two steps at once half as often. */
  lemma {:induction false} IterateDouble(a: int, c: int, n: nat, x: int)
    ensures Iterate(a * a, c * (a + 1), n, x) == Iterate(a, c, 2 * n, x)
  {
    if n > 0 {
      IterateDouble(a, c, n - 1, x);
      IterateLast(a, c, 2 * n, x);
      IterateLast(a, c, 2 * n - 1, x);
      IterateLast(a * a, c * (a + 1), n, x);
      hide Iterate;
      TwoSteps(a, c, Iterate(a, c, 2 * n - 2, x));
    }
  }

  lemma IterateLast(a: int, c: int, n: nat, x: int)
    requires n > 0
    ensures Iterate(a, c, n, x) == a * Iterate(a, c, n - 1, x) + c
  {
  }

  lemma TwoSteps(a: int, c: int, y: int)
    ensures a * (a * y + c) + c == (a * a) * y + c * (a + 1)
  {
    assert a * (a * y + c) == a * (a * y) + a * c;
  }

  lemma {:induction false} IterateCong(a: int, c: int, n: nat, x: int, a': int, c': int, x': int, m: int)
    requires m > 0 && Cong(a, a', m) && Cong(c, c', m) && Cong(x, x', m)
    ensures Cong(Iterate(a, c, n, x), Iterate(a', c', n, x'), m)
  {
    if n > 0 {
      IterateCong(a, c, n - 1, x, a', c', x', m);
      CongTimes(a, a', Iterate(a, c, n - 1, x), Iterate(a', c', n - 1, x'), m);
      CongAdd(a * Iterate(a, c, n - 1, x), a' * Iterate(a', c', n - 1, x'), c, c', m);
    }
  }

  /** n successive calls of the generator. */
  ghost function Steps(seed: int, n: nat): int {
    if n == 0 then seed else (A * Steps(seed, n - 1) + C) % M
  }

  lemma {:induction false} StepsAre(seed: int, n: nat)
    ensures Cong(Iterate(A, C, n, seed), Steps(seed, n), M)
  {
    if n > 0 {
      StepsAre(seed, n - 1);
      var y, z := Iterate(A, C, n - 1, seed), Steps(seed, n - 1);
      CongRefl(A, M);
      CongRefl(C, M);
      CongTimes(A, A, y, z, M);
      CongAdd(A * y, A * z, C, C, M);
      CongMod(A * z + C, M);
      CongTransitive(A * y + C, A * z + C, Steps(seed, n), M);
    } else {
      CongRefl(seed, M);
    }
  }

  /** What is still to be done, n more steps of (a, c) behind the map (a_new, c_new), leads to the goal. */
  ghost predicate Remaining(a: int, c: int, a_new: int, c_new: int, n: nat, seed: int, goal: int) {
    Cong(Iterate(a, c, n, a_new * seed + c_new), goal, TWO64)
  }

  lemma NothingDone(seed: int, n: nat)
    ensures Remaining(A, C, 1, 0, n, seed, Iterate(A, C, n, seed))
  {
    assert 1 * seed + 0 == seed;
    CongRefl(Iterate(A, C, n, seed), TWO64);
  }

  lemma OddStep(a: int, c: int, a_new: int, c_new: int, n: nat, seed: int, goal: int)
    requires Remaining(a, c, a_new, c_new, n, seed, goal) && n > 0
    ensures Remaining(a, c, Low64(a_new * a), Low64(Low64(c_new * a) + c), n - 1, seed, goal)
  {
    SumMod(c_new * a, c);
    var x, x' := a * (a_new * seed + c_new) + c, ((a_new * a) % TWO64) * seed + (c_new * a + c) % TWO64;
    IterateInside(a, c, n - 1, a_new * seed + c_new);
    assert x == (a_new * a) * seed + (c_new * a + c) by {
      assert a * (a_new * seed + c_new) == a * (a_new * seed) + a * c_new;
      assert a * (a_new * seed) == (a_new * a) * seed;
    }
    CongMod(a_new * a, TWO64);
    CongMod(c_new * a + c, TWO64);
    CongRefl(seed, TWO64);
    CongTimes(a_new * a, (a_new * a) % TWO64, seed, seed, TWO64);
    CongAdd((a_new * a) * seed, ((a_new * a) % TWO64) * seed, c_new * a + c, (c_new * a + c) % TWO64, TWO64);
    CongSymmetric(x, x', TWO64);
    CongRefl(a, TWO64);
    CongRefl(c, TWO64);
    IterateCong(a, c, n - 1, x', a, c, x, TWO64);
    CongTransitive(Iterate(a, c, n - 1, x'), Iterate(a, c, n - 1, x), goal, TWO64);
  }

  lemma DoubleStep(a: int, c: int, a_new: int, c_new: int, n: nat, seed: int, goal: int)
    requires Remaining(a, c, a_new, c_new, 2 * n, seed, goal)
    ensures Remaining(Low64(a * a), Low64(c * Low64(a + 1)), a_new, c_new, n, seed, goal)
  {
    var x := a_new * seed + c_new;
    IterateDouble(a, c, n, x);
    CongMod(a * a, TWO64);
    CongSymmetric(a * a, (a * a) % TWO64, TWO64);
    CongMod(a + 1, TWO64);
    CongRefl(c, TWO64);
    CongTimes(c, c, a + 1, (a + 1) % TWO64, TWO64);
    CongMod(c * ((a + 1) % TWO64), TWO64);
    CongTransitive(c * (a + 1), c * ((a + 1) % TWO64), (c * ((a + 1) % TWO64)) % TWO64, TWO64);
    CongSymmetric(c * (a + 1), (c * ((a + 1) % TWO64)) % TWO64, TWO64);
    CongRefl(x, TWO64);
    IterateCong((a * a) % TWO64, (c * ((a + 1) % TWO64)) % TWO64, n, x, a * a, c * (a + 1), x, TWO64);
    CongTransitive(Iterate((a * a) % TWO64, (c * ((a + 1) % TWO64)) % TWO64, n, x), Iterate(a, c, 2 * n, x), goal,
        TWO64);
  }

  // ---- The period -------------------------------------------------------------------------------

  lemma {:induction false} IterateAdd(a: int, c: int, m: nat, n: nat, x: int)
    ensures Iterate(a, c, m + n, x) == Iterate(a, c, m, Iterate(a, c, n, x))
  {
    if m > 0 { IterateAdd(a, c, m - 1, n, x); }
  }

  lemma {:induction false} Pow2Add(m: nat, n: nat)
    ensures Pow2(m + n) == Pow2(m) * Pow2(n)
  {
    if m > 0 {
      Pow2Add(m - 1, n);
      assert Pow2(m + n) == 2 * Pow2(m + n - 1) && Pow2(m) == 2 * Pow2(m - 1);
    }
  }

  lemma Pow2Is63()
    ensures Pow2(63) == M
  {
    assert Pow2(9) == 512;
    hide Pow2;
    Pow2Add(9, 9);
    Pow2Add(18, 9);
    Pow2Add(27, 27);
    Pow2Add(54, 9);
  }

  /** If a is odd and 2^j divides a - 1 and c, then 2^k steps lead back to where they began, modulo 2^(j + k). */
  lemma {:induction false} Returns(a: int, c: int, u: int, v: int, j: nat, k: nat, x: int)
    requires a % 2 == 1 && a == 1 + u * Pow2(j) && c == v * Pow2(j)
    ensures Cong(Iterate(a, c, Pow2(k), x), x, Pow2(j + k))
    decreases k
  {
    if k == 0 {
      hide Pow2;
      OneIsPow();
      IterateLast(a, c, 1, x);
      assert Iterate(a, c, 0, x) == x;
      hide Iterate;
      ComesBack(a, c, u, v, Pow2(j), x);
    } else {
      var h := (a + 1) / 2;
      Squared(a, c, u, v, h, Pow2(j));
      Twice(j);
      Twice(k - 1);
      hide Pow2, Iterate;
      OddSquare(a);
      Returns(a * a, c * (a + 1), u * h, v * h, j + 1, k - 1, x);
      IterateDouble(a, c, Pow2(k - 1), x);
    }
  }

  lemma OneIsPow()
    ensures Pow2(0) == 1
  {
  }

  lemma Twice(j: nat)
    ensures Pow2(j + 1) == 2 * Pow2(j)
  {
  }

  lemma ComesBack(a: int, c: int, u: int, v: int, p: int, x: int)
    requires p > 0 && a == 1 + u * p && c == v * p
    ensures Cong(a * x + c, x, p)
  {
    assert a * x == x + (u * x) * p;
    assert a * x + c - x == (u * x + v) * p + 0;
    DivIs(a * x + c - x, p, u * x + v, 0);
  }

  lemma OddSquare(a: int)
    requires a % 2 == 1
    ensures (a * a) % 2 == 1
  {
    var h := a / 2;
    assert a == 2 * h + 1;
    assert a * a == (2 * h * h + 2 * h) * 2 + 1;
  }

  lemma Squared(a: int, c: int, u: int, v: int, h: int, p: int)
    requires a % 2 == 1 && h == (a + 1) / 2 && a == 1 + u * p && c == v * p
    ensures a * a == 1 + (u * h) * (2 * p) && c * (a + 1) == (v * h) * (2 * p)
  {
    assert a + 1 == 2 * h;
    TwiceOver(u, h, p);
    TwiceOver(v, h, p);
    assert (a - 1) * (a + 1) == a * a - 1;
  }

  lemma TwiceOver(u: int, h: int, p: int)
    ensures (u * p) * (2 * h) == (u * h) * (2 * p)
  {
    assert (u * p) * (2 * h) == 2 * (u * p * h);
    assert (u * h) * (2 * p) == 2 * (u * h * p);
    assert u * p * h == u * h * p;
  }

  /** 2^63 steps lead back to the seed, so that steps may be counted modulo 2^63. */
  lemma {:induction false} FullPeriod(n: nat, seed: int)
    ensures Cong(Iterate(A, C, n, seed), Iterate(A, C, n % M, seed), M)
  {
    hide Iterate, Pow2;
    if n < M {
      CongRefl(Iterate(A, C, n, seed), M);
    } else {
      FullPeriod(n - M, seed);
      ModShift(n, -1, M);
      var y := Iterate(A, C, n - M, seed);
      IterateAdd(A, C, M, n - M, seed);
      OneIsPow();
      Pow2Is63();
      Returns(A, C, A - 1, C, 0, 63, y);
      CongTransitive(Iterate(A, C, n, seed), y, Iterate(A, C, n % M, seed), M);
    }
  }

  /** fast_forward_LCG: equals n successive steps, for every 64-bit n, in as many rounds as n modulo 2^63 has binary
      digits. */
  method FastForward(seed: int, n0: nat) returns (r: int, ghost rounds: nat)
    requires 0 <= seed < TWO64 && n0 < TWO64
    ensures r == Steps(seed, n0) % M && (n0 > 0 ==> r == Steps(seed, n0))
    ensures if n0 % M == 0 then rounds == 0 else rounds > 0 && Pow2(rounds - 1) <= n0 % M < Pow2(rounds)
  {
    hide Steps, Iterate, Pow2, Low64, Remaining, Halved;
    var a, c := A, C;
    var n := n0 % M;
    ghost var n1 := n;
    var a_new, c_new := 1, 0;
    ghost var goal := Iterate(A, C, n1, seed);
    NothingDone(seed, n1);
    rounds := 0;
    RoundsStart(n1);
    while n > 0
      invariant 0 <= n && Remaining(a, c, a_new, c_new, n, seed, goal)
      invariant Halved(n, rounds, n1)
    {
      RoundNext(n, rounds, n1);
      if n % 2 == 1 {
        OddStep(a, c, a_new, c_new, n, seed, goal);
        a_new, c_new := Low64(a_new * a), Low64(Low64(c_new * a) + c);
      }
      DoubleStep(a, c, a_new, c_new, n / 2, seed, goal);
      c := Low64(c * Low64(a + 1));
      a := Low64(a * a);
      n := n / 2;
      rounds := rounds + 1;
    }
    RoundsEnd(rounds, n1);
    r := Low64(Low64(a_new * seed) + c_new) % M;
    Arrived(a, c, a_new, c_new, seed, n0, n1);
  }

  lemma SumMod(x: int, y: int)
    ensures (x % TWO64 + y) % TWO64 == (x + y) % TWO64
  {
    ModMod(x, TWO64);
    ModSame(x % TWO64 + y, x + y, TWO64);
  }

  lemma Arrived(a: int, c: int, a_new: int, c_new: int, seed: int, n0: nat, n1: nat)
    requires n1 == n0 % M && Remaining(a, c, a_new, c_new, 0, seed, Iterate(A, C, n1, seed))
    ensures Low64(Low64(a_new * seed) + c_new) % M == Steps(seed, n0) % M &&
            (n0 > 0 ==> Steps(seed, n0) == Steps(seed, n0) % M)
  {
    SumMod(a_new * seed, c_new);
    var x, goal := a_new * seed + c_new, Iterate(A, C, n1, seed);
    assert Iterate(a, c, 0, x) == x;
    ModTwice(x);
    ModSame(x, goal, TWO64);
    ModTwice(goal);
    FullPeriod(n0, seed);
    ModSame(Iterate(A, C, n0, seed), goal, M);
    StepsAre(seed, n0);
    ModSame(Iterate(A, C, n0, seed), Steps(seed, n0), M);
    StepsBelow(seed, n0);
  }

  lemma StepsBelow(seed: int, n: nat)
    ensures n > 0 ==> Steps(seed, n) == Steps(seed, n) % M
  {
    if n > 0 {
      var y := A * Steps(seed, n - 1) + C;
      assert Steps(seed, n) == y % M;
    }
  }

  /** n is what is left of n1 after it has been halved that often. */
  ghost predicate Halved(n: nat, rounds: nat, n1: nat) {
    n * Pow2(rounds) <= n1 < (n + 1) * Pow2(rounds) && (rounds > 0 ==> Pow2(rounds - 1) <= n1)
  }

  lemma RoundsStart(n: nat)
    ensures Halved(n, 0, n)
  {
    assert Pow2(0) == 1;
  }

  lemma RoundNext(n: nat, k: nat, n1: nat)
    requires n > 0 && Halved(n, k, n1)
    ensures Halved(n / 2, k + 1, n1)
  {
    assert Pow2(k + 1) == 2 * Pow2(k);
    hide Pow2;
    RoundArith(n, n / 2, Pow2(k), n1);
  }

  lemma RoundsEnd(rounds: nat, n1: nat)
    requires Halved(0, rounds, n1)
    ensures if n1 == 0 then rounds == 0 else rounds > 0 && Pow2(rounds - 1) <= n1 < Pow2(rounds)
  {
    assert Pow2(0) == 1;
  }

  lemma RoundArith(n: nat, h: nat, p: nat, n0: nat)
    requires 2 * h <= n <= 2 * h + 1 && n > 0 && n * p <= n0 < (n + 1) * p
    ensures h * (2 * p) <= n0 < (h + 1) * (2 * p) && p <= n0
  {
    MulLess(2 * h, n, p);
    MulLess(n + 1, 2 * h + 2, p);
    MulLess(1, n, p);
    Regroup2(h, p);
    Regroup2(h + 1, p);
  }

  lemma Regroup2(h: int, p: int)
    ensures (2 * h) * p == h * (2 * p)
  {
  }

  lemma MulLess(a: int, b: int, p: int)
    requires a <= b && p >= 0
    ensures a * p <= b * p
  {
  }
}
