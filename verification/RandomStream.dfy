/** The random number stream of the integer sort: x becomes a * x modulo 2^46, computed on 23-bit halves, and every
    thread skips to its own part of the stream. All values are integers below 2^53, which the program's doubles hold
    exactly. */
module RandomStream {
  import opened NumberTheory
  import opened Arith

  const T23: int := 0x80_0000
  const T46: int := 0x4000_0000_0000
  const EXACT: int := 0x20_0000_0000_0000

  lemma HalvesProduct(a1: int, a2: int, x1: int, x2: int, t1: int, z: int)
    requires t1 == a1 * x2 + a2 * x1 && z == t1 % T23
    ensures (T23 * z + a2 * x2) % T46 == ((T23 * a1 + a2) * (T23 * x1 + x2)) % T46
  {
    var q := t1 / T23;
    assert t1 == q * T23 + z;
    assert T46 == T23 * T23;
    var full := (T23 * a1 + a2) * (T23 * x1 + x2);
    Expand(a1, a2, x1, x2);
    assert full == T23 * z + a2 * x2 + (a1 * x1 + q) * T46;
    ModShift(T23 * z + a2 * x2, a1 * x1 + q, T46);
  }

  lemma Expand(a1: int, a2: int, x1: int, x2: int)
    ensures (T23 * a1 + a2) * (T23 * x1 + x2) == T46 * (a1 * x1) + T23 * (a1 * x2 + a2 * x1) + a2 * x2
  {
    var u := T23 * x1 + x2;
    assert (T23 * a1 + a2) * u == (T23 * a1) * u + a2 * u by { Distribute(T23 * a1, a2, u); }
    assert (T23 * a1) * u == T23 * (a1 * u) && a1 * u == a1 * (T23 * x1) + a1 * x2 &&
           a1 * (T23 * x1) == T23 * (a1 * x1);
    assert a2 * u == a2 * (T23 * x1) + a2 * x2 && a2 * (T23 * x1) == T23 * (a2 * x1);
  }

  lemma SmallProduct(a: int, b: int)
    requires 0 <= a < T23 && 0 <= b < T23
    ensures 0 <= a * b < T46
  {
    assert a * b <= a * T23 <= T23 * T23;
  }

  /** randlc: the new x. No intermediate value exceeds what a double holds exactly. */
  method Randlc(x: int, a: int) returns (x': int)
    requires 0 <= x < T46 && 0 <= a < T46
    ensures x' == (a * x) % T46
  {
    var a1 := a / T23;
    var a2 := a - T23 * a1;
    var x1 := x / T23;
    var x2 := x - T23 * x1;
    SmallProduct(a1, x2);
    SmallProduct(a2, x1);
    SmallProduct(a2, x2);
    var t1 := a1 * x2 + a2 * x1;
    var t2 := t1 / T23;
    var z := t1 - T23 * t2;
    var t3 := T23 * z + a2 * x2;
    assert t1 < EXACT && t3 < EXACT;
    var t4 := t3 / T46;
    x' := t3 - T46 * t4;
    HalvesProduct(a1, a2, x1, x2, t1, z);
  }

  // ---- Skipping ---------------------------------------------------------------------------------

  /** The n-th value of the stream behind s. */
  ghost function Stream(s: int, a: int, n: nat): int { (Pow(a, n) * s) % T46 }

  lemma StreamNext(s: int, a: int, n: nat)
    ensures (a * Stream(s, a, n)) % T46 == Stream(s, a, n + 1) && 0 <= Stream(s, a, n) < T46
  {
    var p := Pow(a, n) * s;
    CongMod(p, T46);
    CongRefl(a, T46);
    CongTimes(a, a, p, p % T46, T46);
    ModSame(a * p, a * (p % T46), T46);
    assert Pow(a, n + 1) * s == a * p;
  }

  /** The value still to be computed does not change: t2^kk * t1. */
  ghost predicate Pending(t1: int, t2: int, kk: nat, goal: int) {
    Cong(Pow(t2, kk) * t1, goal, T46)
  }

  lemma SquareStep(t1: int, t2: int, kk: nat, goal: int)
    requires Pending(t1, t2, 2 * kk, goal)
    ensures Pending(t1, (t2 * t2) % T46, kk, goal)
  {
    PowTimes(t2, 2, kk);
    assert Pow(t2, 2) == t2 * t2 by { PowLast(t2, 2); PowLast(t2, 1); assert Pow(t2, 0) == 1; }
    hide Pow;
    CongMod(t2 * t2, T46);
    CongSymmetric(t2 * t2, (t2 * t2) % T46, T46);
    PowCong((t2 * t2) % T46, t2 * t2, kk, T46);
    CongRefl(t1, T46);
    CongTimes(Pow((t2 * t2) % T46, kk), Pow(t2, 2 * kk), t1, t1, T46);
    CongTransitive(Pow((t2 * t2) % T46, kk) * t1, Pow(t2, 2 * kk) * t1, goal, T46);
  }

  lemma MultiplyStep(t1: int, t2: int, kk: nat, goal: int)
    requires Pending(t1, t2, kk, goal) && kk > 0
    ensures Pending((t2 * t1) % T46, t2, kk - 1, goal)
  {
    PowLast(t2, kk);
    hide Pow;
    var p := Pow(t2, kk - 1);
    CongMod(t2 * t1, T46);
    CongSymmetric(t2 * t1, (t2 * t1) % T46, T46);
    CongRefl(p, T46);
    CongTimes(p, p, (t2 * t1) % T46, t2 * t1, T46);
    assert p * (t2 * t1) == (p * t2) * t1;
    CongTransitive(p * ((t2 * t1) % T46), Pow(t2, kk) * t1, goal, T46);
  }

  /** find_my_seed: the place in the stream where thread kn begins. When there is nothing to skip, thread 0 has the seed
      itself; for any other thread the last multiplication is made all the same. */
  method FindMySeed(kn: nat, np: nat, nn: nat, s: int, a: int) returns (t1: int)
    requires np > 0 && 0 <= s < T46 && 0 <= a < T46
    ensures var nq := ((nn / 4 + np - 1) / np) * 4 * kn;
      t1 == if kn == 0 then s else Stream(s, a, if nq > 0 then nq else 1)
  {
    if kn == 0 { return s; }
    var mq := (nn / 4 + np - 1) / np;
    var nq := mq * 4 * kn;
    SkipCount(nn, np, kn);
    t1 := s;
    var t2 := a;
    var kk := nq;
    ghost var skip := if nq > 0 then nq else 1;
    ghost var goal := Pow(a, skip) * s;
    CongRefl(goal, T46);
    while kk > 1
      invariant 0 <= kk && 0 <= t1 < T46 && 0 <= t2 < T46 && Pending(t1, t2, if kk > 0 then kk else 1, goal)
      decreases kk
    {
      var ik := kk / 2;
      if 2 * ik == kk {
        SquareStep(t1, t2, ik, goal);
        t2 := Randlc(t2, t2);
        kk := ik;
      } else {
        MultiplyStep(t1, t2, kk, goal);
        t1 := Randlc(t1, t2);
        kk := kk - 1;
      }
    }
    MultiplyStep(t1, t2, 1, goal);
    t1 := Randlc(t1, t2);
    assert Pow(t2, 0) * t1 == t1;
    ModSame(t1, goal, T46);
  }

  lemma SkipCount(nn: nat, np: nat, kn: nat)
    requires np > 0
    ensures ((nn / 4 + np - 1) / np) * 4 * kn >= 0
  {
    QuotientBound(nn / 4 + np - 1, np, 1);
    var mq := (nn / 4 + np - 1) / np;
    assert mq * 4 * kn >= 0;
  }

  // ---- The key array ----------------------------------------------------------------------------

  /** The i-th key: four random numbers, added up and scaled. */
  ghost function KeyAt(seed: int, a: int, maxKey: int, i: nat): int {
    ((maxKey / 4) * (Stream(seed, a, 4 * i + 1) + Stream(seed, a, 4 * i + 2) +
                     Stream(seed, a, 4 * i + 3) + Stream(seed, a, 4 * i + 4))) / T46
  }

  /** The i-th key: the integer part of a quarter of the largest key value times the sum of the next four numbers of the
      stream, which are fractions with 46 bits. */
  lemma KeyIs(seed: int, a: int, maxKey: nat, i: nat)
    ensures exists x1, x2, x3, x4 :: FourNumbers(seed, a, 4 * i, x1, x2, x3, x4) &&
              KeyAt(seed, a, maxKey, i) * T46 <= (maxKey / 4) * (x1 + x2 + x3 + x4) <
              (KeyAt(seed, a, maxKey, i) + 1) * T46
  {
    var x1, x2, x3, x4 := Stream(seed, a, 4 * i + 1), Stream(seed, a, 4 * i + 2), Stream(seed, a, 4 * i + 3),
                          Stream(seed, a, 4 * i + 4);
    assert FourNumbers(seed, a, 4 * i, x1, x2, x3, x4);
    hide Stream, FourNumbers;
    var n := (maxKey / 4) * (x1 + x2 + x3 + x4);
    assert n == (n / T46) * T46 + n % T46;
  }

  ghost predicate FourNumbers(seed: int, a: int, n: nat, x1: int, x2: int, x3: int, x4: int) {
    IsNumber(seed, a, n + 1, x1) && IsNumber(seed, a, n + 2, x2) && IsNumber(seed, a, n + 3, x3) &&
    IsNumber(seed, a, n + 4, x4)
  }

  /** The n-th number of the stream as an integer. */
  ghost predicate IsNumber(seed: int, a: int, n: nat, x: int) {
    0 <= x < 0x4000_0000_0000 && x == Pow(a, n) * seed % T46
  }

  /** Every key is below the largest key value. */
  lemma KeyInRange(seed: int, a: int, maxKey: nat, i: nat)
    requires maxKey > 0
    ensures 0 <= KeyAt(seed, a, maxKey, i) < maxKey
  {
    StreamNext(seed, a, 4 * i + 1);
    StreamNext(seed, a, 4 * i + 2);
    StreamNext(seed, a, 4 * i + 3);
    StreamNext(seed, a, 4 * i + 4);
    hide Stream;
    Scaled(maxKey, Stream(seed, a, 4 * i + 1) + Stream(seed, a, 4 * i + 2) +
                   Stream(seed, a, 4 * i + 3) + Stream(seed, a, 4 * i + 4));
  }

  lemma Scaled(maxKey: nat, x: int)
    requires maxKey > 0 && 0 <= x < 4 * T46
    ensures 0 <= ((maxKey / 4) * x) / T46 < maxKey
  {
    var k := maxKey / 4;
    ProductOrder(k, x, 4 * T46);
    assert k * (4 * T46) == (4 * k) * T46;
    if k > 0 { BelowTimes(k * x, 4 * k, T46); }
  }

  lemma ProductOrder(k: nat, x: int, y: int)
    requires 0 <= x < y
    ensures 0 <= k * x && (if k > 0 then k * x < k * y else k * x == 0)
  {
  }

  lemma BelowTimes(a: int, n: nat, m: nat)
    requires m > 0 && 0 <= a < n * m
    ensures 0 <= a / m < n
  {
    var q := a / m;
    assert q * m <= a;
    QuotientBound(a, m, 1);
    NotAtLeast(q, n, m, a);
  }

  lemma NotAtLeast(q: int, n: int, m: nat, a: int)
    requires q * m <= a < n * m
    ensures q < n
  {
  }

  function Share(numKeys: nat, threads: nat): int
    requires threads > 0
  {
    (numKeys + threads - 1) / threads
  }

  /** A share is no larger than needed. */
  lemma ShareLeast(numKeys: nat, threads: nat)
    requires threads > 0 && numKeys > 0
    ensures threads * (Share(numKeys, threads) - 1) < numKeys <= threads * Share(numKeys, threads)
  {
    var n, q := numKeys + threads - 1, Share(numKeys, threads);
    assert n == q * threads + n % threads;
    assert threads * (q - 1) == q * threads - threads;
    ShareIs(numKeys, threads);
  }

  lemma ShareIs(numKeys: nat, threads: nat)
    requires threads > 0
    ensures Share(numKeys, threads) >= 0 && threads * Share(numKeys, threads) >= numKeys &&
            (numKeys > 0 ==> Share(numKeys, threads) > 0)
  {
    var n, q := numKeys + threads - 1, Share(numKeys, threads);
    assert n == q * threads + n % threads && n % threads <= threads - 1;
    assert q * threads >= numKeys;
    QuotientBound(n, threads, 1);
  }

  /** create_seq as one thread runs it: it fills its own share of the key array with exactly the keys that a single
      thread would put there. */
  method CreateSeq(seed: int, a: int, numKeys: nat, maxKey: nat, myid: nat, threads: nat, key_array: array<int>)
    requires myid < threads && 0 <= seed < T46 && 0 <= a < T46 && key_array.Length == numKeys
    modifies key_array
    ensures forall i ::
              0 <= i < numKeys && Share(numKeys, threads) * myid <= i < Share(numKeys, threads) * (myid + 1) ==>
                key_array[i] == KeyAt(seed, a, maxKey, i)
    ensures forall i ::
              0 <= i < numKeys && !(Share(numKeys, threads) * myid <= i < Share(numKeys, threads) * (myid + 1)) ==>
                key_array[i] == old(key_array[i])
  {
    hide Share, Stream, KeyAt;
    ShareIs(numKeys, threads);
    var mq := Share(numKeys, threads);
    ShareStart(mq, myid);
    var k1 := mq * myid;
    var k2 := k1 + mq;
    if k2 > numKeys { k2 := numKeys; }
    var s := FindMySeed(myid, threads, 4 * numKeys, seed, a);
    SeedPlace(seed, a, numKeys, myid, threads);
    var k := maxKey / 4;
    var i := k1;
    while i < k2
      invariant k1 <= i && (i <= k2 || i == k1) && (i < numKeys ==> s == Stream(seed, a, 4 * i)) && 0 <= s < T46
      invariant forall j :: 0 <= j < numKeys && k1 <= j < i ==> key_array[j] == KeyAt(seed, a, maxKey, j)
      invariant forall j :: 0 <= j < numKeys && !(k1 <= j < i) ==> key_array[j] == old(key_array[j])
    {
      FourNext(seed, a, maxKey, i);
      s := Randlc(s, a);
      var x := s;
      s := Randlc(s, a);
      x := x + s;
      s := Randlc(s, a);
      x := x + s;
      s := Randlc(s, a);
      x := x + s;
      key_array[i] := (k * x) / T46;
      i := i + 1;
    }
  }

  lemma ShareStart(mq: int, myid: nat)
    requires mq >= 0
    ensures 0 <= mq * myid && mq * (myid + 1) == mq * myid + mq
  {
  }

  /** The seed found by a thread that has keys is the serial stream's value before its first key. */
  lemma SeedPlace(seed: int, a: int, numKeys: nat, myid: nat, threads: nat)
    requires myid < threads && 0 <= seed < T46
    ensures var k1 := Share(numKeys, threads) * myid;
      var nq := (((4 * numKeys) / 4 + threads - 1) / threads) * 4 * myid;
      k1 >= 0 && nq == 4 * k1 && (numKeys > 0 && myid > 0 ==> nq > 0) && (myid == 0 ==> seed == Stream(seed, a, 0)) &&
      (forall n: nat :: 0 <= Stream(seed, a, n) < T46)
  {
    ShareIs(numKeys, threads);
    var mq := Share(numKeys, threads);
    assert (4 * numKeys) / 4 == numKeys;
    assert mq * 4 * myid == 4 * (mq * myid);
    if numKeys > 0 && myid > 0 { assert mq * myid >= 1; }
    assert Pow(a, 0) * seed == seed;
  }

  lemma FourNext(seed: int, a: int, maxKey: int, i: nat)
    ensures var x0, x1, x2, x3, x4 := Stream(seed, a, 4 * i), Stream(seed, a, 4 * i + 1), Stream(seed, a, 4 * i + 2),
                Stream(seed, a, 4 * i + 3), Stream(seed, a, 4 * (i + 1));
            
      x1 == (a * x0) % T46 && x2 == (a * x1) % T46 && x3 == (a * x2) % T46 && x4 == (a * x3) % T46 &&
      KeyAt(seed, a, maxKey, i) == ((maxKey / 4) * (x1 + x2 + x3 + x4)) / T46
  {
    StreamNext(seed, a, 4 * i);
    StreamNext(seed, a, 4 * i + 1);
    StreamNext(seed, a, 4 * i + 2);
    StreamNext(seed, a, 4 * i + 3);
    assert 4 * i + 3 + 1 == 4 * (i + 1);
  }

  lemma ShareHolds(mq: nat, i: nat, u: nat)
    requires mq > 0 && mq * u <= i < mq * (u + 1)
    ensures u == i / mq
  {
    ShareStart(mq, u);
    DivIs(i, mq, u, i - mq * u);
  }

  /** The shares cover the key array without overlap: every key belongs to exactly one thread. */
  lemma OneShare(numKeys: nat, threads: nat, i: nat) returns (t: nat)
    requires threads > 0 && i < numKeys
    ensures t < threads && Share(numKeys, threads) * t <= i < Share(numKeys, threads) * (t + 1)
    ensures forall u: nat :: Share(numKeys, threads) * u <= i < Share(numKeys, threads) * (u + 1) ==> u == t
  {
    ShareIs(numKeys, threads);
    hide Share;
    var mq := Share(numKeys, threads);
    t := i / mq;
    QuotientBound(i, mq, 1);
    assert i == t * mq + i % mq;
    ShareStart(mq, t);
    BelowThreads(t, threads, mq, i);
    forall u: nat | mq * u <= i < mq * (u + 1) ensures u == t {
      ShareHolds(mq, i, u);
    }
  }

  lemma MulOrder(a: int, b: int, m: nat)
    ensures a >= b ==> m * a >= m * b
  {
  }

  lemma BelowThreads(t: nat, threads: nat, mq: nat, i: nat)
    requires mq * t <= i < mq * threads
    ensures t < threads
  {
    MulOrder(t, threads, mq);
  }
}
