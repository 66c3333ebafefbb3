/** Prime numbers: Euclid's lemma, Fermat's little theorem, a primality certificate, and squares modulo a prime that is
    3 modulo 4. */
module NumberTheory {
  import opened Arith
  import opened Binomials

  ghost predicate Divides(d: int, n: int)
    requires d > 0
  {
    n % d == 0
  }

  ghost predicate Prime(p: int) {
    p > 1 && forall d :: 1 < d < p ==> !Divides(d, p)
  }

  lemma DividesMultiple(d: int, k: int)
    requires d > 0
    ensures Divides(d, k * d) && Divides(d, d * k)
  {
    DivIs(k * d, d, k, 0);
  }

  lemma DividesTimes(d: int, a: int, k: int)
    requires d > 0 && Divides(d, a)
    ensures Divides(d, a * k) && Divides(d, k * a)
  {
    var q := a / d;
    assert a == q * d;
    assert a * k == (q * k) * d;
    DividesMultiple(d, q * k);
  }

  lemma DividesSum(d: int, a: int, b: int)
    requires d > 0 && Divides(d, a) && Divides(d, b)
    ensures Divides(d, a + b) && Divides(d, a - b)
  {
    hide Divides;
    var p := Factor(d, a);
    var q := Factor(d, b);
    MultipleSum(d, p, q);
    MultipleSum(d, p, -q);
    Negated(q, d);
  }

  lemma Factor(d: int, a: int) returns (q: int)
    requires d > 0 && Divides(d, a)
    ensures a == q * d
  {
    q := a / d;
  }

  lemma Negated(q: int, d: int)
    ensures (-q) * d == -(q * d)
  {
  }

  lemma MultipleSum(d: int, p: int, q: int)
    requires d > 0
    ensures Divides(d, p * d + q * d)
  {
    Distribute(p, q, d);
    DividesMultiple(d, p + q);
  }

  lemma DividesSmall(d: int, a: int)
    requires d > 0 && Divides(d, a) && -d < a < d
    ensures a == 0
  {
    assert a == (a / d) * d;
    MulBelow(a / d, d, a);
  }

  lemma DividesTransitive(d: int, e: int, a: int)
    requires d > 0 && e > 0 && Divides(d, e) && Divides(e, a)
    ensures Divides(d, a)
  {
    assert a == (a / e) * e;
    DividesTimes(d, e, a / e);
  }

  /** Euclid's lemma, for a factor below the prime. */
  lemma {:induction false} EuclidBelow(p: int, a: int, b: int)
    requires Prime(p) && 0 < a < p && Divides(p, a * b)
    ensures Divides(p, b)
    decreases a
  {
    if a > 1 {
      assert !Divides(a, p);
      var q, m := p / a, p % a;
      assert m * b == p * b - q * (a * b) by {
        assert m == p - q * a;
        assert (p - q * a) * b == p * b - (q * a) * b;
        assert (q * a) * b == q * (a * b);
      }
      DividesMultiple(p, b);
      DividesTimes(p, a * b, q);
      DividesSum(p, p * b, q * (a * b));
      EuclidBelow(p, m, b);
    }
  }

  lemma Euclid(p: int, a: int, b: int)
    requires Prime(p) && Divides(p, a * b)
    ensures Divides(p, a) || Divides(p, b)
  {
    if !Divides(p, a) {
      var r, q := a % p, a / p;
      assert r * b == a * b - p * (q * b) by {
        assert r == a - q * p;
        assert (a - q * p) * b == a * b - (q * p) * b;
        assert (q * p) * b == p * (q * b);
      }
      DividesMultiple(p, q * b);
      DividesSum(p, a * b, p * (q * b));
      EuclidBelow(p, r, b);
    }
  }

  // ---- Congruence -------------------------------------------------------------------------------

  ghost predicate Cong(a: int, b: int, m: int)
    requires m > 0
  {
    Divides(m, a - b)
  }

  lemma CongAdd(a: int, b: int, c: int, d: int, m: int)
    requires m > 0 && Cong(a, b, m) && Cong(c, d, m)
    ensures Cong(a + c, b + d, m) && Cong(a - c, b - d, m)
  {
    DividesSum(m, a - b, c - d);
    assert (a + c) - (b + d) == (a - b) + (c - d) && (a - c) - (b - d) == (a - b) - (c - d);
  }

  lemma CongTimes(a: int, b: int, c: int, d: int, m: int)
    requires m > 0 && Cong(a, b, m) && Cong(c, d, m)
    ensures Cong(a * c, b * d, m)
  {
    DividesTimes(m, a - b, c);
    DividesTimes(m, c - d, b);
    DividesSum(m, (a - b) * c, b * (c - d));
    assert (a - b) * c + b * (c - d) == a * c - b * d by {
      assert (a - b) * c == a * c - b * c;
      assert b * (c - d) == b * c - b * d;
    }
  }

  lemma CongTransitive(a: int, b: int, c: int, m: int)
    requires m > 0 && Cong(a, b, m) && Cong(b, c, m)
    ensures Cong(a, c, m)
  {
    DividesSum(m, a - b, b - c);
  }

  lemma CongSymmetric(a: int, b: int, m: int)
    requires m > 0 && Cong(a, b, m)
    ensures Cong(b, a, m)
  {
    DividesTimes(m, a - b, -1);
  }

  lemma CongRefl(a: int, m: int)
    requires m > 0
    ensures Cong(a, a, m)
  {
  }

  lemma CongMod(a: int, m: int)
    requires m > 0
    ensures Cong(a, a % m, m)
  {
    ModMod(a, m);
  }

  // ---- Powers -----------------------------------------------------------------------------------

  ghost function Pow(a: int, e: nat): int {
    if e == 0 then 1 else Pow(a, e - 1) * a
  }

  lemma {:induction false} PowAdd(a: int, d: nat, e: nat)
    ensures Pow(a, d + e) == Pow(a, d) * Pow(a, e)
  {
    if e > 0 {
      PowAdd(a, d, e - 1);
      assert Pow(a, d) * Pow(a, e - 1) * a == Pow(a, d) * (Pow(a, e - 1) * a);
    }
  }

  lemma {:induction false} PowTimes(a: int, d: nat, e: nat)
    ensures d * e >= 0 && Pow(a, d * e) == Pow(Pow(a, d), e)
  {
    if e == 0 {
      assert d * e == 0;
    } else {
      PowTimes(a, d, e - 1);
      OneMore(e - 1, d);
      PowAdd(a, d * (e - 1), d);
    }
  }

  lemma {:induction false} PowCong(a: int, b: int, e: nat, m: int)
    requires m > 0 && Cong(a, b, m)
    ensures Cong(Pow(a, e), Pow(b, e), m)
  {
    if e > 0 {
      PowCong(a, b, e - 1, m);
      CongTimes(Pow(a, e - 1), Pow(b, e - 1), a, b, m);
    } else {
      CongRefl(1, m);
    }
  }

  lemma {:induction false} PowOne(e: nat)
    ensures Pow(1, e) == 1
  {
    if e > 0 { PowOne(e - 1); }
  }

  lemma {:induction false} PowProduct(a: int, b: int, e: nat)
    ensures Pow(a * b, e) == Pow(a, e) * Pow(b, e)
  {
    if e > 0 {
      PowProduct(a, b, e - 1);
      Regroup(Pow(a, e - 1), Pow(b, e - 1), a, b);
    }
  }

  lemma Regroup(x: int, y: int, a: int, b: int)
    ensures (x * y) * (a * b) == (x * a) * (y * b)
  {
    assert (x * y) * (a * b) == x * (y * (a * b));
    assert (x * a) * (y * b) == x * (a * (y * b));
    assert y * (a * b) == a * (y * b);
  }

  lemma {:induction false} PowMinusOne(e: nat)
    ensures Pow(-1, 2 * e) == 1 && Pow(-1, 2 * e + 1) == -1
  {
    if e > 0 { PowMinusOne(e - 1); assert Pow(-1, 2 * e) == Pow(-1, 2 * (e - 1) + 1) * -1; }
  }

  // ---- Fermat's little theorem ------------------------------------------------------------------

  /** The first m terms of the expansion of (x + 1)^n. */
  ghost function Expansion(n: nat, m: nat, x: int): int {
    if m == 0 then 0 else Expansion(n, m - 1, x) + Binomial(n, m - 1) * Pow(x, m - 1)
  }

  lemma {:induction false} ExpansionPascal(n: nat, m: nat, x: int)
    requires n > 0
    ensures Expansion(n, m + 1, x) == Expansion(n - 1, m + 1, x) + x * Expansion(n - 1, m, x)
  {
    if m == 0 {
      BinomialNone(n);
      BinomialNone(n - 1);
      assert Expansion(n, 1, x) == Expansion(n, 0, x) + Binomial(n, 0) * Pow(x, 0);
      assert Expansion(n - 1, 1, x) == Expansion(n - 1, 0, x) + Binomial(n - 1, 0) * Pow(x, 0);
    } else {
      ExpansionPascal(n, m - 1, x);
      Pascal(n, m);
      hide Binomial, Pow;
      var a, b, p, p' := Binomial(n - 1, m - 1), Binomial(n - 1, m), Pow(x, m - 1), Pow(x, m);
      assert p' == p * x by { PowLast(x, m); }
      ExpansionTerm(a, b, p, x, Expansion(n - 1, m - 1, x));
    }
  }

  lemma PowLast(x: int, m: nat)
    requires m > 0
    ensures Pow(x, m) == Pow(x, m - 1) * x
  {
  }

  lemma ExpansionTerm(a: int, b: int, p: int, x: int, e: int)
    ensures (a + b) * (p * x) + x * e == b * (p * x) + x * (e + a * p)
  {
    assert (a + b) * (p * x) == a * (p * x) + b * (p * x);
    assert x * (e + a * p) == x * e + x * (a * p);
    assert x * (a * p) == a * (p * x);
  }

  lemma ExpansionNext(n: nat, m: nat, x: int)
    ensures Expansion(n, m + 1, x) == Expansion(n, m, x) + Binomial(n, m) * Pow(x, m)
  {
  }

  lemma {:induction false} BinomialTheorem(n: nat, x: int)
    ensures Expansion(n, n + 1, x) == Pow(x + 1, n)
  {
    if n == 0 {
      assert Expansion(0, 1, x) == Expansion(0, 0, x) + Binomial(0, 0) * Pow(x, 0);
    } else {
      BinomialTheorem(n - 1, x);
      ExpansionPascal(n, n, x);
      BinomialAbove(n - 1, n);
      ExpansionNext(n - 1, n, x);
      hide Binomial, Pow, Expansion;
      PowLast(x + 1, n);
      var e := Expansion(n - 1, n, x);
      assert e + x * e == e * (x + 1);
    }
  }

  lemma BinomialDivisible(p: int, k: nat)
    requires Prime(p) && 0 < k < p
    ensures Divides(p, Binomial(p, k))
  {
    Absorption(p, k);
    DividesMultiple(p, Binomial(p - 1, k - 1));
    EuclidBelow(p, k, Binomial(p, k));
  }

  lemma {:induction false} ExpansionMod(p: int, m: nat, x: int)
    requires Prime(p) && 1 <= m <= p
    ensures Cong(Expansion(p, m, x), 1, p)
  {
    if m == 1 {
      BinomialNone(p);
      assert Expansion(p, 1, x) == Expansion(p, 0, x) + Binomial(p, 0) * Pow(x, 0) == 1;
    } else {
      ExpansionMod(p, m - 1, x);
      BinomialDivisible(p, m - 1);
      DividesTimes(p, Binomial(p, m - 1), Pow(x, m - 1));
      DividesSum(p, Expansion(p, m - 1, x) - 1, Binomial(p, m - 1) * Pow(x, m - 1));
    }
  }

  lemma BinomialSelf(n: nat)
    ensures Binomial(n, n) == 1
  {
    if n > 0 { BinomialSelf(n - 1); BinomialAbove(n - 1, n); }
  }

  lemma {:induction false} FermatNat(p: int, x: nat)
    requires Prime(p)
    ensures Cong(Pow(x, p), x, p)
  {
    if x == 0 {
      assert Pow(0, p) == 0;
    } else {
      var y := x - 1;
      FermatNat(p, y);
      BinomialTheorem(p, y);
      ExpansionMod(p, p, y);
      BinomialSelf(p);
      assert Expansion(p, p + 1, y) == Expansion(p, p, y) + Pow(y, p);
      CongAdd(Expansion(p, p, y), 1, Pow(y, p), y, p);
    }
  }

  lemma Fermat(p: int, x: nat)
    requires Prime(p) && !Divides(p, x)
    ensures Cong(Pow(x, p - 1), 1, p)
  {
    FermatNat(p, x);
    var y := Pow(x, p - 1);
    assert Pow(x, p) - x == x * (y - 1);
    Euclid(p, x, y - 1);
  }

  // ---- A primality certificate ------------------------------------------------------------------

  /** Exponents q, prime, and m, not a multiple of q, that both give 1 leave only the base 1. */
  lemma {:induction false} CommonOrder(r: int, b: int, q: int, m: int)
    requires r > 0 && Prime(q) && 0 < m < q && Cong(Pow(b, q), 1, r) && Cong(Pow(b, m), 1, r)
    ensures Cong(b, 1, r)
    decreases m
  {
    if m == 1 {
      assert Pow(b, 1) == Pow(b, 0) * b;
    } else {
      assert !Divides(m, q);
      var k, n := q / m, q % m;
      SmallerExponent(r, b, q, m);
      CommonOrder(r, b, q, n);
    }
  }

  lemma SmallerExponent(r: int, b: int, q: nat, m: nat)
    requires r > 0 && m > 0 && Cong(Pow(b, q), 1, r) && Cong(Pow(b, m), 1, r)
    ensures q % m >= 0 && Cong(Pow(b, q % m), 1, r)
  {
    var k, n := q / m, q % m;
    NotNegativeQuotient(q, m);
    assert q == m * k + n;
    PowTimes(b, m, k);
    PowAdd(b, m * k, n);
    hide Pow;
    PowCong(Pow(b, m), 1, k, r);
    PowOne(k);
    CongRefl(Pow(b, n), r);
    CongTimes(Pow(b, m * k), 1, Pow(b, n), Pow(b, n), r);
    CongSymmetric(Pow(b, q), Pow(b, n), r);
    CongTransitive(Pow(b, n), Pow(b, q), 1, r);
  }

  lemma NotNegativeQuotient(a: nat, b: nat)
    requires b > 0
    ensures a / b >= 0 && a % b >= 0
  {
  }

  /** Every prime divisor r of n is 1 modulo the prime s, when a^(n-1) is 1 modulo n and a^((n-1)/s) - 1 is
      invertible. */
  lemma DivisorForm(n: int, s: int, e: nat, a: nat, c: int, r: int)
    requires Prime(s) && Prime(r) && Divides(r, n) && n > 1 && n - 1 == e * s
    requires Cong(Pow(a, n - 1), 1, n) && Cong((Pow(a, e) - 1) * c, 1, n)
    ensures Divides(s, r - 1)
  {
    var b := Pow(a, e);
    PowTimes(a, e, s);
    hide Pow;
    DividesTransitive(r, n, Pow(b, s) - 1);
    DividesTransitive(r, n, (b - 1) * c - 1);
    if !Divides(s, r - 1) {
      if Divides(r, b) { RootOfZero(r, b, s); }
      FermatPower(r, a, e);
      var m := (r - 1) % s;
      NotNegativeQuotient(r - 1, s);
      SmallerExponent(r, b, r - 1, s);
      CommonOrder(r, b, s, m);
      DividesTimes(r, b - 1, c);
      DividesSum(r, (b - 1) * c, (b - 1) * c - 1);
      DividesSmall(r, 1);
    }
  }

  /** A multiple of r has no power that is 1. */
  lemma RootOfZero(r: int, b: int, s: nat)
    requires r > 1 && s > 0 && Divides(r, b)
    ensures !Cong(Pow(b, s), 1, r)
  {
    PowLast(b, s);
    hide Pow;
    DividesTimes(r, b, Pow(b, s - 1));
    if Cong(Pow(b, s), 1, r) {
      DividesSum(r, Pow(b, s), Pow(b, s) - 1);
      DividesSmall(r, 1);
    }
  }

  lemma FermatPower(r: int, a: nat, e: nat)
    requires Prime(r) && !Divides(r, Pow(a, e))
    ensures Cong(Pow(Pow(a, e), r - 1), 1, r)
  {
    PowNat(a, e);
    Fermat(r, Pow(a, e));
  }

  lemma {:induction false} PowNat(a: nat, e: nat)
    ensures Pow(a, e) >= 0
  {
    if e > 0 { PowNat(a, e - 1); }
  }

  /** A number that is not prime has a prime divisor whose square is not above it. */
  lemma {:induction false} SmallDivisor(n: int, d: int) returns (r: int)
    requires n > 1 && !Prime(n) && 2 <= d <= n && forall k :: 1 < k < d ==> !Divides(k, n)
    ensures Prime(r) && Divides(r, n) && r * r <= n
    decreases n - d
  {
    if d < n && Divides(d, n) {
      r := d;
      forall k | 1 < k < r && Divides(k, r) ensures false { DividesTransitive(k, r, n); }
      var c := n / d;
      assert n == c * d;
      if c < d {
        assert c > 1;
        DividesMultiple(c, d);
      }
      assert c >= d;
      assert d * d <= c * d;
    } else {
      if d == n { NoProperDivisor(n); }
      r := SmallDivisor(n, d + 1);
    }
  }

  lemma NoProperDivisor(n: int)
    requires n > 1 && forall k :: 1 < k < n ==> !Divides(k, n)
    ensures Prime(n)
  {
  }

  // ---- 4294967291 is prime ----------------------------------------------------------------------

  /** Powers modulo n by repeated squaring. */
  function PowMod(a: nat, e: nat, n: nat): (r: nat)
    requires n > 1
  {
    if e == 0 then 1
    else
      var h := PowMod(a, e / 2, n);
      if e % 2 == 0 then h * h % n else h * h * a % n
  }

  lemma {:induction false} PowModIs(a: nat, e: nat, n: nat)
    requires n > 1
    ensures Cong(Pow(a, e), PowMod(a, e, n), n)
  {
    if e == 0 {
      assert Pow(a, 0) == 1;
    } else {
      var h, p := PowMod(a, e / 2, n), Pow(a, e / 2);
      PowModIs(a, e / 2, n);
      PowAdd(a, e / 2, e / 2);
      CongTimes(p, h, p, h, n);
      if e % 2 == 0 {
        assert e == e / 2 + e / 2;
        CongMod(h * h, n);
        CongTransitive(p * p, h * h, h * h % n, n);
      } else {
        assert e - 1 == e / 2 + e / 2;
        PowLast(a, e);
        CongRefl(a, n);
        CongTimes(p * p, h * h, a, a, n);
        CongMod(h * h * a, n);
        CongTransitive(p * p * a, h * h * a, h * h * a % n, n);
      }
    }
  }

  /** A certificate for one prime factor s of n - 1 = e * s. */
  lemma DivisorFormBy(n: int, s: int, e: nat, a: nat, b: nat, c: int, r: int)
    requires Prime(s) && Prime(r) && Divides(r, n) && n > 1 && n - 1 == e * s
    requires PowMod(a, n - 1, n) == 1 && PowMod(a, e, n) == b && ((b - 1) * c) % n == 1
    ensures Divides(s, r - 1)
  {
    hide PowMod, Pow;
    PowModIs(a, n - 1, n);
    PowModIs(a, e, n);
    var x, y := Pow(a, e), PowMod(a, e, n);
    CongRefl(1, n);
    CongAdd(x, y, 1, 1, n);
    CongRefl(c, n);
    CongTimes(x - 1, y - 1, c, c, n);
    CongMod((y - 1) * c, n);
    CongTransitive((x - 1) * c, (y - 1) * c, 1, n);
    DivisorForm(n, s, e, a, c, r);
  }

  /** Trial division up to the square root. */
  lemma PrimeByTrial(n: nat, b: nat)
    requires 1 < n < b * b && forall d :: 1 < d < b ==> !Divides(d, n)
    ensures Prime(n)
  {
    if !Prime(n) {
      var r := SmallDivisor(n, 2);
      RootBelow(r, b);
    }
  }

  lemma Prime23()
    ensures Prime(23)
  {
    assert !Divides(2, 23) && !Divides(3, 23) && !Divides(4, 23);
    PrimeByTrial(23, 5);
  }

  lemma Prime181()
    ensures Prime(181)
  {
    assert !Divides(2, 181) && !Divides(3, 181) && !Divides(4, 181) && !Divides(5, 181) && !Divides(6, 181) &&
           !Divides(7, 181);
    assert !Divides(8, 181) && !Divides(9, 181) && !Divides(10, 181) && !Divides(11, 181) && !Divides(12, 181) &&
           !Divides(13, 181);
    PrimeByTrial(181, 14);
  }

  lemma Squares(a: nat, b: nat)
    requires a <= b
    ensures a * a <= b * b
  {
    assert a * a <= a * b <= b * b;
  }

  lemma BothDivide(s: int, k: int, x: int)
    requires Prime(s) && 0 < k && !Divides(s, k) && Divides(s, x) && Divides(k, x)
    ensures k * s > 0 && Divides(k * s, x)
  {
    var y := x / k;
    assert x == k * y;
    Euclid(s, k, y);
    var z := y / s;
    assert y == s * z;
    assert x == (k * s) * z by { assert k * (s * z) == (k * s) * z; }
    assert k * s > 0;
    DividesMultiple(k * s, z);
  }

  const Q: int := 22605091
  const P: int := 4294967291

  lemma PowZero(a: nat, n: nat)
    requires n > 1
    ensures PowMod(a, 0, n) == 1
  {
  }

  /** One squaring, from exponent e / 2 to exponent e. */
  lemma PowStep(a: nat, e: nat, n: nat, h: nat, r: nat)
    requires n > 1 && e > 0 && PowMod(a, e / 2, n) == h && r == if e % 2 == 0 then h * h % n else h * h * a % n
    ensures PowMod(a, e, n) == r
  {
  }

  lemma PowerQ()
    ensures PowMod(2, Q - 1, Q) == 1
  {
    hide PowMod;
    PowZero(2, Q);
    PowStep(2, 1, Q, 1, 2);
    PowStep(2, 2, Q, 2, 4);
    PowStep(2, 5, Q, 4, 32);
    PowStep(2, 10, Q, 32, 1024);
    PowStep(2, 21, Q, 1024, 2097152);
    PowStep(2, 43, Q, 2097152, 12288);
    PowStep(2, 86, Q, 12288, 15364398);
    PowStep(2, 172, Q, 15364398, 9245405);
    PowStep(2, 344, Q, 9245405, 1417176);
    PowStep(2, 689, Q, 1417176, 9194889);
    PowStep(2, 1379, Q, 9194889, 9440982);
    PowStep(2, 2759, Q, 9440982, 14705555);
    PowStep(2, 5518, Q, 14705555, 4214518);
    PowStep(2, 11037, Q, 4214518, 16546510);
    PowStep(2, 22075, Q, 16546510, 16623520);
    PowStep(2, 44150, Q, 16623520, 11828878);
    PowStep(2, 88301, Q, 11828878, 12323248);
    PowStep(2, 176602, Q, 12323248, 15810771);
    PowStep(2, 353204, Q, 15810771, 1122569);
    PowStep(2, 706409, Q, 1122569, 12908659);
    PowStep(2, 1412818, Q, 12908659, 3661599);
    PowStep(2, 2825636, Q, 3661599, 1713791);
    PowStep(2, 5651272, Q, 1713791, 118051);
    PowStep(2, 11302545, Q, 118051, 22605090);
    PowStep(2, 22605090, Q, 22605090, 1);
  }

  lemma PowerQ181()
    ensures PowMod(2, 124890, Q) == 13954217
  {
    hide PowMod;
    PowZero(2, Q);
    PowStep(2, 1, Q, 1, 2);
    PowStep(2, 3, Q, 2, 8);
    PowStep(2, 7, Q, 8, 128);
    PowStep(2, 15, Q, 128, 32768);
    PowStep(2, 30, Q, 32768, 11302547);
    PowStep(2, 60, Q, 11302547, 5651275);
    PowStep(2, 121, Q, 5651275, 14128192);
    PowStep(2, 243, Q, 14128192, 14834796);
    PowStep(2, 487, Q, 14834796, 19377874);
    PowStep(2, 975, Q, 19377874, 13741681);
    PowStep(2, 1951, Q, 13741681, 20502141);
    PowStep(2, 3902, Q, 20502141, 6514533);
    PowStep(2, 7805, Q, 6514533, 6576648);
    PowStep(2, 15611, Q, 6576648, 720283);
    PowStep(2, 31222, Q, 720283, 20761639);
    PowStep(2, 62445, Q, 20761639, 3051820);
    PowStep(2, 124890, Q, 3051820, 13954217);
  }

  lemma PowerQ23()
    ensures PowMod(2, 982830, Q) == 22417619
  {
    hide PowMod;
    PowZero(2, Q);
    PowStep(2, 1, Q, 1, 2);
    PowStep(2, 3, Q, 2, 8);
    PowStep(2, 7, Q, 8, 128);
    PowStep(2, 14, Q, 128, 16384);
    PowStep(2, 29, Q, 16384, 16953819);
    PowStep(2, 59, Q, 16953819, 14128183);
    PowStep(2, 119, Q, 14128183, 3532048);
    PowStep(2, 239, Q, 3532048, 17880993);
    PowStep(2, 479, Q, 17880993, 22150979);
    PowStep(2, 959, Q, 22150979, 5531793);
    PowStep(2, 1919, Q, 5531793, 14719569);
    PowStep(2, 3839, Q, 14719569, 11664464);
    PowStep(2, 7678, Q, 11664464, 16754661);
    PowStep(2, 15356, Q, 16754661, 10042159);
    PowStep(2, 30713, Q, 10042159, 14021260);
    PowStep(2, 61426, Q, 14021260, 1528603);
    PowStep(2, 122853, Q, 1528603, 13380424);
    PowStep(2, 245707, Q, 13380424, 2056979);
    PowStep(2, 491415, Q, 2056979, 18976668);
    PowStep(2, 982830, Q, 18976668, 22417619);
  }

  lemma PowerP()
    ensures PowMod(2, P - 1, P) == 1
  {
    hide PowMod;
    PowZero(2, P);
    PowStep(2, 1, P, 1, 2);
    PowStep(2, 3, P, 2, 8);
    PowStep(2, 7, P, 8, 128);
    PowStep(2, 15, P, 128, 32768);
    PowStep(2, 31, P, 32768, 2147483648);
    PowStep(2, 63, P, 2147483648, 2147483658);
    PowStep(2, 127, P, 2147483658, 2147483958);
    PowStep(2, 255, P, 2147483958, 2147678958);
    PowStep(2, 511, P, 2147678958, 1132017720);
    PowStep(2, 1023, P, 1132017720, 3026704579);
    PowStep(2, 2047, P, 3026704579, 2956805791);
    PowStep(2, 4095, P, 2956805791, 1942866765);
    PowStep(2, 8191, P, 1942866765, 3714305848);
    PowStep(2, 16383, P, 3714305848, 3031303048);
    PowStep(2, 32767, P, 3031303048, 353149209);
    PowStep(2, 65535, P, 353149209, 1153410921);
    PowStep(2, 131071, P, 1153410921, 3236959824);
    PowStep(2, 262143, P, 3236959824, 1576914029);
    PowStep(2, 524287, P, 1576914029, 578265673);
    PowStep(2, 1048575, P, 578265673, 2212816837);
    PowStep(2, 2097151, P, 2212816837, 889384459);
    PowStep(2, 4194303, P, 889384459, 3033467628);
    PowStep(2, 8388607, P, 3033467628, 289711946);
    PowStep(2, 16777215, P, 289711946, 1290348818);
    PowStep(2, 33554431, P, 1290348818, 3653646841);
    PowStep(2, 67108863, P, 3653646841, 4113184316);
    PowStep(2, 134217727, P, 4113184316, 2319251450);
    PowStep(2, 268435455, P, 2319251450, 1430430472);
    PowStep(2, 536870911, P, 1430430472, 2883293336);
    PowStep(2, 1073741822, P, 2883293336, 110536630);
    PowStep(2, 2147483645, P, 110536630, 4294967290);
    PowStep(2, 4294967290, P, 4294967290, 1);
  }

  lemma PowerP190()
    ensures PowMod(2, 190, P) == 1073745729
  {
    hide PowMod;
    PowZero(2, P);
    PowStep(2, 1, P, 1, 2);
    PowStep(2, 2, P, 2, 4);
    PowStep(2, 5, P, 4, 32);
    PowStep(2, 11, P, 32, 2048);
    PowStep(2, 23, P, 2048, 8388608);
    PowStep(2, 47, P, 8388608, 163840);
    PowStep(2, 95, P, 163840, 2147483708);
    PowStep(2, 190, P, 2147483708, 1073745729);
  }

  lemma DivisorOfQ(r: int)
    requires Prime(r) && Divides(r, Q)
    ensures Divides(4163, r - 1)
  {
    PowerQ();
    PowerQ181();
    PowerQ23();
    Prime181();
    Prime23();
    hide PowMod, Prime;
    assert ((13954217 - 1) * 19569746) % Q == 1 && ((22417619 - 1) * 7421446) % Q == 1;
    DivisorFormBy(Q, 181, 124890, 2, 13954217, 19569746, r);
    DivisorFormBy(Q, 23, 982830, 2, 22417619, 7421446, r);
    assert !Divides(23, 181);
    BothDivide(23, 181, r - 1);
  }

  lemma PrimeQ()
    ensures Prime(Q)
  {
    if !Prime(Q) {
      var r := SmallDivisor(Q, 2);
      assert Divides(2, 4164);
      DivisorOfQ(r);
      TooLarge(r, 4163, Q);
    }
  }

  lemma DivisorOfP(r: int)
    requires Prime(r) && Divides(r, P)
    ensures Divides(Q, r - 1)
  {
    PowerP();
    PowerP190();
    PrimeQ();
    hide PowMod, Prime;
    assert ((1073745729 - 1) * 1771216906) % P == 1;
    DivisorFormBy(P, Q, 190, 2, 1073745729, 1771216906, r);
  }

  lemma PrimeP()
    ensures Prime(P)
  {
    if !Prime(P) {
      var r := SmallDivisor(P, 2);
      DivisorOfP(r);
      TooLarge(r, Q, P);
      Squares(Q, r);
    }
  }

  lemma RootBelow(a: nat, b: nat)
    requires a * a < b * b
    ensures a < b
  {
    if b <= a { Squares(b, a); }
  }

  /** A number that is 1 modulo m is m + 1, or its square is above 4 * m * m. */
  lemma TooLarge(r: int, m: int, n: int)
    requires r > 1 && m > 0 && Divides(m, r - 1) && r * r <= n < 4 * m * m
    ensures r == m + 1
  {
    var k := (r - 1) / m;
    assert r - 1 == k * m && (2 * m) * (2 * m) == 4 * m * m;
    RootBelow(r, 2 * m);
  }

  // ---- Squares modulo a prime that is 3 modulo 4 ------------------------------------------------

  /** The odd powers of opposite squares are opposite. */
  lemma OppositePowers(p: int, a: nat, b: nat, h: nat)
    requires p > 0 && h % 2 == 1 && Divides(p, a * a + b * b)
    ensures Divides(p, Pow(a, 2 * h) + Pow(b, 2 * h))
  {
    SquarePower(a, h);
    SquarePower(b, h);
    PowMinusOne(h / 2);
    hide Pow, Divides;
    assert a * a - -(b * b) == a * a + b * b && -(b * b) == -1 * (b * b) && h == 2 * (h / 2) + 1;
    PowCong(a * a, -(b * b), h, p);
    PowProduct(-1, b * b, h);
    assert Pow(a, 2 * h) - -Pow(b, 2 * h) == Pow(a, 2 * h) + Pow(b, 2 * h);
  }

  /** Two numbers that are 1 modulo p > 2 are not opposite. */
  lemma OnesNotOpposite(p: int, x: int, y: int)
    requires p > 2 && Divides(p, x - 1) && Divides(p, y - 1)
    ensures !Divides(p, x + y)
  {
    if Divides(p, x + y) {
      DividesSum(p, x + y, x - 1);
      DividesSum(p, (x + y) - (x - 1), y - 1);
      assert (x + y) - (x - 1) - (y - 1) == 2;
      DividesSmall(p, 2);
    }
  }

  lemma NeitherDivides(p: int, a: nat, b: nat)
    requires Prime(p) && Divides(p, a * a + b * b) && Divides(p, b)
    ensures Divides(p, a)
  {
    DividesTimes(p, b, b);
    DividesSum(p, a * a + b * b, b * b);
    assert a * a + b * b - b * b == a * a;
    Euclid(p, a, a);
  }

  /** A square and the negative of a square are only congruent when both are 0. */
  lemma NoOppositeSquares(p: int, a: nat, b: nat)
    requires Prime(p) && p % 4 == 3 && Divides(p, a * a + b * b)
    ensures Divides(p, a)
  {
    if !Divides(p, a) {
      hide Pow, Divides, Prime;
      if Divides(p, b) { NeitherDivides(p, a, b); }
      var h := (p - 1) / 2;
      assert p - 1 == 2 * h && h % 2 == 1;
      Fermat(p, a);
      Fermat(p, b);
      OppositePowers(p, a, b, h);
      OnesNotOpposite(p, Pow(a, p - 1), Pow(b, p - 1));
    }
  }

  lemma SquarePower(a: nat, h: nat)
    ensures Pow(a * a, h) == Pow(a, 2 * h)
  {
    PowTimes(a, 2, h);
    assert Pow(a, 2) == a * a by { PowLast(a, 2); PowLast(a, 1); assert Pow(a, 0) == 1; }
  }

  /** Equal squares come from equal or opposite numbers. */
  lemma EqualSquares(p: int, a: nat, b: nat)
    requires Prime(p) && Divides(p, a * a - b * b)
    ensures Divides(p, a - b) || Divides(p, a + b)
  {
    assert a * a - b * b == (a - b) * (a + b);
    Euclid(p, a - b, a + b);
  }
}
