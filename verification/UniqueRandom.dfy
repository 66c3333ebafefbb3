/** The generator of unique random numbers: a permutation of the 32-bit values built from squares modulo a prime,
    applied to a shared counter. */
module UniqueRandom {
  import opened NumberTheory
  import opened Arith
  import opened SeqEdit

  const TWO32: int := 0x1_0000_0000

  type uint32 = x: int | 0 <= x < 0x1_0000_0000

  /** rand_unique_permute: the five values from the prime on are mapped to themselves. */
  function Permute(x: uint32): uint32 {
    if x >= P then x
    else
      var residue := (x * x) % P;
      if x <= P / 2 then residue else P - residue
  }

  lemma ResidueNonzero(x: uint32)
    requires 0 < x < P
    ensures (x * x) % P != 0
  {
    PrimeP();
    if Divides(P, x * x) {
      Euclid(P, x, x);
      DividesSmall(P, x);
    }
  }

  lemma PermuteBelow(x: uint32)
    ensures x < P <==> Permute(x) < P
  {
    if P / 2 < x < P { ResidueNonzero(x); }
  }

  /** Equal residues of the squares make the difference of the squares divisible. */
  lemma SameResidue(x: uint32, y: uint32)
    requires (x * x) % P == (y * y) % P
    ensures Divides(P, x * x - y * y)
  {
    ModSame(x * x, y * y, P);
  }

  lemma OppositeResidue(x: uint32, y: uint32)
    requires (x * x) % P == P - (y * y) % P
    ensures Divides(P, x * x + y * y)
  {
    var a, b := (x * x) / P, (y * y) / P;
    assert x * x + y * y == (a + b + 1) * P;
    DividesMultiple(P, a + b + 1);
  }

  lemma HalvesInjective(x: uint32, y: uint32)
    requires x < P && y < P && (x <= P / 2 <==> y <= P / 2) && (x * x) % P == (y * y) % P
    ensures x == y
  {
    PrimeP();
    SameResidue(x, y);
    EqualSquares(P, x, y);
    if Divides(P, x - y) {
      DividesSmall(P, x - y);
    } else if x <= P / 2 {
      DividesSmall(P, x + y);
    } else {
      DividesMultiple(P, 1);
      DividesSum(P, x + y, P);
      DividesSmall(P, x + y - P);
    }
  }

  lemma HalvesApart(x: uint32, y: uint32)
    requires x <= P / 2 < y < P
    ensures Permute(x) != Permute(y)
  {
    if Permute(x) == Permute(y) {
      PrimeP();
      OppositeResidue(x, y);
      assert y * y + x * x == x * x + y * y;
      NoOppositeSquares(P, y, x);
      DividesSmall(P, y);
    }
  }

  lemma PermuteInjective(x: uint32, y: uint32)
    requires Permute(x) == Permute(y)
    ensures x == y
  {
    PermuteBelow(x);
    PermuteBelow(y);
    if x < P && y < P {
      if x <= P / 2 < y { HalvesApart(x, y); }
      if y <= P / 2 < x { HalvesApart(y, x); }
      HalvesInjective(x, y);
    }
  }

  /** Any map of the 32-bit values into themselves that never repeats a value reaches every value. */
  lemma Surjective(f: uint32 -> uint32, y: uint32) returns (x: uint32)
    requires forall a, b :: f(a) == f(b) ==> a == b
    ensures f(x) == y
  {
    x := 0;
    if k: uint32 :| f(k) == y {
      x := k;
    } else {
      var r := seq(TWO32, i requires 0 <= i < TWO32 => var v: int := f(i); if v > y then v - 1 else v);
      forall i, j | 0 <= i < j < |r| ensures r[i] != r[j] {
        var a: uint32, b: uint32 := i, j;
        assert f(a) != f(b) && f(a) != y && f(b) != y;
      }
      forall i | 0 <= i < |r| ensures 0 <= r[i] < TWO32 - 1 {
        var a: uint32 := i;
        assert f(a) != y;
      }
      Pigeonhole(r, TWO32 - 1);
    }
  }

  /** rand_unique_permute is a bijection of the 32-bit values. */
  lemma PermuteBijective(y: uint32) returns (x: uint32)
    ensures Permute(x) == y && forall z: uint32 :: Permute(z) == y ==> z == x
  {
    forall a: uint32, b: uint32 | Permute(a) == Permute(b) ensures a == b { PermuteInjective(a, b); }
    x := Surjective(Permute, y);
  }

  // ---- The value for a counter reading ----------------------------------------------------------

  function Add32(x: uint32, y: uint32): uint32 { (x + y) % TWO32 }

  /** Exclusive or of the lowest n bits, bit by bit. */
  function XorBits(x: nat, c: nat, n: nat): (r: nat)
    ensures r < Pow2(n)
  {
    if n == 0 then 0 else 2 * XorBits(x / 2, c / 2, n - 1) + (x % 2 + c % 2) % 2
  }

  function Xor(x: uint32, c: uint32): uint32 {
    Pow2Is32();
    XorBits(x, c, 32)
  }

  lemma Pow2Is32()
    ensures Pow2(32) == TWO32
  {
    assert Pow2(8) == 256;
    assert Pow2(16) == 0x1_0000;
    assert Pow2(24) == 0x100_0000;
  }

  function Value(index: uint32, offset: uint32): uint32 {
    Permute(Xor(Add32(Permute(index), offset), 0x5bf03635))
  }

  lemma AddInjective(x: uint32, y: uint32, c: uint32)
    requires Add32(x, c) == Add32(y, c)
    ensures x == y
  {
  }

  lemma {:induction false} XorBitsInjective(x: nat, y: nat, c: nat, n: nat)
    requires x < Pow2(n) && y < Pow2(n) && XorBits(x, c, n) == XorBits(y, c, n)
    ensures x == y
  {
    if n > 0 {
      var p, q := XorBits(x / 2, c / 2, n - 1), XorBits(y / 2, c / 2, n - 1);
      SameBits(x, y, c, p, q);
      XorBitsInjective(x / 2, y / 2, c / 2, n - 1);
    }
  }

  lemma SameBits(x: nat, y: nat, c: nat, p: nat, q: nat)
    requires 2 * p + (x % 2 + c % 2) % 2 == 2 * q + (y % 2 + c % 2) % 2
    ensures p == q && (x / 2 == y / 2 ==> x == y)
  {
  }

  lemma XorInjective(x: uint32, y: uint32, c: uint32)
    requires Xor(x, c) == Xor(y, c)
    ensures x == y
  {
    Pow2Is32();
    XorBitsInjective(x, y, c, 32);
  }

  lemma ValueInjective(i: uint32, j: uint32, offset: uint32)
    requires Value(i, offset) == Value(j, offset)
    ensures i == j
  {
    hide Permute, Xor, Add32;
    var a, b := Add32(Permute(i), offset), Add32(Permute(j), offset);
    PermuteInjective(Xor(a, 0x5bf03635), Xor(b, 0x5bf03635));
    XorInjective(a, b, 0x5bf03635);
    AddInjective(Permute(i), Permute(j), offset);
    PermuteInjective(i, j);
  }

  // ---- The numbers by squares and bits --------------------------------------------------------------

  /** Below the prime, y is the square of x modulo the prime, negated for the upper half; the five values from the prime
      on stay what they are. */
  ghost predicate SignedSquare(x: uint32, y: uint32) {
    if x >= 4294967291 then y == x
    else y < 4294967291 && Divides(4294967291, if 2 * x < 4294967291 then y - x * x else y + x * x)
  }

  lemma PermuteIs(x: uint32)
    ensures SignedSquare(x, Permute(x))
  {
    if x < P {
      PermuteBelow(x);
      var q, r := (x * x) / P, (x * x) % P;
      Euclidean(x * x, q, r, P);
      DividesMultiple(P, -q);
      DividesMultiple(P, q + 1);
    }
  }

  lemma Euclidean(n: int, q: int, r: int, d: int)
    requires d > 0 && q == n / d && r == n % d
    ensures r - n == (-q) * d && (d - r) + n == (q + 1) * d
  {
  }

  /** There is only one such y. */
  lemma SignedSquareOnce(x: uint32, y: uint32, z: uint32)
    requires SignedSquare(x, y) && SignedSquare(x, z)
    ensures y == z
  {
    if x < P {
      var a, b := if 2 * x < P then y - x * x else y + x * x, if 2 * x < P then z - x * x else z + x * x;
      DividesSum(P, a, b);
      assert a - b == y - z;
      DividesSmall(P, y - z);
    }
  }

  ghost function Bit(x: nat, i: nat): int { if i == 0 then x % 2 else Bit(x / 2, i - 1) }

  /** The two numbers differ in exactly the bits that are set in the mask. */
  ghost predicate Flipped(x: uint32, z: uint32, mask: uint32) {
    forall i :: 0 <= i < 32 ==> (Bit(z, i) != Bit(x, i) <==> Bit(mask, i) == 1)
  }

  lemma {:induction false} XorBit(x: nat, c: nat, n: nat, i: nat)
    requires i < n
    ensures Bit(XorBits(x, c, n), i) == (Bit(x, i) + Bit(c, i)) % 2 && 0 <= Bit(x, i) < 2 && 0 <= Bit(c, i) < 2
  {
    var p, b := XorBits(x / 2, c / 2, n - 1), (x % 2 + c % 2) % 2;
    assert (2 * p + b) / 2 == p && (2 * p + b) % 2 == b;
    if i > 0 { XorBit(x / 2, c / 2, n - 1, i - 1); }
  }

  lemma XorFlips(x: uint32, c: uint32)
    ensures Flipped(x, Xor(x, c), c)
  {
    forall i | 0 <= i < 32 ensures Bit(Xor(x, c), i) != Bit(x, i) <==> Bit(c, i) == 1 { XorBit(x, c, 32, i); }
  }

  /** The result for a counter reading: two signed squares, and between them the offset added and bits flipped. */
  ghost predicate Scrambled(reading: uint32, offset: uint32, v: uint32) {
    exists y: uint32, z: uint32 ::
      SignedSquare(reading, y) && Flipped((y + offset) % TWO32, z, 0x5bf03635) && SignedSquare(z, v)
  }

  lemma ValueIs(index: uint32, offset: uint32)
    ensures Scrambled(index, offset, Value(index, offset))
  {
    hide Permute, Xor, SignedSquare, Flipped;
    var y := Permute(index);
    var z := Xor((y + offset) % TWO32, 0x5bf03635);
    PermuteIs(index);
    XorFlips((y + offset) % TWO32, 0x5bf03635);
    PermuteIs(z);
    assert SignedSquare(index, y) && Flipped((y + offset) % TWO32, z, 0x5bf03635);
  }

  // ---- Concurrent calls -------------------------------------------------------------------------

  /** A call that has read the counter but not returned: its number among all calls, and what it read. */
  datatype Ticket = Ticket(number: nat, index: uint32)

  datatype Result = Result(number: nat, value: uint32)

  /** The shared counter and offset, the calls under way and the calls that have returned. `calls` counts the
      increments. */
  datatype State = State(index: uint32, offset: uint32, calls: nat, pending: map<int, Ticket>, returned: seq<Result>)

  datatype Step = FetchAndAdd(thread: int) | Return(thread: int)

  /** rand_unique_seed */
  function Seeded(index: uint32, offset: uint32): State {
    State(Permute(Add32(Permute(index), 0x682f0161)), Permute(Add32(Permute(offset), 0x46790905)), 0, map[], [])
  }

  /** sb_rand_unique as two steps of one thread: the atomic increment, and the computation of the result. */
  function Apply(s: State, step: Step): State {
    match step
    case FetchAndAdd(t) =>
      if t in s.pending then s
      else s.(index := Add32(s.index, 1), calls := s.calls + 1, pending := s.pending[t := Ticket(s.calls, s.index)])
    case Return(t) =>
      if t !in s.pending then s
      else s.(pending := s.pending - {t},
               returned := s.returned + [Result(s.pending[t].number, Value(s.pending[t].index, s.offset))])
  }

  ghost function Run(s: State, steps: seq<Step>): State {
    if steps == [] then s else Apply(Run(s, steps[..|steps| - 1]), steps[|steps| - 1])
  }

  /** The initial counter and offset: two signed squares, and a constant added between them. */
  ghost predicate Stirred(x: uint32, constant: uint32, v: uint32) {
    exists y: uint32 :: SignedSquare(x, y) && SignedSquare((y + constant) % TWO32, v)
  }

  lemma SeededIs(index: uint32, offset: uint32)
    ensures Stirred(index, 0x682f0161, Seeded(index, offset).index)
    ensures Stirred(offset, 0x46790905, Seeded(index, offset).offset)
  {
    hide Permute, SignedSquare;
    PermuteIs(index);
    PermuteIs(offset);
    PermuteIs((Permute(index) + 0x682f0161) % TWO32);
    PermuteIs((Permute(offset) + 0x46790905) % TWO32);
  }

  /** What the counter showed to the call with the given number. */
  function Reading(start: uint32, number: nat): uint32 { (start + number) % TWO32 }

  /** Every call has its own number, and its reading and result belong to that number. */
  ghost predicate Inv(s: State, start: uint32) {
    s.index == Reading(start, s.calls) &&
    (forall t ::
       t in s.pending ==> s.pending[t].number < s.calls && s.pending[t].index == Reading(start, s.pending[t].number)) &&
    (forall t, u :: t in s.pending && u in s.pending && t != u ==> s.pending[t].number != s.pending[u].number) &&
    (forall i ::
       0 <= i < |s.returned| ==>
         s.returned[i].number < s.calls &&
         s.returned[i].value == Value(Reading(start, s.returned[i].number), s.offset)) &&
    (forall i, j :: 0 <= i < j < |s.returned| ==> s.returned[i].number != s.returned[j].number) &&
    (forall t, i :: t in s.pending && 0 <= i < |s.returned| ==> s.pending[t].number != s.returned[i].number)
  }

  lemma ReadingNext(start: uint32, number: nat)
    ensures Add32(Reading(start, number), 1) == Reading(start, number + 1)
  {
  }

  lemma StepKeeps(s: State, start: uint32, step: Step)
    requires Inv(s, start)
    ensures Inv(Apply(s, step), start) && Apply(s, step).offset == s.offset
  {
    hide Value, Reading, Add32;
    ReadingNext(start, s.calls);
  }

  lemma {:induction false} RunKeeps(s: State, start: uint32, steps: seq<Step>)
    requires Inv(s, start)
    ensures Inv(Run(s, steps), start) && Run(s, steps).offset == s.offset
  {
    if steps != [] {
      RunKeeps(s, start, steps[..|steps| - 1]);
      StepKeeps(Run(s, steps[..|steps| - 1]), start, steps[|steps| - 1]);
    }
  }

  lemma ReadingsApart(start: uint32, i: nat, j: nat)
    requires i < j < i + TWO32
    ensures Reading(start, i) != Reading(start, j)
  {
    if Reading(start, i) == Reading(start, j) {
      ModSame(start + j, start + i, TWO32);
      DividesSmall(TWO32, j - i);
    }
  }

  /** Under any interleaving of any threads, calls that are fewer than 2^32 increments apart return different values. */
  lemma UniqueValues(index: uint32, offset: uint32, steps: seq<Step>, i: nat, j: nat)
    requires var s := Run(Seeded(index, offset), steps);
      i < |s.returned| && j < |s.returned| && i != j && -TWO32 < s.returned[i].number - s.returned[j].number < TWO32
    ensures var s := Run(Seeded(index, offset), steps); s.returned[i].value != s.returned[j].value
  {
    hide Value, Permute, Add32, Reading, Inv, Run;
    var s0 := Seeded(index, offset);
    SeededInv(index, offset);
    RunKeeps(s0, s0.index, steps);
    UniqueIn(Run(s0, steps), s0.index, i, j);
  }

  lemma SeededInv(index: uint32, offset: uint32)
    ensures Inv(Seeded(index, offset), Seeded(index, offset).index)
  {
    hide Permute;
  }

  lemma UniqueIn(s: State, start: uint32, i: nat, j: nat)
    requires Inv(s, start) && i < |s.returned| && j < |s.returned| && i != j &&
             -TWO32 < s.returned[i].number - s.returned[j].number < TWO32
    ensures s.returned[i].value != s.returned[j].value
  {
    hide Value, Reading;
    var m, n := s.returned[i].number, s.returned[j].number;
    assert m != n;
    if m < n { ReadingsApart(start, m, n); } else { ReadingsApart(start, n, m); }
    if s.returned[i].value == s.returned[j].value { ValueInjective(Reading(start, m), Reading(start, n), s.offset); }
  }

  /** In every run, the call with number n returns the scrambled reading of the counter, which has moved on by n. */
  lemma ReturnedIs(index: uint32, offset: uint32, steps: seq<Step>, i: nat)
    requires i < |Run(Seeded(index, offset), steps).returned|
    ensures var s0, r := Seeded(index, offset), Run(Seeded(index, offset), steps).returned[i];
      Scrambled((s0.index + r.number) % TWO32, s0.offset, r.value)
  {
    hide Value, Permute, Add32, Run, Scrambled;
    var s0 := Seeded(index, offset);
    SeededInv(index, offset);
    RunKeeps(s0, s0.index, steps);
    ValueIs(Reading(s0.index, Run(s0, steps).returned[i].number), s0.offset);
  }

  /** Among any 2^32 consecutive readings of the counter exactly one gives the value. */
  lemma EveryReading(start: uint32, offset: uint32, first: nat, v: uint32) returns (k: nat)
    ensures first <= k < first + TWO32 && Value(Reading(start, k), offset) == v
    ensures forall j :: first <= j < first + TWO32 && Value(Reading(start, j), offset) == v ==> j == k
  {
    hide Value;
    forall a: uint32, b: uint32 | Value(a, offset) == Value(b, offset) ensures a == b { ValueInjective(a, b, offset); }
    var x := Surjective((i: uint32) => Value(i, offset), v);
    var d := (x - start - first) % TWO32;
    k := first + d;
    assert Reading(start, k) == x by { ModMod(x - start - first, TWO32); ModSame(start + k, x, TWO32); }
    forall j: nat | first <= j < first + TWO32 && Value(Reading(start, j), offset) == v ensures j == k {
      ValueInjective(Reading(start, j), Reading(start, k), offset);
      if j < k { ReadingsApart(start, j, k); } else if k < j { ReadingsApart(start, k, j); }
    }
  }

  /** The call with this number has returned. */
  ghost predicate HasReturned(s: State, n: nat) {
    exists i :: 0 <= i < |s.returned| && s.returned[i].number == n
  }

  ghost predicate UnderWay(s: State, n: nat) {
    exists t :: t in s.pending && s.pending[t].number == n
  }

  /** No call is lost. */
  ghost predicate Covered(s: State) {
    forall n: nat {:trigger HasReturned(s, n)} :: n < s.calls ==> HasReturned(s, n) || UnderWay(s, n)
  }

  lemma StepCovers(s: State, step: Step)
    requires Covered(s)
    ensures Covered(Apply(s, step))
  {
    hide Value, Add32;
    var s' := Apply(s, step);
    forall n: nat | n < s'.calls ensures HasReturned(s', n) || UnderWay(s', n) {
      if n < s.calls {
        assert HasReturned(s, n) || UnderWay(s, n);
        if HasReturned(s, n) {
          var i :| 0 <= i < |s.returned| && s.returned[i].number == n;
          assert s'.returned[i] == s.returned[i];
        } else {
          var t :| t in s.pending && s.pending[t].number == n;
          if t in s'.pending {
            assert s'.pending[t].number == n;
          } else {
            assert s'.returned[|s.returned|].number == n;
          }
        }
      } else {
        assert step.FetchAndAdd? && step.thread in s'.pending && s'.pending[step.thread].number == n;
      }
    }
  }

  lemma {:induction false} RunCovers(s: State, steps: seq<Step>)
    requires Covered(s)
    ensures Covered(Run(s, steps))
  {
    if steps != [] {
      hide Covered;
      RunCovers(s, steps[..|steps| - 1]);
      StepCovers(Run(s, steps[..|steps| - 1]), steps[|steps| - 1]);
    }
  }

  /** In every run, when no call is under way, every call has returned. */
  lemma AllReturned(index: uint32, offset: uint32, steps: seq<Step>, n: nat)
    requires var s := Run(Seeded(index, offset), steps); s.pending == map[] && n < s.calls
    ensures HasReturned(Run(Seeded(index, offset), steps), n)
  {
    hide Permute, Add32, Run;
    assert Covered(Seeded(index, offset));
    RunCovers(Seeded(index, offset), steps);
  }

  /** Under any interleaving of any threads, when 2^32 consecutively numbered calls have returned, every 32-bit value
      has been returned by exactly one of them. */
  lemma EveryValue(index: uint32, offset: uint32, steps: seq<Step>, first: nat, v: uint32) returns (i: nat)
    requires forall n: nat :: first <= n < first + TWO32 ==> HasReturned(Run(Seeded(index, offset), steps), n)
    ensures var s := Run(Seeded(index, offset), steps);
      i < |s.returned| && first <= s.returned[i].number < first + TWO32 && s.returned[i].value == v &&
      forall j :: 0 <= j < |s.returned| && first <= s.returned[j].number < first + TWO32 && s.returned[j].value == v ==>
        j == i
  {
    hide Value, Permute, Add32, Reading, Run;
    var s0 := Seeded(index, offset);
    SeededInv(index, offset);
    RunKeeps(s0, s0.index, steps);
    var s := Run(s0, steps);
    var k := EveryReading(s0.index, s.offset, first, v);
    assert HasReturned(s, k);
    i :| 0 <= i < |s.returned| && s.returned[i].number == k;
    forall j | 0 <= j < |s.returned| && first <= s.returned[j].number < first + TWO32 && s.returned[j].value == v
      ensures j == i
    {
      assert s.returned[j].number == k;
    }
  }
}
