/** The parallel integer sort behind the bucket phase: ranking the keys bucket by bucket, and putting the keys into
    their places. */
module IntegerSort {
  import opened RankScatter
  import opened BucketScatter
  import opened Arith

  ghost function AtMost(s: seq<int>, k: int): int -> bool { i => 0 <= i < |s| && s[i] <= k }
  ghost function Equal(s: seq<int>, k: int): int -> bool { i => 0 <= i < |s| && s[i] == k }
  ghost function BelowBucket(s: seq<int>, w: int, b: int): int -> bool { i => 0 <= i < |s| && w > 0 && s[i] / w < b }

  /** The number of keys up to k: the rank of the first key behind them. */
  ghost function RankOf(s: seq<int>, k: int): nat { Num(|s|, AtMost(s, k)) }

  /** The keys stand bucket by bucket. */
  ghost predicate Bucketed(s: seq<int>, w: int) {
    w > 0 && forall p, q :: 0 <= p < q < |s| ==> s[p] / w <= s[q] / w
  }

  /** Bucket b of the buffer ends at this position. */
  ghost function EndOf(s: seq<int>, w: int, b: int): nat { Num(|s|, BelowBucket(s, w, b + 1)) }

  lemma {:induction false} PrefixCount(n: nat, p: int -> bool)
    requires forall i, j :: 0 <= i < j < n && p(j) ==> p(i)
    ensures forall i :: 0 <= i < n ==> (p(i) <==> i < Num(n, p))
  {
    if n > 0 {
      PrefixCount(n - 1, p);
      if p(n - 1) { NumAll(n - 1, p); }
    }
  }

  /** In a bucketed buffer, bucket b occupies the positions between two ends. */
  lemma ZoneIs(s: seq<int>, w: int, b: int)
    requires Bucketed(s, w)
    ensures EndOf(s, w, b) <= |s| && forall i :: 0 <= i < |s| ==> (s[i] / w <= b <==> i < EndOf(s, w, b))
  {
    var p := BelowBucket(s, w, b + 1);
    forall i, j | 0 <= i < j < |s| && p(j) ensures p(i) { assert s[i] / w <= s[j] / w; }
    PrefixCount(|s|, p);
    forall i | 0 <= i < |s| ensures s[i] / w <= b <==> i < EndOf(s, w, b) { assert p(i) <==> s[i] / w < b + 1; }
  }

  // ---- Ranking ----------------------------------------------------------------------------------

  lemma ZoneOrder(s: seq<int>, w: int, b: int)
    requires Bucketed(s, w)
    ensures EndOf(s, w, b - 1) <= EndOf(s, w, b)
  {
    NumLess(|s|, BelowBucket(s, w, b), BelowBucket(s, w, b + 1));
  }

  lemma QuotientIs(v: int, w: int, b: int)
    requires w > 0
    ensures v / w == b <==> b * w <= v < b * w + w
  {
    if b * w <= v < b * w + w { DivIs(v, w, b, v - b * w); }
  }

  lemma CountsStart(s: seq<int>, w: int, b: int, m: int)
    requires Bucketed(s, w) && 0 <= m <= |s| && forall i :: 0 <= i < |s| ==> (s[i] / w <= b - 1 <==> i < m)
    ensures forall v :: b * w <= v < b * w + w ==> Num(m, Equal(s, v)) == 0
  {
    forall v | b * w <= v < b * w + w ensures Num(m, Equal(s, v)) == 0 {
      QuotientIs(v, w, b);
      NumNone(m, Equal(s, v));
    }
  }

  lemma KeyInZone(s: seq<int>, w: int, b: int, k: int)
    requires Bucketed(s, w) && 0 <= k < |s| && s[k] / w <= b && !(s[k] / w <= b - 1)
    ensures b * w <= s[k] < b * w + w
  {
    QuotientIs(s[k], w, b);
  }

  lemma CountsNext(s: seq<int>, k: nat)
    requires k < |s|
    ensures forall v :: Num(k + 1, Equal(s, v)) == Num(k, Equal(s, v)) + if v == s[k] then 1 else 0
  {
  }

  lemma CountsEnd(s: seq<int>, w: int, b: int, end: int)
    requires Bucketed(s, w) && 0 <= end <= |s| && forall i :: 0 <= i < |s| ==> (s[i] / w <= b <==> i < end)
    ensures forall v :: b * w <= v < b * w + w ==> Num(end, Equal(s, v)) == Num(|s|, Equal(s, v))
  {
    forall v | b * w <= v < b * w + w ensures Num(end, Equal(s, v)) == Num(|s|, Equal(s, v)) {
      QuotientIs(v, w, b);
      NumShort(end, |s|, Equal(s, v));
    }
  }

  lemma FirstRank(s: seq<int>, w: int, b: int, m: int)
    requires Bucketed(s, w) && m == EndOf(s, w, b - 1)
    ensures RankOf(s, b * w) == Num(|s|, Equal(s, b * w)) + m
  {
    forall i | 0 <= i < |s| ensures AtMost(s, b * w)(i) <==> BelowBucket(s, w, b)(i) || Equal(s, b * w)(i) {
      QuotientIs(s[i], w, s[i] / w);
      QuotientIs(b * w, w, b);
      if s[i] / w < b { SmallerBucket(s[i], w, s[i] / w, b); }
      if s[i] < b * w { NotAbove(s[i], w, b); }
    }
    forall i | 0 <= i < |s| ensures !(BelowBucket(s, w, b)(i) && Equal(s, b * w)(i)) { QuotientIs(b * w, w, b); }
    NumSplit(|s|, AtMost(s, b * w), BelowBucket(s, w, b), Equal(s, b * w));
  }

  lemma SmallerBucket(v: int, w: int, a: int, b: int)
    requires w > 0 && a * w <= v < a * w + w && a < b
    ensures v < b * w
  {
    OneMore(a, w);
    assert (a + 1) * w <= b * w;
  }

  lemma NotAbove(v: int, w: int, b: int)
    requires w > 0 && v < b * w
    ensures v / w < b
  {
    var q := v / w;
    assert q * w <= v;
    NotLess(q - b, w);
    Distribute(q, -b, w);
  }

  lemma NotLess(x: int, w: int)
    requires w > 0
    ensures x >= 0 ==> x * w >= 0
  {
  }

  lemma RankNext(s: seq<int>, k: int)
    ensures RankOf(s, k) == RankOf(s, k - 1) + Num(|s|, Equal(s, k))
  {
    NumSplit(|s|, AtMost(s, k), AtMost(s, k - 1), Equal(s, k));
  }

  lemma BucketFits(b: int, buckets: int, w: int)
    requires 0 <= b < buckets && w > 0
    ensures 0 <= b * w && b * w + w <= buckets * w
  {
    OneMore(b, w);
    assert (b + 1) * w <= buckets * w;
  }

  lemma BucketBelow(k: int, buckets: int, w: int)
    requires 0 <= k < buckets * w && w > 0
    ensures 0 <= k / w < buckets
  {
    NotAbove(k, w, buckets);
  }

  lemma FirstEnd(s: seq<int>, w: int)
    requires forall i :: 0 <= i < |s| ==> s[i] >= 0
    ensures EndOf(s, w, -1) == 0
  {
    NumNone(|s|, BelowBucket(s, w, 0));
  }

  // ---- Putting the keys into their places -------------------------------------------------------

  /** The final order: by key, and equal keys in the reverse of their order in the buffer. */
  ghost function KeyLt(s: seq<int>): (int, int) -> bool {
    (j, i) => 0 <= i < |s| && 0 <= j < |s| && (s[j] < s[i] || (s[j] == s[i] && j > i))
  }

  lemma KeyLtTotal(s: seq<int>)
    ensures TotalOrder(|s|, KeyLt(s))
  {
  }

  /** The rank of a key, decremented once for every equal key before it and once more, is its place. */
  lemma PlaceIsRank(s: seq<int>, i: int)
    requires 0 <= i < |s|
    ensures Rank(|s|, KeyLt(s), i) == RankOf(s, s[i]) - Num(i, Equal(s, s[i])) - 1
  {
    var n, v, lt := |s|, s[i], KeyLt(s);
    var before: int -> bool := j => lt(j, i);
    var upTo: int -> bool := j => 0 <= j < |s| && s[j] == v && j <= i;
    forall j | 0 <= j < n
      ensures !(before(j) && upTo(j)) && (AtMost(s, v)(j) <==> before(j) || upTo(j))
    {
      assert lt(j, i) == KeyLt(s)(j, i);
    }
    NumSplit(n, AtMost(s, v), before, upTo);
    NumShort(i + 1, n, upTo);
    NumSame(i, upTo, Equal(s, v));
  }

  /** For every bucket the position reached in it, and the shared ranks and keys. */
  datatype Verify = Verify(next: seq<int>, rank: seq<int>, keys: seq<int>, fault: bool)

  predicate VerifyShape(s: seq<int>, w: int, v: Verify) {
    w > 0 && |v.keys| == |s| && (forall b :: 0 <= b < |v.next| ==> 0 <= v.next[b] <= |s|) &&
    forall i :: 0 <= i < |s| ==> 0 <= s[i] < |v.rank| && 0 <= s[i] / w < |v.next|
  }

  /** One iteration of the thread that works on bucket b. A write outside the key array is a fault. */
  function VerifyStep(s: seq<int>, w: int, ends: seq<int>, v: Verify, b: int): Verify
    requires VerifyShape(s, w, v)
  {
    if b < 0 || b >= |v.next| || b >= |ends| || v.next[b] >= ends[b] || v.next[b] >= |s| then v
    else
      var i := v.next[b];
      var k := v.rank[s[i]] - 1;
      var v' := v.(next := v.next[b := i + 1], rank := v.rank[s[i] := k]);
      if 0 <= k < |v.keys| then v'.(keys := v.keys[k := s[i]]) else v'.(fault := true)
  }

  ghost predicate RankLeft(s: seq<int>, w: int, v: Verify, k: int)
    requires VerifyShape(s, w, v) && 0 <= k < |v.rank|
  {
    0 <= k / w < |v.next| ==> v.rank[k] == RankOf(s, k) - Num(v.next[k / w], Equal(s, k))
  }

  ghost predicate Settled(s: seq<int>, w: int, v: Verify, i: int)
    requires VerifyShape(s, w, v) && 0 <= i < |s|
  {
    var r := Rank(|s|, KeyLt(s), i);
    r < |s| && (i < v.next[s[i] / w] ==> v.keys[r] == s[i])
  }

  ghost predicate VerifyInv(s: seq<int>, w: int, v: Verify) {
    VerifyShape(s, w, v) && !v.fault &&
    (forall k {:trigger RankLeft(s, w, v, k)} :: 0 <= k < |v.rank| ==> RankLeft(s, w, v, k)) &&
    (forall i {:trigger Settled(s, w, v, i)} :: 0 <= i < |s| ==> Settled(s, w, v, i)) &&
    (forall b :: 0 <= b < |v.next| ==> (b == 0 ==> v.next[b] >= 0) && v.next[b] >= EndOf(s, w, b - 1))
  }

  lemma VerifyStepKeeps(s: seq<int>, w: int, ends: seq<int>, v: Verify, b: int)
    requires VerifyInv(s, w, v) && Bucketed(s, w) && |ends| == |v.next| &&
             forall b :: 0 <= b < |ends| ==> ends[b] == EndOf(s, w, b)
    ensures VerifyInv(s, w, VerifyStep(s, w, ends, v, b))
  {
    var v' := VerifyStep(s, w, ends, v, b);
    if v' != v {
      hide Num, RankOf, EndOf, RankLeft, Settled;
      var i := v.next[b];
      ZoneIs(s, w, b);
      ZoneIs(s, w, b - 1);
      assert s[i] / w == b;
      NextPlace(s, w, v, i);
      forall k | 0 <= k < |v'.rank|
        ensures RankLeft(s, w, v', k)
      {
        assert RankLeft(s, w, v, k);
        RankLeftStep(s, w, ends, v, b, k);
      }
      forall j | 0 <= j < |s|
        ensures Settled(s, w, v', j)
      {
        assert Settled(s, w, v, j);
        SettledStep(s, w, ends, v, b, j);
      }
    }
  }

  /** The place found for the next key is its rank. */
  lemma NextPlace(s: seq<int>, w: int, v: Verify, i: int)
    requires VerifyInv(s, w, v) && 0 <= i < |s| && v.next[s[i] / w] == i
    ensures v.rank[s[i]] - 1 == Rank(|s|, KeyLt(s), i) < |s|
  {
    hide Num, RankOf, EndOf;
    assert RankLeft(s, w, v, s[i]) && Settled(s, w, v, i);
    PlaceIsRank(s, i);
    KeyLtTotal(s);
    RankBelow(|s|, KeyLt(s), i);
  }

  lemma RankLeftStep(s: seq<int>, w: int, ends: seq<int>, v: Verify, b: int, k: int)
    requires VerifyShape(s, w, v) && VerifyStep(s, w, ends, v, b) != v && s[v.next[b]] / w == b && 0 <= k < |v.rank| &&
             RankLeft(s, w, v, k)
    ensures RankLeft(s, w, VerifyStep(s, w, ends, v, b), k)
  {
    hide Num, RankOf;
    CountsNext(s, v.next[b]);
  }

  lemma SettledStep(s: seq<int>, w: int, ends: seq<int>, v: Verify, b: int, j: int)
    requires VerifyShape(s, w, v) && VerifyStep(s, w, ends, v, b) != v && s[v.next[b]] / w == b && 0 <= j < |s| &&
             Settled(s, w, v, j)
    requires v.rank[s[v.next[b]]] - 1 == Rank(|s|, KeyLt(s), v.next[b]) < |s|
    ensures Settled(s, w, VerifyStep(s, w, ends, v, b), j)
  {
    hide Num, RankOf, Rank, KeyLt;
    KeyLtTotal(s);
    RankOrder(|s|, KeyLt(s), v.next[b], j);
  }

  function VerifyRun(s: seq<int>, w: int, ends: seq<int>, v: Verify, schedule: seq<int>): (r: Verify)
    requires VerifyShape(s, w, v)
    ensures VerifyShape(s, w, r) && |r.next| == |v.next|
  {
    if schedule == [] then v
    else VerifyStep(s, w, ends, VerifyRun(s, w, ends, v, schedule[..|schedule| - 1]), schedule[|schedule| - 1])
  }

  lemma {:induction false} VerifyRunKeeps(s: seq<int>, w: int, ends: seq<int>, v: Verify, schedule: seq<int>)
    requires VerifyInv(s, w, v) && Bucketed(s, w) && |ends| == |v.next| &&
             forall b :: 0 <= b < |ends| ==> ends[b] == EndOf(s, w, b)
    ensures VerifyInv(s, w, VerifyRun(s, w, ends, v, schedule))
  {
    if schedule != [] {
      var n := |schedule| - 1;
      VerifyRunKeeps(s, w, ends, v, schedule[..n]);
      VerifyStepKeeps(s, w, ends, VerifyRun(s, w, ends, v, schedule[..n]), schedule[n]);
    }
  }

  /** Every turn of a bucket takes it one key further. */
  lemma {:induction false} PlacingTurns(s: seq<int>, w: int, ends: seq<int>, v: Verify, schedule: seq<int>, b: int)
    requires VerifyShape(s, w, v) && 0 <= b < |v.next| == |ends| && ends[b] <= |s|
    ensures var r := VerifyRun(s, w, ends, v, schedule);
            r.next[b] >= v.next[b] + multiset(schedule)[b] || r.next[b] >= ends[b]
  {
    if schedule != [] {
      var n := |schedule| - 1;
      PlacingTurns(s, w, ends, v, schedule[..n], b);
      assert schedule == schedule[..n] + [schedule[n]];
    }
  }

  ghost predicate VerifyInitial(s: seq<int>, w: int, v: Verify) {
    VerifyShape(s, w, v) && !v.fault && (forall k :: 0 <= k < |v.rank| ==> v.rank[k] == RankOf(s, k)) &&
    forall b :: 0 <= b < |v.next| ==> v.next[b] == EndOf(s, w, b - 1)
  }

  lemma VerifyStarts(s: seq<int>, w: int, v: Verify)
    requires VerifyInitial(s, w, v) && Bucketed(s, w)
    ensures VerifyInv(s, w, v)
  {
    hide RankOf, EndOf, Num;
    KeyLtTotal(s);
    forall k | 0 <= k < |v.rank| ensures RankLeft(s, w, v, k) {
      if 0 <= k / w < |v.next| { NoneEarlier(s, w, k); }
    }
    forall i | 0 <= i < |s| ensures Settled(s, w, v, i) {
      RankBelow(|s|, KeyLt(s), i);
      ZoneIs(s, w, s[i] / w - 1);
    }
  }

  lemma NoneEarlier(s: seq<int>, w: int, k: int)
    requires Bucketed(s, w)
    ensures Num(EndOf(s, w, k / w - 1), Equal(s, k)) == 0
  {
    ZoneIs(s, w, k / w - 1);
    NumNone(EndOf(s, w, k / w - 1), Equal(s, k));
  }

  ghost predicate Ascending(s: seq<int>) { forall p, q :: 0 <= p < q < |s| ==> s[p] <= s[q] }

  /** However the buckets are interleaved, when all are through the keys are a sorted permutation of the buffer. */
  lemma Verified(s: seq<int>, w: int, ends: seq<int>, v: Verify, schedule: seq<int>)
    requires VerifyInitial(s, w, v) && Bucketed(s, w) && |ends| == |v.next| &&
             forall b :: 0 <= b < |ends| ==> ends[b] == EndOf(s, w, b)
    ensures var r := VerifyRun(s, w, ends, v, schedule);
      !r.fault &&
      ((forall b :: 0 <= b < |ends| ==> r.next[b] >= ends[b]) ==> Ascending(r.keys) && multiset(r.keys) == multiset(s))
  {
    VerifyStarts(s, w, v);
    VerifyRunKeeps(s, w, ends, v, schedule);
    var r := VerifyRun(s, w, ends, v, schedule);
    if forall b :: 0 <= b < |ends| ==> r.next[b] >= ends[b] { AllSettled(s, w, ends, r); }
  }

  lemma AllSettled(s: seq<int>, w: int, ends: seq<int>, r: Verify)
    requires VerifyInv(s, w, r) && Bucketed(s, w) && |ends| == |r.next| &&
             (forall b :: 0 <= b < |ends| ==> ends[b] == EndOf(s, w, b)) &&
             forall b :: 0 <= b < |ends| ==> r.next[b] >= ends[b]
    ensures Ascending(r.keys) && multiset(r.keys) == multiset(s)
  {
    hide RankOf, EndOf, Num;
    var n, lt := |s|, KeyLt(s);
    KeyLtTotal(s);
    forall i | 0 <= i < n ensures Rank(n, lt, i) < n && r.keys[Rank(n, lt, i)] == s[i] {
      assert Settled(s, w, r, i);
      ZoneIs(s, w, s[i] / w);
    }
    ScatterPermutes(s, r.keys, lt);
    forall p, q | 0 <= p < q < n ensures r.keys[p] <= r.keys[q] {
      var i := RankCovers(n, lt, p);
      var j := RankCovers(n, lt, q);
      RankOrder(n, lt, i, j);
    }
  }

  /** The final loop finds a pair out of order exactly when the keys are not sorted. */
  method CountUnsorted(keys: seq<int>) returns (j: nat)
    ensures j == 0 <==> Ascending(keys)
  {
    j := 0;
    var i := 1;
    while i < |keys|
      invariant 1 <= i && (keys != [] ==> i <= |keys| && (j == 0 <==> Ascending(keys[..i]))) && (keys == [] ==> j == 0)
    {
      SortedNext(keys, i);
      if keys[i - 1] > keys[i] { j := j + 1; }
      i := i + 1;
    }
    assert keys != [] ==> keys[..i] == keys;
  }

  lemma SortedNext(keys: seq<int>, i: int)
    requires 1 <= i < |keys|
    ensures Ascending(keys[..i + 1]) <==> Ascending(keys[..i]) && keys[i - 1] <= keys[i]
  {
    var a, b := keys[..i], keys[..i + 1];
    if Ascending(b) {
      forall p, q | 0 <= p < q < i ensures a[p] <= a[q] { assert b[p] <= b[q]; }
      assert b[i - 1] <= b[i];
    }
    if Ascending(a) && keys[i - 1] <= keys[i] {
      forall p, q | 0 <= p < q <= i
        ensures b[p] <= b[q]
      {
        if q < i { assert a[p] <= a[q]; } else if p < i - 1 { assert a[p] <= a[i - 1]; }
      }
    }
  }

  // ---- The whole sort ---------------------------------------------------------------------------

  /** Ranks in the buffer are ranks among the original keys. */
  lemma RanksOfKeys(keys: seq<int>, buf: seq<int>, k: int)
    requires multiset(keys) == multiset(buf)
    ensures RankOf(buf, k) == RankOf(keys, k)
  {
    CountPermutation(keys, buf, v => v <= k);
    CountIsNum(keys, v => v <= k, AtMost(keys, k));
    CountIsNum(buf, v => v <= k, AtMost(buf, k));
  }

  /** The pointers that every thread ends up with are the ends of the buckets in the buffer. */
  lemma EndsAgree(c: Setup, buf: seq<int>, b: int)
    requires Ok(c) && multiset(c.keys) == multiset(buf)
    ensures Num(|c.keys|, Below(c, b + 1)) == EndOf(buf, c.width, b)
  {
    var low: int -> bool := v => c.width > 0 && v / c.width < b + 1;
    CountPermutation(c.keys, buf, low);
    CountIsNum(c.keys, low, Below(c, b + 1));
    CountIsNum(buf, low, BelowBucket(buf, c.width, b + 1));
  }
}
