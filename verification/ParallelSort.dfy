/** The whole integer sort: counting, scattering, ranking and placing the keys, each phase by threads in any
    interleaving, with the barriers of the program between the phases. */
module ParallelSort {
  import opened RankScatter
  import opened BucketScatter
  import opened IntegerSort
  import opened BucketRanking
  import opened RandomStream

  /** Every one of the first n gets at least that many turns. */
  ghost predicate Turns(schedule: seq<int>, n: nat, turns: nat) {
    forall t :: 0 <= t < n ==> multiset(schedule)[t] >= turns
  }

  // ---- Scattering -------------------------------------------------------------------------------

  method CountAll(c: Setup) returns (bucket_size: seq<seq<int>>)
    requires Ok(c)
    ensures Sizes(c, bucket_size)
  {
    hide Num, Mine;
    bucket_size := [];
    for t := 0 to c.threads
      invariant |bucket_size| == t && forall u :: 0 <= u < t ==> |bucket_size[u]| == c.buckets
      invariant forall u, b :: 0 <= u < t && 0 <= b < c.buckets ==> bucket_size[u][b] == Num(|c.keys|, Mine(c, b, u))
    {
      var work_buff := CountBuckets(c, t);
      bucket_size := bucket_size + [work_buff];
    }
  }

  method StartAll(c: Setup, bucket_size: seq<seq<int>>, buf: seq<int>) returns (s: State)
    requires Ok(c) && Sizes(c, bucket_size) && |buf| == |c.keys|
    ensures Initial(c, s) && s.buf == buf
  {
    hide Sizes, Start;
    var ptrs := [];
    for t := 0 to c.threads
      invariant |ptrs| == t && forall u :: 0 <= u < t ==> |ptrs[u]| == c.buckets
      invariant forall u, b :: 0 <= u < t && 0 <= b < c.buckets ==> ptrs[u][b] == Start(c, b, u)
    {
      var bucket_ptrs := BucketPointers(c, bucket_size, t);
      ptrs := ptrs + [bucket_ptrs];
    }
    s := State(seq(c.threads, _ => 0), ptrs, buf, false);
  }

  /** Every thread brings its pointers to the ends of the buckets; all threads come to the same ends. */
  method EndAll(c: Setup, bucket_size: seq<seq<int>>, s: State) returns (ends: seq<int>)
    requires Ok(c) && c.threads > 0 && Sizes(c, bucket_size) && Shape(c, s)
    requires forall t, b ::
               0 <= t < c.threads && 0 <= b < c.buckets ==>
                 s.ptrs[t][b] == Start(c, b, t) + Num(|c.keys|, Mine(c, b, t))
    ensures |ends| == c.buckets && forall b :: 0 <= b < c.buckets ==> ends[b] == Num(|c.keys|, Below(c, b + 1))
  {
    hide Sizes, Start, Num, Mine, Below;
    ends := [];
    for t := 0 to c.threads
      invariant t > 0 ==>
                  |ends| == c.buckets && forall b :: 0 <= b < c.buckets ==> ends[b] == Num(|c.keys|, Below(c, b + 1))
    {
      var own := FinalPointers(c, bucket_size, s.ptrs[t], t);
      assert t > 0 ==> own == ends;
      ends := own;
    }
  }

  /** The bucket phase up to the barrier behind it. */
  method Scatter(c: Setup, buf0: seq<int>, schedule: seq<int>)
    returns (done: bool, fault: bool, buf: seq<int>, ends: seq<int>)
    requires Ok(c) && c.threads > 0 && |buf0| == |c.keys|
    ensures !fault && (Turns(schedule, c.threads, |c.keys|) ==> done)
    ensures done ==> multiset(buf) == multiset(c.keys) && |ends| == c.buckets && Ready(buf, c.width, ends)
  {
    hide Num, Start, Mine, Below, Step, Sizes, EndOf, BelowBucket;
    var bucket_size := CountAll(c);
    var s0 := StartAll(c, bucket_size, buf0);
    var s := Run(c, s0, schedule);
    Scattered(c, s0, schedule);
    forall t | 0 <= t < c.threads && Turns(schedule, c.threads, |c.keys|)
      ensures s.next[t] == |c.keys|
    {
      TurnsTaken(c, s0, schedule, t);
    }
    done, fault, buf, ends := Through(c, s), s.fault, s.buf, [];
    if done {
      ends := EndAll(c, bucket_size, s);
      ReadyToRank(c, buf, ends);
    }
  }

  lemma ReadyToRank(c: Setup, buf: seq<int>, ends: seq<int>)
    requires Ok(c) && multiset(buf) == multiset(c.keys) && BucketsInOrder(c, buf) && |ends| == c.buckets
    requires forall b :: 0 <= b < c.buckets ==> ends[b] == Num(|c.keys|, Below(c, b + 1))
    ensures Ready(buf, c.width, ends)
  {
    hide Num, EndOf;
    forall b | 0 <= b < c.buckets ensures ends[b] == EndOf(buf, c.width, b) { EndsAgree(c, buf, b); }
    forall i | 0 <= i < |buf| ensures 0 <= buf[i] / c.width < |ends| {
      assert buf[i] in multiset(c.keys);
      var j :| 0 <= j < |c.keys| && c.keys[j] == buf[i];
      assert 0 <= BucketOf(c, j) < c.buckets;
    }
  }

  // ---- Ranking and placing ----------------------------------------------------------------------

  /** The ranking up to the barrier behind it. */
  method RankKeys(buf: seq<int>, w: nat, ends: seq<int>, rank0: seq<int>, schedule: seq<int>)
    returns (done: bool, fault: bool, rank: seq<int>)
    requires Ready(buf, w, ends) && |rank0| == |ends| * w
    ensures !fault && (Turns(schedule, |ends|, 2 * w + |buf| + 3) ==> done) && |rank| == |ends| * w
    ensures done ==> forall k :: 0 <= k < |rank| ==> rank[k] == RankOf(buf, k)
  {
    hide RankOf, EndOf, RankStep, Ready, Num;
    WidthPositive(buf, w, ends);
    var r0 := Ranking(seq(|ends|, b => Clearing(b * w)), rank0, false);
    var r := RankRun(buf, w, ends, r0, schedule);
    RanksAllKeys(buf, w, ends, r0, schedule);
    forall b | 0 <= b < |ends| && Turns(schedule, |ends|, 2 * w + |buf| + 3) ensures r.phase[b] == Ranked {
      EnoughRanking(buf, w, ends, r0, schedule, b);
    }
    done, fault, rank := AllRanked(r), r.fault, r.rank;
  }

  lemma WidthPositive(buf: seq<int>, w: int, ends: seq<int>)
    requires Ready(buf, w, ends)
    ensures w > 0
  {
  }

  /** Where the work on each bucket begins. */
  function Begins(ends: seq<int>): (r: seq<int>)
    ensures |r| == |ends|
  {
    seq(|ends|, b requires 0 <= b < |ends| => StartOf(ends, b))
  }

  lemma ReadyToPlace(buf: seq<int>, w: nat, ends: seq<int>, rank: seq<int>, keys0: seq<int>)
    requires Ready(buf, w, ends) && |rank| == |ends| * w && |keys0| == |buf| &&
             forall k :: 0 <= k < |rank| ==> rank[k] == RankOf(buf, k)
    ensures VerifyInitial(buf, w, Verify(Begins(ends), rank, keys0, false))
    ensures forall b :: 0 <= b < |ends| ==> ends[b] <= |buf| && ends[b] == EndOf(buf, w, b)
  {
    hide RankOf, EndOf, Num;
    forall b | 0 <= b < |ends|
      ensures Begins(ends)[b] == EndOf(buf, w, b - 1) && ends[b] <= |buf| && 0 <= Begins(ends)[b] <= |buf|
    {
      StartIsEnd(buf, w, ends, b);
    }
    forall i | 0 <= i < |buf| ensures 0 <= buf[i] < |rank| {
      QuotientIs(buf[i], w, buf[i] / w);
      SectionFits(w, |ends|, buf[i] / w, buf[i]);
    }
  }

  method Place(buf: seq<int>, w: nat, ends: seq<int>, rank: seq<int>, keys0: seq<int>, schedule: seq<int>)
    returns (done: bool, fault: bool, keys: seq<int>)
    requires Ready(buf, w, ends) && |rank| == |ends| * w && |keys0| == |buf| &&
             forall k :: 0 <= k < |rank| ==> rank[k] == RankOf(buf, k)
    ensures !fault && (Turns(schedule, |ends|, |buf|) ==> done)
    ensures done ==> Ascending(keys) && multiset(keys) == multiset(buf)
  {
    hide RankOf, EndOf, VerifyStep, Num, Ascending;
    ReadyToPlace(buf, w, ends, rank, keys0);
    var v0 := Verify(Begins(ends), rank, keys0, false);
    var v := VerifyRun(buf, w, ends, v0, schedule);
    Verified(buf, w, ends, v0, schedule);
    forall b | 0 <= b < |ends| && Turns(schedule, |ends|, |buf|) ensures v.next[b] >= ends[b] {
      PlacingTurns(buf, w, ends, v0, schedule, b);
    }
    done := forall b :: 0 <= b < |ends| ==> v.next[b] >= ends[b];
    fault, keys := v.fault, v.keys;
  }

  // ---- The whole sort ---------------------------------------------------------------------------

  /** For every number of threads, every assignment of keys to threads, every interleaving in each phase, and whatever
      the arrays held before: no write falls outside the arrays; when the ranking is through, every rank is the number
      of keys up to it; when the last phase is through, the keys are sorted; and every phase comes through when all
      threads get enough turns. */
  method SortsAllKeys(c: Setup, buf0: seq<int>, rank0: seq<int>, scatter: seq<int>, ranking: seq<int>,
      placing: seq<int>) returns (ranked: bool, done: bool, fault: bool, rank: seq<int>, keys: seq<int>)
    requires Ok(c) && c.threads > 0 && |buf0| == |c.keys| && |rank0| == c.buckets * c.width
    ensures !fault
    ensures ranked ==> |rank| == c.buckets * c.width && forall k :: 0 <= k < |rank| ==> rank[k] == RankOf(c.keys, k)
    ensures done ==> Ascending(keys) && multiset(keys) == multiset(c.keys)
    ensures Turns(scatter, c.threads, |c.keys|) && Turns(ranking, c.buckets, 2 * c.width + |c.keys| + 3) ==> ranked
    ensures ranked && Turns(placing, c.buckets, |c.keys|) ==> done
  {
    hide Turns, Ready, RankOf, Ascending;
    var buf, ends;
    ranked, rank, keys := false, rank0, c.keys;
    done, fault, buf, ends := Scatter(c, buf0, scatter);
    if done {
      SameLength(buf, c.keys);
      done, fault, rank := RankKeys(buf, c.width, ends, rank0, ranking);
      ranked := done;
      if done {
        forall k | 0 <= k < |rank| ensures rank[k] == RankOf(c.keys, k) { RanksOfKeys(c.keys, buf, k); }
        done, fault, keys := Place(buf, c.width, ends, rank, c.keys, placing);
      }
    }
  }

  // ---- The benchmark ----------------------------------------------------------------------------

  const MAX_ITERATIONS: int := 10

  /** The keys that the benchmark sorts: those of the random stream, with two replaced in each iteration. */
  ghost predicate BenchmarkKeys(keys: seq<int>, seed: int, a: int, maxKey: nat) {
    forall i :: 0 <= i < |keys| ==>
      keys[i] == if 1 <= i <= MAX_ITERATIONS then i
                 else if MAX_ITERATIONS < i <= 2 * MAX_ITERATIONS then maxKey - (i - MAX_ITERATIONS)
                 else KeyAt(seed, a, maxKey, i)
  }

  /** The i-th key is in the share of thread t. */
  ghost predicate Owns(t: nat, i: int, numKeys: nat, threads: nat)
    requires threads > 0
  {
    Share(numKeys, threads) * t <= i < Share(numKeys, threads) * (t + 1)
  }

  /** Every thread creates its share of the keys. */
  method CreateKeys(seed: int, a: int, numKeys: nat, maxKey: nat, threads: nat) returns (key_array: array<int>)
    requires threads > 0 && 0 <= seed < T46 && 0 <= a < T46
    ensures fresh(key_array) && key_array.Length == numKeys
    ensures forall i :: 0 <= i < numKeys ==> key_array[i] == KeyAt(seed, a, maxKey, i)
  {
    hide KeyAt, Share;
    key_array := new int[numKeys];
    for myid := 0 to threads
      invariant forall i, t: nat {:trigger Owns(t, i, numKeys, threads)} ::
                  0 <= i < numKeys && t < myid && Owns(t, i, numKeys, threads) ==>
                    key_array[i] == KeyAt(seed, a, maxKey, i)
    {
      ghost var before := key_array[..];
      CreateSeq(seed, a, numKeys, maxKey, myid, threads, key_array);
      forall i, t: nat {:trigger Owns(t, i, numKeys, threads)} |
          0 <= i < numKeys && t < myid + 1 && Owns(t, i, numKeys, threads)
        ensures key_array[i] == KeyAt(seed, a, maxKey, i)
      {
        assert t < myid ==> before[i] == KeyAt(seed, a, maxKey, i);
        var u := OneShare(numKeys, threads, i);
      }
    }
    forall i | 0 <= i < numKeys ensures key_array[i] == KeyAt(seed, a, maxKey, i) {
      var t := OneShare(numKeys, threads, i);
      assert Owns(t, i, numKeys, threads);
    }
  }

  lemma KeysOk(keys: seq<int>, seed: int, a: int, maxKey: nat, owner: seq<int>, threads: nat, buckets: nat, width: nat)
    requires BenchmarkKeys(keys, seed, a, maxKey) && buckets * width == maxKey > 2 * MAX_ITERATIONS && |owner| == |keys|
    requires forall i :: 0 <= i < |owner| ==> 0 <= owner[i] < threads
    ensures width > 0 && buckets > 0 && Ok(Setup(keys, owner, threads, buckets, width))
  {
    hide KeyAt;
    var c := Setup(keys, owner, threads, buckets, width);
    forall i | 0 <= i < |keys| ensures width > 0 && 0 <= BucketOf(c, i) < buckets {
      KeyInRange(seed, a, maxKey, i);
      BucketBelow(keys[i], buckets, width);
    }
  }

  ghost predicate EnoughTurns(scatter: seq<int>, ranking: seq<int>, placing: seq<int>, numKeys: nat, threads: nat,
      buckets: nat, width: nat)
  {
    Turns(scatter, threads, numKeys) && Turns(ranking, buckets, 2 * width + numKeys + 3) &&
    Turns(placing, buckets, numKeys)
  }

  /** The benchmark: the keys are created and two of them replaced in each iteration, then ranked and put into their
      places, and the final pass over them counts the pairs out of order. When the last phase is through it finds
      none. */
  method SortBenchmark(seed: int, a: int, numKeys: nat, maxKey: nat, buckets: nat, width: nat, threads: nat,
      owner: seq<int>, buf0: seq<int>, rank0: seq<int>, scatter: seq<int>, ranking: seq<int>, placing: seq<int>)
    returns (done: bool, unsorted: nat, sorted: seq<int>, ghost keys: seq<int>)
    requires 0 <= seed < T46 && 0 <= a < T46 && numKeys > 2 * MAX_ITERATIONS && threads > 0
    requires buckets * width == maxKey > 2 * MAX_ITERATIONS
    requires |owner| == numKeys && forall i :: 0 <= i < numKeys ==> 0 <= owner[i] < threads
    requires |buf0| == numKeys && |rank0| == maxKey
    ensures |keys| == numKeys && BenchmarkKeys(keys, seed, a, maxKey)
    ensures done ==> unsorted == 0 && Ascending(sorted) && multiset(sorted) == multiset(keys)
    ensures EnoughTurns(scatter, ranking, placing, numKeys, threads, buckets, width) ==> done
  {
    hide KeyAt, Turns, Ascending;
    var key_array := CreateKeys(seed, a, numKeys, maxKey, threads);
    for iteration := 1 to MAX_ITERATIONS + 1
      invariant forall i ::
                  0 <= i < numKeys ==>
                    key_array[i] == if 1 <= i < iteration then i
                                    else if MAX_ITERATIONS < i < MAX_ITERATIONS + iteration then
                                      maxKey - (i - MAX_ITERATIONS)
                                    else KeyAt(seed, a, maxKey, i)
    {
      key_array[iteration] := iteration;
      key_array[iteration + MAX_ITERATIONS] := maxKey - iteration;
    }
    keys := key_array[..];
    KeysOk(keys, seed, a, maxKey, owner, threads, buckets, width);
    var ranked, fault, rank;
    ranked, done, fault, rank, sorted :=
      SortsAllKeys(Setup(key_array[..], owner, threads, buckets, width), buf0, rank0, scatter, ranking, placing);
    unsorted := CountUnsorted(sorted);
  }

  lemma SameLength(a: seq<int>, b: seq<int>)
    requires multiset(a) == multiset(b)
    ensures |a| == |b|
  {
    assert |multiset(a)| == |a| && |multiset(b)| == |b|;
  }
}
