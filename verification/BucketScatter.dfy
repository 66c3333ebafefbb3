/** The bucket phase of the parallel integer sort: every thread counts its keys per bucket, derives where its keys of
    each bucket go, and scatters them. Threads run concurrently; which keys a thread owns is arbitrary but the same in
    both loops. */
module BucketScatter {
  import opened RankScatter

  /** The keys, the thread that owns each, the number of threads, of buckets, and of key values per bucket. */
  datatype Setup = Setup(keys: seq<int>, owner: seq<int>, threads: nat, buckets: nat, width: nat)

  ghost predicate Ok(c: Setup) {
    |c.owner| == |c.keys| && c.width > 0 && c.buckets > 0 &&
    forall i :: 0 <= i < |c.keys| ==> 0 <= c.owner[i] < c.threads && 0 <= BucketOf(c, i) < c.buckets
  }

  /** The bucket of the i-th key: the key shifted right. */
  function BucketOf(c: Setup, i: int): int {
    if 0 <= i < |c.keys| && c.width > 0 then c.keys[i] / c.width else 0
  }

  function OwnerOf(c: Setup, i: int): int {
    if 0 <= i < |c.owner| then c.owner[i] else 0
  }

  ghost function Below(c: Setup, b: int): int -> bool { i => BucketOf(c, i) < b }
  ghost function Earlier(c: Setup, b: int, t: int): int -> bool { i => BucketOf(c, i) == b && OwnerOf(c, i) < t }
  ghost function Mine(c: Setup, b: int, t: int): int -> bool { i => BucketOf(c, i) == b && OwnerOf(c, i) == t }

  /** Where thread t's keys of bucket b begin: behind all smaller buckets, and behind the same bucket's keys of lower
      threads. */
  ghost function Start(c: Setup, b: int, t: int): int {
    Num(|c.keys|, Below(c, b)) + Num(|c.keys|, Earlier(c, b, t))
  }

  lemma EarlierNext(c: Setup, b: int, t: int, n: nat)
    ensures Num(n, Earlier(c, b, t + 1)) == Num(n, Earlier(c, b, t)) + Num(n, Mine(c, b, t))
  {
    NumSplit(n, Earlier(c, b, t + 1), Earlier(c, b, t), Mine(c, b, t));
  }

  lemma EarlierNone(c: Setup, b: int)
    requires Ok(c)
    ensures Num(|c.keys|, Earlier(c, b, 0)) == 0
  {
    NumNone(|c.keys|, Earlier(c, b, 0));
  }

  lemma BelowNext(c: Setup, b: int)
    requires Ok(c)
    ensures Num(|c.keys|, Below(c, b + 1)) == Num(|c.keys|, Below(c, b)) + Num(|c.keys|, Earlier(c, b, c.threads))
  {
    NumSplit(|c.keys|, Below(c, b + 1), Below(c, b), Earlier(c, b, c.threads));
  }

  lemma BelowNone(c: Setup)
    requires Ok(c)
    ensures Num(|c.keys|, Below(c, 0)) == 0
  {
    NumNone(|c.keys|, Below(c, 0));
  }

  // ---- Counting and pointers --------------------------------------------------------------------

  /** A thread counts its keys in each bucket. */
  method CountBuckets(c: Setup, myid: int) returns (work_buff: seq<int>)
    requires Ok(c)
    ensures |work_buff| == c.buckets &&
            forall b :: 0 <= b < c.buckets ==> work_buff[b] == Num(|c.keys|, Mine(c, b, myid))
  {
    work_buff := seq(c.buckets, _ => 0);
    for i := 0 to |c.keys|
      invariant |work_buff| == c.buckets && forall b :: 0 <= b < c.buckets ==> work_buff[b] == Num(i, Mine(c, b, myid))
    {
      if c.owner[i] == myid {
        var b := c.keys[i] / c.width;
        assert b == BucketOf(c, i);
        work_buff := work_buff[b := work_buff[b] + 1];
      }
    }
  }

  ghost predicate Sizes(c: Setup, bucket_size: seq<seq<int>>) {
    |bucket_size| == c.threads && (forall t :: 0 <= t < c.threads ==> |bucket_size[t]| == c.buckets) &&
    forall t, b :: 0 <= t < c.threads && 0 <= b < c.buckets ==> bucket_size[t][b] == Num(|c.keys|, Mine(c, b, t))
  }

  method AddSizes(c: Setup, bucket_size: seq<seq<int>>, from: int, to: int, b: int, start: int) returns (sum: int)
    requires Ok(c) && Sizes(c, bucket_size) && 0 <= from <= to <= c.threads && 0 <= b < c.buckets
    ensures sum == start + Num(|c.keys|, Earlier(c, b, to)) - Num(|c.keys|, Earlier(c, b, from))
  {
    sum := start;
    for k := from to to
      invariant sum == start + Num(|c.keys|, Earlier(c, b, k)) - Num(|c.keys|, Earlier(c, b, from))
    {
      EarlierNext(c, b, k, |c.keys|);
      sum := sum + bucket_size[k][b];
    }
  }

  /** A thread accumulates the counts of all threads into its own pointers. */
  method BucketPointers(c: Setup, bucket_size: seq<seq<int>>, myid: int) returns (bucket_ptrs: seq<int>)
    requires Ok(c) && Sizes(c, bucket_size) && 0 <= myid < c.threads
    ensures |bucket_ptrs| == c.buckets && forall b :: 0 <= b < c.buckets ==> bucket_ptrs[b] == Start(c, b, myid)
  {
    hide Sizes, Ok, Num;
    var p := AddSizes0(c, bucket_size, myid);
    bucket_ptrs := [p];
    for i := 1 to c.buckets
      invariant |bucket_ptrs| == i && forall b :: 0 <= b < i ==> bucket_ptrs[b] == Start(c, b, myid)
    {
      var s := AddSizes(c, bucket_size, 0, myid, i, bucket_ptrs[i - 1]);
      var q := AddSizes(c, bucket_size, myid, c.threads, i - 1, s);
      PointerNext(c, i, myid);
      bucket_ptrs := bucket_ptrs + [q];
    }
  }

  method AddSizes0(c: Setup, bucket_size: seq<seq<int>>, myid: int) returns (p: int)
    requires Ok(c) && Sizes(c, bucket_size) && 0 <= myid < c.threads
    ensures c.buckets > 0 && p == Start(c, 0, myid)
  {
    p := AddSizes(c, bucket_size, 0, myid, 0, 0);
    EarlierNone(c, 0);
    BelowNone(c);
  }

  lemma PointerNext(c: Setup, i: int, myid: int)
    requires Ok(c) && i > 0
    ensures Start(c, i, myid) ==
              Start(c, i - 1, myid) + Num(|c.keys|, Earlier(c, i, myid)) - Num(|c.keys|, Earlier(c, i, 0)) +
      Num(|c.keys|, Earlier(c, i - 1, c.threads)) - Num(|c.keys|, Earlier(c, i - 1, myid))
  {
    EarlierNone(c, i);
    BelowNext(c, i - 1);
  }

  /** After scattering, the counts of higher threads bring the pointers to the ends of the buckets. */
  method FinalPointers(c: Setup, bucket_size: seq<seq<int>>, bucket_ptrs: seq<int>, myid: int) returns (ends: seq<int>)
    requires Ok(c) && Sizes(c, bucket_size) && 0 <= myid < c.threads && |bucket_ptrs| == c.buckets
    requires forall b :: 0 <= b < c.buckets ==> bucket_ptrs[b] == Start(c, b, myid) + Num(|c.keys|, Mine(c, b, myid))
    ensures |ends| == c.buckets && forall b :: 0 <= b < c.buckets ==> ends[b] == Num(|c.keys|, Below(c, b + 1))
  {
    hide Sizes, Ok, Num;
    ends := [];
    for i := 0 to c.buckets
      invariant |ends| == i && forall b :: 0 <= b < i ==> ends[b] == Num(|c.keys|, Below(c, b + 1))
    {
      var e := AddSizes(c, bucket_size, myid + 1, c.threads, i, bucket_ptrs[i]);
      EarlierNext(c, i, myid, |c.keys|);
      BelowNext(c, i);
      ends := ends + [e];
    }
  }

  // ---- Where each key goes ----------------------------------------------------------------------

  /** The order in which the keys end up: by bucket, then by thread, then as they were. */
  ghost function Lt(c: Setup): (int, int) -> bool {
    (j, i) => BucketOf(c, j) < BucketOf(c, i) ||
    (BucketOf(c, j) == BucketOf(c, i) && (OwnerOf(c, j) < OwnerOf(c, i) || (OwnerOf(c, j) == OwnerOf(c, i) && j < i)))
  }

  lemma LtTotal(c: Setup)
    ensures TotalOrder(|c.keys|, Lt(c))
  {
  }

  /** A thread's pointer, advanced past the thread's earlier keys of the bucket, is the rank of its next key. */
  lemma TargetIsRank(c: Setup, i: int)
    requires Ok(c) && 0 <= i < |c.keys|
    ensures var b, t := BucketOf(c, i), OwnerOf(c, i);
      Rank(|c.keys|, Lt(c), i) == Start(c, b, t) + Num(i, Mine(c, b, t))
  {
    var n, b, t := |c.keys|, BucketOf(c, i), OwnerOf(c, i);
    var lt := Lt(c);
    var before: int -> bool := j => lt(j, i);
    var same: int -> bool := j => BucketOf(c, j) == b && (OwnerOf(c, j) < t || (OwnerOf(c, j) == t && j < i));
    var mine: int -> bool := j => BucketOf(c, j) == b && OwnerOf(c, j) == t && j < i;
    forall j | 0 <= j < n ensures before(j) <==> Below(c, b)(j) || same(j) { assert lt(j, i) == Lt(c)(j, i); }
    NumSplit(n, before, Below(c, b), same);
    NumSplit(n, same, Earlier(c, b, t), mine);
    NumShort(i, n, mine);
    NumSame(i, mine, Mine(c, b, t));
  }

  // ---- Concurrent scattering --------------------------------------------------------------------

  /** Every thread's position in the loop over the keys, its pointers, and the shared buffer. */
  datatype State = State(next: seq<int>, ptrs: seq<seq<int>>, buf: seq<int>, fault: bool)

  /** One iteration of one thread. A write outside the buffer is a fault. */
  function Step(c: Setup, s: State, t: int): State
    requires Shape(c, s)
  {
    if t < 0 || t >= c.threads || s.next[t] >= |c.keys| then s
    else
      var i := s.next[t];
      var s' := s.(next := s.next[t := i + 1]);
      if c.owner[i] != t then s'
      else
        var b := BucketOf(c, i);
        if b < 0 || b >= c.buckets || s.ptrs[t][b] < 0 || s.ptrs[t][b] >= |s.buf| then s'.(fault := true)
        else s'.(buf := s.buf[s.ptrs[t][b] := c.keys[i]], ptrs := s.ptrs[t := s.ptrs[t][b := s.ptrs[t][b] + 1]])
  }

  predicate Shape(c: Setup, s: State) {
    |c.owner| == |c.keys| && |s.next| == c.threads && |s.ptrs| == c.threads && |s.buf| == |c.keys| &&
    (forall t :: 0 <= t < c.threads ==> |s.ptrs[t]| == c.buckets && 0 <= s.next[t] <= |c.keys|)
  }

  ghost predicate PtrsOk(c: Setup, s: State, t: int)
    requires Shape(c, s) && 0 <= t < c.threads
  {
    forall b :: 0 <= b < c.buckets ==> s.ptrs[t][b] == Start(c, b, t) + Num(s.next[t], Mine(c, b, t))
  }

  ghost predicate Placed(c: Setup, s: State, i: int)
    requires Shape(c, s) && 0 <= i < |c.keys|
  {
    var r := Rank(|c.keys|, Lt(c), i);
    r < |c.keys| && (0 <= c.owner[i] < c.threads && i < s.next[c.owner[i]] ==> s.buf[r] == c.keys[i])
  }

  ghost predicate Inv(c: Setup, s: State) {
    Shape(c, s) && !s.fault &&
    (forall t {:trigger PtrsOk(c, s, t)} :: 0 <= t < c.threads ==> PtrsOk(c, s, t)) &&
    (forall i {:trigger Placed(c, s, i)} :: 0 <= i < |c.keys| ==> Placed(c, s, i))
  }

  lemma StepKeeps(c: Setup, s: State, t: int)
    requires Ok(c) && Inv(c, s)
    ensures Inv(c, Step(c, s, t))
  {
    if 0 <= t < c.threads && s.next[t] < |c.keys| {
      var i, s' := s.next[t], Step(c, s, t);
      assert PtrsOk(c, s, t) && Placed(c, s, i);
      hide Rank, Lt, Start, Num, Mine;
      LtTotal(c);
      if c.owner[i] == t { TargetIsRank(c, i); RankBelow(|c.keys|, Lt(c), i); }
      forall u | 0 <= u < c.threads ensures PtrsOk(c, s', u) {
        assert PtrsOk(c, s, u);
        if u == t { PtrsStep(c, s, t); }
      }
      forall j | 0 <= j < |c.keys| ensures Placed(c, s', j) {
        assert Placed(c, s, j);
        RankOrder(|c.keys|, Lt(c), i, j);
      }
    }
  }

  lemma PtrsStep(c: Setup, s: State, t: int)
    requires Ok(c) && Shape(c, s) && 0 <= t < c.threads && s.next[t] < |c.keys| && PtrsOk(c, s, t)
    requires c.owner[s.next[t]] == t ==> 0 <= s.ptrs[t][BucketOf(c, s.next[t])] < |s.buf|
    ensures PtrsOk(c, Step(c, s, t), t)
  {
    var i := s.next[t];
    forall b | 0 <= b < c.buckets ensures Step(c, s, t).ptrs[t][b] == Start(c, b, t) + Num(i + 1, Mine(c, b, t)) {
      assert Num(i + 1, Mine(c, b, t)) == Num(i, Mine(c, b, t)) + if Mine(c, b, t)(i) then 1 else 0;
    }
  }

  function Run(c: Setup, s: State, schedule: seq<int>): State
    requires Shape(c, s)
    ensures Shape(c, Run(c, s, schedule))
  {
    if schedule == [] then s else Step(c, Run(c, s, schedule[..|schedule| - 1]), schedule[|schedule| - 1])
  }

  lemma {:induction false} RunKeeps(c: Setup, s: State, schedule: seq<int>)
    requires Ok(c) && Inv(c, s)
    ensures Inv(c, Run(c, s, schedule))
  {
    if schedule != [] {
      RunKeeps(c, s, schedule[..|schedule| - 1]);
      StepKeeps(c, Run(c, s, schedule[..|schedule| - 1]), schedule[|schedule| - 1]);
    }
  }

  ghost predicate Initial(c: Setup, s: State) {
    Shape(c, s) && !s.fault &&
    forall t ::
      0 <= t < c.threads ==> s.next[t] == 0 && forall b :: 0 <= b < c.buckets ==> s.ptrs[t][b] == Start(c, b, t)
  }

  lemma InitialInv(c: Setup, s: State)
    requires Ok(c) && Initial(c, s)
    ensures Inv(c, s)
  {
    LtTotal(c);
    forall i | 0 <= i < |c.keys| ensures Placed(c, s, i) { RankBelow(|c.keys|, Lt(c), i); }
  }

  /** All threads have gone through all keys. */
  predicate Through(c: Setup, s: State)
    requires Shape(c, s)
  {
    forall t :: 0 <= t < c.threads ==> s.next[t] == |c.keys|
  }

  ghost predicate BucketsInOrder(c: Setup, buf: seq<int>) {
    c.width > 0 && forall p, q :: 0 <= p < q < |buf| ==> buf[p] / c.width <= buf[q] / c.width
  }

  /** When all threads are through, under any schedule, the buffer is a permutation of the keys with the buckets in
      order, and the pointers of every thread stand behind its keys of each bucket. */
  lemma Scattered(c: Setup, s0: State, schedule: seq<int>)
    requires Ok(c) && Initial(c, s0)
    ensures var s := Run(c, s0, schedule);
      !s.fault && (Through(c, s) ==>
        multiset(s.buf) == multiset(c.keys) && BucketsInOrder(c, s.buf) &&
        forall t, b :: 0 <= t < c.threads && 0 <= b < c.buckets ==>
          s.ptrs[t][b] == Start(c, b, t) + Num(|c.keys|, Mine(c, b, t)))
  {
    InitialInv(c, s0);
    RunKeeps(c, s0, schedule);
    var s := Run(c, s0, schedule);
    if Through(c, s) {
      LtTotal(c);
      Arrived(c, s);
      forall t, b | 0 <= t < c.threads && 0 <= b < c.buckets
        ensures s.ptrs[t][b] == Start(c, b, t) + Num(|c.keys|, Mine(c, b, t))
      {
        assert PtrsOk(c, s, t);
      }
    }
  }

  /** Every turn of a thread takes it one key further. */
  lemma {:induction false} TurnsTaken(c: Setup, s: State, schedule: seq<int>, t: int)
    requires Shape(c, s) && 0 <= t < c.threads
    ensures Run(c, s, schedule).next[t] >= s.next[t] + multiset(schedule)[t] || Run(c, s, schedule).next[t] == |c.keys|
  {
    if schedule != [] {
      var n := |schedule| - 1;
      TurnsTaken(c, s, schedule[..n], t);
      assert schedule == schedule[..n] + [schedule[n]];
    }
  }

  lemma Arrived(c: Setup, s: State)
    requires Ok(c) && Inv(c, s) && TotalOrder(|c.keys|, Lt(c)) && Through(c, s)
    ensures multiset(s.buf) == multiset(c.keys) && BucketsInOrder(c, s.buf)
  {
    var n := |c.keys|;
    forall i | 0 <= i < n
      ensures Rank(n, Lt(c), i) < n && s.buf[Rank(n, Lt(c), i)] == c.keys[i]
    {
      assert Placed(c, s, i);
    }
    ScatterPermutes(c.keys, s.buf, Lt(c));
    forall p, q | 0 <= p < q < n ensures s.buf[p] / c.width <= s.buf[q] / c.width {
      var i := RankCovers(n, Lt(c), p);
      var j := RankCovers(n, Lt(c), q);
      RankOrder(n, Lt(c), i, j);
    }
  }
}
