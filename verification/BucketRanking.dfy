/** The ranking of the buckets by concurrent threads: the loops that clear a bucket's section, count its keys and add
    the counts up take one iteration at a time, in any interleaving. */
module BucketRanking {
  import opened RankScatter
  import opened IntegerSort

  /** How far the work on a bucket has come. */
  datatype Phase = Clearing(k: int) | Counting(k: int) | Lifting | Adding(k: int) | Ranked
  datatype Ranking = Ranking(phase: seq<Phase>, rank: seq<int>, fault: bool)

  predicate RankShape(w: int, ends: seq<int>, r: Ranking) {
    w > 0 && |ends| == |r.phase| && |r.rank| == |r.phase| * w
  }

  function StartOf(ends: seq<int>, b: int): int {
    if 0 < b <= |ends| then ends[b - 1] else 0
  }

  function RankAt(r: Ranking, i: int): int {
    if 0 <= i < |r.rank| then r.rank[i] else 0
  }

  function Enter(r: Ranking, b: int, p: Phase): Ranking
    requires 0 <= b < |r.phase|
  {
    r.(phase := r.phase[b := p])
  }

  /** A write outside the shared array is a fault. */
  function Put(r: Ranking, b: int, i: int, x: int, p: Phase): Ranking
    requires 0 <= b < |r.phase|
  {
    if 0 <= i < |r.rank| then Enter(r.(rank := r.rank[i := x]), b, p) else r.(fault := true)
  }

  /** One iteration of the thread that works on bucket b. */
  function RankStep(s: seq<int>, w: int, ends: seq<int>, r: Ranking, b: int): (r': Ranking)
    requires RankShape(w, ends, r)
    ensures RankShape(w, ends, r')
  {
    if b < 0 || b >= |r.phase| then r
    else
      match r.phase[b]
      case Clearing(k) =>
        if k < b * w + w then Put(r, b, k, 0, Clearing(k + 1)) else Enter(r, b, Counting(StartOf(ends, b)))
      case Counting(k) =>
        if k >= ends[b] then Enter(r, b, Lifting)
        else if 0 <= k < |s| then Put(r, b, s[k], RankAt(r, s[k]) + 1, Counting(k + 1))
        else r.(fault := true)
      case Lifting => Put(r, b, b * w, RankAt(r, b * w) + StartOf(ends, b), Adding(b * w + 1))
      case Adding(k) =>
        if k < b * w + w then Put(r, b, k, RankAt(r, k) + RankAt(r, k - 1), Adding(k + 1)) else Enter(r, b, Ranked)
      case Ranked => r
  }

  ghost predicate Section(w: int, b: int, i: int) { b * w <= i < b * w + w }

  // What the section of a bucket holds.

  ghost predicate Cleared(w: int, r: Ranking, b: int, k: int) {
    b * w <= k <= b * w + w && forall i {:trigger RankAt(r, i)} :: Section(w, b, i) && i < k ==> RankAt(r, i) == 0
  }

  ghost predicate Counted(s: seq<int>, w: int, r: Ranking, b: int, k: int) {
    0 <= k <= |s| && forall i {:trigger RankAt(r, i)} :: Section(w, b, i) ==> RankAt(r, i) == Num(k, Equal(s, i))
  }

  ghost predicate Added(s: seq<int>, w: int, r: Ranking, b: int, k: int) {
    b * w + 1 <= k <= b * w + w &&
    forall i {:trigger RankAt(r, i)} ::
      Section(w, b, i) ==> RankAt(r, i) == if i < k then RankOf(s, i) else Num(|s|, Equal(s, i))
  }

  ghost predicate BucketInv(s: seq<int>, w: int, ends: seq<int>, r: Ranking, b: int) {
    0 <= b < |r.phase| && b < |ends| &&
    match r.phase[b]
    case Clearing(k) => Cleared(w, r, b, k)
    case Counting(k) => StartOf(ends, b) <= k <= ends[b] && Counted(s, w, r, b, k)
    case Lifting => Counted(s, w, r, b, |s|)
    case Adding(k) => Added(s, w, r, b, k)
    case Ranked => Added(s, w, r, b, b * w + w)
  }

  /** The keys are bucketed, `ends` are the ends of the buckets, and every key has a bucket. */
  ghost predicate Ready(s: seq<int>, w: int, ends: seq<int>) {
    Bucketed(s, w) && (forall b :: 0 <= b < |ends| ==> ends[b] == EndOf(s, w, b)) &&
    forall i :: 0 <= i < |s| ==> 0 <= s[i] / w < |ends|
  }

  ghost predicate RankInv(s: seq<int>, w: int, ends: seq<int>, r: Ranking) {
    RankShape(w, ends, r) && !r.fault &&
    forall b {:trigger BucketInv(s, w, ends, r, b)} :: 0 <= b < |r.phase| ==> BucketInv(s, w, ends, r, b)
  }

  // ---- One bucket -------------------------------------------------------------------------------

  lemma StartIsEnd(s: seq<int>, w: int, ends: seq<int>, b: int)
    requires Ready(s, w, ends) && 0 <= b < |ends|
    ensures StartOf(ends, b) == EndOf(s, w, b - 1) <= ends[b] == EndOf(s, w, b) <= |s|
  {
    hide EndOf, Num;
    ZoneOrder(s, w, b);
    ZoneIs(s, w, b);
    if b == 0 {
      forall i | 0 <= i < |s| ensures s[i] >= 0 { KeyNotNegative(s[i], w); }
      FirstEnd(s, w);
    }
  }

  lemma KeyNotNegative(v: int, w: int)
    requires w > 0 && v / w >= 0
    ensures v >= 0
  {
  }

  lemma SectionFits(w: int, n: int, b: int, i: int)
    requires w > 0 && 0 <= b < n && Section(w, b, i)
    ensures 0 <= i < n * w
  {
    BucketFits(b, n, w);
  }

  /** The step writes into its own section only, and only the phase of its own bucket changes. */
  ghost predicate Confined(w: int, r: Ranking, r': Ranking, b: int) {
    |r'.phase| == |r.phase| && |r'.rank| == |r.rank| && !r'.fault &&
    (forall c :: 0 <= c < |r.phase| && c != b ==> r'.phase[c] == r.phase[c]) &&
    forall i {:trigger RankAt(r', i)} :: !Section(w, b, i) ==> RankAt(r', i) == RankAt(r, i)
  }

  lemma PutConfined(w: int, r: Ranking, b: int, i: int, x: int, p: Phase)
    requires 0 <= b < |r.phase| && w > 0 && |r.rank| == |r.phase| * w && !r.fault && Section(w, b, i)
    ensures var r' := Put(r, b, i, x, p);
      Confined(w, r, r', b) && r'.phase[b] == p && forall j :: RankAt(r', j) == if j == i then x else RankAt(r, j)
  {
    SectionFits(w, |r.phase|, b, i);
  }

  lemma ClearStep(s: seq<int>, w: int, ends: seq<int>, r: Ranking, b: int)
    requires Ready(s, w, ends) && RankShape(w, ends, r) && !r.fault && BucketInv(s, w, ends, r, b) &&
             r.phase[b].Clearing?
    ensures var r' := RankStep(s, w, ends, r, b); Confined(w, r, r', b) && BucketInv(s, w, ends, r', b)
  {
    hide EndOf, Num;
    var k := r.phase[b].k;
    if k < b * w + w {
      PutConfined(w, r, b, k, 0, Clearing(k + 1));
    } else {
      StartIsEnd(s, w, ends, b);
      ClearedAll(s, w, ends, r, b);
    }
  }

  lemma ClearedAll(s: seq<int>, w: int, ends: seq<int>, r: Ranking, b: int)
    requires Ready(s, w, ends) && 0 <= b < |ends| && Cleared(w, r, b, b * w + w)
    requires b < |r.phase|
    ensures Counted(s, w, Enter(r, b, Counting(StartOf(ends, b))), b, StartOf(ends, b))
  {
    hide EndOf, Num;
    StartIsEnd(s, w, ends, b);
    ZoneIs(s, w, b - 1);
    CountsStart(s, w, b, StartOf(ends, b));
    var r' := Enter(r, b, Counting(StartOf(ends, b)));
    forall i | Section(w, b, i) ensures RankAt(r', i) == Num(StartOf(ends, b), Equal(s, i)) {
      assert RankAt(r, i) == 0;
      assert Num(StartOf(ends, b), Equal(s, i)) == 0;
    }
  }

  lemma CountStep(s: seq<int>, w: int, ends: seq<int>, r: Ranking, b: int)
    requires Ready(s, w, ends) && RankShape(w, ends, r) && !r.fault && BucketInv(s, w, ends, r, b) &&
             r.phase[b].Counting?
    ensures var r' := RankStep(s, w, ends, r, b); Confined(w, r, r', b) && BucketInv(s, w, ends, r', b)
  {
    hide EndOf, Num, Ready, Counted, Confined;
    var k := r.phase[b].k;
    StartIsEnd(s, w, ends, b);
    CountedFits(s, w, r, b, k);
    if k < ends[b] {
      NextInSection(s, w, ends, b, k);
      PutConfined(w, r, b, s[k], RankAt(r, s[k]) + 1, Counting(k + 1));
      CountedNext(s, w, r, RankStep(s, w, ends, r, b), b, k);
    } else {
      EnterConfined(w, r, b, Lifting);
      CountedAll(s, w, ends, r, b);
    }
  }

  lemma EnterConfined(w: int, r: Ranking, b: int, p: Phase)
    requires 0 <= b < |r.phase| && !r.fault
    ensures Confined(w, r, Enter(r, b, p), b)
  {
  }

  lemma CountedFits(s: seq<int>, w: int, r: Ranking, b: int, k: int)
    requires Counted(s, w, r, b, k)
    ensures 0 <= k <= |s|
  {
  }

  lemma NextInSection(s: seq<int>, w: int, ends: seq<int>, b: int, k: int)
    requires Ready(s, w, ends) && 0 <= b < |ends| && StartOf(ends, b) <= k < ends[b]
    ensures 0 <= k < |s| && Section(w, b, s[k])
  {
    hide EndOf, Num;
    StartIsEnd(s, w, ends, b);
    ZoneIs(s, w, b - 1);
    ZoneIs(s, w, b);
    KeyInZone(s, w, b, k);
  }

  lemma CountedNext(s: seq<int>, w: int, r: Ranking, r': Ranking, b: int, k: int)
    requires Counted(s, w, r, b, k) && k < |s|
    requires forall j :: RankAt(r', j) == if j == s[k] then RankAt(r, s[k]) + 1 else RankAt(r, j)
    requires Section(w, b, s[k])
    ensures Counted(s, w, r', b, k + 1)
  {
    hide Num, RankAt;
    CountsNext(s, k);
    forall i | Section(w, b, i) ensures RankAt(r', i) == Num(k + 1, Equal(s, i)) {
      assert RankAt(r, i) == Num(k, Equal(s, i)) && RankAt(r, s[k]) == Num(k, Equal(s, s[k]));
      assert Num(k + 1, Equal(s, i)) == Num(k, Equal(s, i)) + if i == s[k] then 1 else 0;
    }
  }

  lemma CountedAll(s: seq<int>, w: int, ends: seq<int>, r: Ranking, b: int)
    requires Ready(s, w, ends) && 0 <= b < |ends| && b < |r.phase| && Counted(s, w, r, b, ends[b])
    ensures Counted(s, w, Enter(r, b, Lifting), b, |s|)
  {
    hide EndOf, Num;
    StartIsEnd(s, w, ends, b);
    ZoneIs(s, w, b);
    CountsEnd(s, w, b, ends[b]);
    var r' := Enter(r, b, Lifting);
    forall i | Section(w, b, i) ensures RankAt(r', i) == Num(|s|, Equal(s, i)) {
      assert RankAt(r, i) == Num(ends[b], Equal(s, i));
    }
  }

  lemma LiftStep(s: seq<int>, w: int, ends: seq<int>, r: Ranking, b: int)
    requires Ready(s, w, ends) && RankShape(w, ends, r) && !r.fault && BucketInv(s, w, ends, r, b) &&
             r.phase[b].Lifting?
    ensures var r' := RankStep(s, w, ends, r, b); Confined(w, r, r', b) && BucketInv(s, w, ends, r', b)
  {
    hide EndOf, Num, RankOf, Counted, Added, Confined, Equal;
    StartIsEnd(s, w, ends, b);
    PutConfined(w, r, b, b * w, RankAt(r, b * w) + StartOf(ends, b), Adding(b * w + 1));
    Lifted(s, w, ends, r, RankStep(s, w, ends, r, b), b);
  }

  lemma Lifted(s: seq<int>, w: int, ends: seq<int>, r: Ranking, r': Ranking, b: int)
    requires Ready(s, w, ends) && 0 <= b < |ends| && Counted(s, w, r, b, |s|)
    requires forall j :: RankAt(r', j) == if j == b * w then RankAt(r, b * w) + StartOf(ends, b) else RankAt(r, j)
    ensures Added(s, w, r', b, b * w + 1)
  {
    hide EndOf, Num, RankOf, RankAt;
    StartIsEnd(s, w, ends, b);
    FirstRank(s, w, b, StartOf(ends, b));
    assert Section(w, b, b * w);
  }

  lemma AddStep(s: seq<int>, w: int, ends: seq<int>, r: Ranking, b: int)
    requires Ready(s, w, ends) && RankShape(w, ends, r) && !r.fault && BucketInv(s, w, ends, r, b) && r.phase[b].Adding?
    ensures var r' := RankStep(s, w, ends, r, b); Confined(w, r, r', b) && BucketInv(s, w, ends, r', b)
  {
    hide EndOf, Num, RankOf, Confined, Equal, Ready;
    var k := r.phase[b].k;
    if k < b * w + w {
      PutConfined(w, r, b, k, RankAt(r, k) + RankAt(r, k - 1), Adding(k + 1));
      AddedNext(s, w, r, RankStep(s, w, ends, r, b), b, k);
    } else {
      EnterConfined(w, r, b, Ranked);
      AddedAll(s, w, r, b);
    }
  }

  lemma AddedAll(s: seq<int>, w: int, r: Ranking, b: int)
    requires Added(s, w, r, b, b * w + w) && 0 <= b < |r.phase|
    ensures Added(s, w, Enter(r, b, Ranked), b, b * w + w)
  {
    var r' := Enter(r, b, Ranked);
    forall i | Section(w, b, i) ensures RankAt(r', i) == RankOf(s, i) { assert RankAt(r, i) == RankOf(s, i); }
  }

  lemma AddedNext(s: seq<int>, w: int, r: Ranking, r': Ranking, b: int, k: int)
    requires Added(s, w, r, b, k) && k < b * w + w
    requires forall j :: RankAt(r', j) == if j == k then RankAt(r, k) + RankAt(r, k - 1) else RankAt(r, j)
    ensures Added(s, w, r', b, k + 1)
  {
    hide Num, RankOf, RankAt;
    RankNext(s, k);
    assert Section(w, b, k) && Section(w, b, k - 1);
    assert RankAt(r, k - 1) == RankOf(s, k - 1);
  }

  lemma RankedStep(s: seq<int>, w: int, ends: seq<int>, r: Ranking, b: int)
    requires RankShape(w, ends, r) && !r.fault && 0 <= b < |r.phase| && r.phase[b].Ranked?
    ensures RankStep(s, w, ends, r, b) == r && Confined(w, r, r, b)
  {
  }

  lemma OwnStep(s: seq<int>, w: int, ends: seq<int>, r: Ranking, b: int)
    requires Ready(s, w, ends) && RankShape(w, ends, r) && !r.fault && BucketInv(s, w, ends, r, b)
    ensures var r' := RankStep(s, w, ends, r, b); Confined(w, r, r', b) && BucketInv(s, w, ends, r', b)
  {
    hide Ready, RankStep, Confined, Cleared, Counted, Added;
    match r.phase[b]
    case Clearing(_) => ClearStep(s, w, ends, r, b);
    case Counting(_) => CountStep(s, w, ends, r, b);
    case Lifting => LiftStep(s, w, ends, r, b);
    case Adding(_) => AddStep(s, w, ends, r, b);
    case Ranked => RankedStep(s, w, ends, r, b);
  }

  /** The sections of different buckets have no entry in common. */
  lemma SectionsApart(w: int, b: int, c: int, i: int)
    requires w > 0 && b != c && Section(w, c, i)
    ensures !Section(w, b, i)
  {
    QuotientIs(i, w, b);
    QuotientIs(i, w, c);
  }

  lemma OtherBucket(s: seq<int>, w: int, ends: seq<int>, r: Ranking, r': Ranking, b: int, c: int)
    requires w > 0 && BucketInv(s, w, ends, r, c) && Confined(w, r, r', b) && c != b
    ensures BucketInv(s, w, ends, r', c)
  {
    hide EndOf, Num, RankOf;
    forall i | Section(w, c, i) ensures RankAt(r', i) == RankAt(r, i) { SectionsApart(w, b, c, i); }
  }

  // ---- Any interleaving -------------------------------------------------------------------------

  lemma RankStepKeeps(s: seq<int>, w: int, ends: seq<int>, r: Ranking, b: int)
    requires Ready(s, w, ends) && RankInv(s, w, ends, r)
    ensures RankInv(s, w, ends, RankStep(s, w, ends, r, b))
  {
    hide Ready, Confined, BucketInv;
    var r' := RankStep(s, w, ends, r, b);
    if 0 <= b < |r.phase| {
      assert BucketInv(s, w, ends, r, b);
      OwnStep(s, w, ends, r, b);
      ConfinedShape(w, r, r', b);
      forall c | 0 <= c < |r'.phase| ensures BucketInv(s, w, ends, r', c) {
        assert BucketInv(s, w, ends, r, c);
        if c != b { OtherBucket(s, w, ends, r, r', b, c); }
      }
    }
  }

  lemma ConfinedShape(w: int, r: Ranking, r': Ranking, b: int)
    requires Confined(w, r, r', b)
    ensures |r'.phase| == |r.phase| && !r'.fault
  {
  }

  function RankRun(s: seq<int>, w: int, ends: seq<int>, r: Ranking, schedule: seq<int>): (r': Ranking)
    requires RankShape(w, ends, r)
    ensures RankShape(w, ends, r')
  {
    if schedule == [] then r
    else RankStep(s, w, ends, RankRun(s, w, ends, r, schedule[..|schedule| - 1]), schedule[|schedule| - 1])
  }

  lemma {:induction false} RankRunKeeps(s: seq<int>, w: int, ends: seq<int>, r: Ranking, schedule: seq<int>)
    requires Ready(s, w, ends) && RankInv(s, w, ends, r)
    ensures RankInv(s, w, ends, RankRun(s, w, ends, r, schedule))
  {
    if schedule != [] {
      var n := |schedule| - 1;
      hide Ready, RankStep, RankInv;
      RankRunKeeps(s, w, ends, r, schedule[..n]);
      RankStepKeeps(s, w, ends, RankRun(s, w, ends, r, schedule[..n]), schedule[n]);
    }
  }

  ghost predicate RankInitial(w: int, ends: seq<int>, r: Ranking) {
    RankShape(w, ends, r) && !r.fault && forall b :: 0 <= b < |r.phase| ==> r.phase[b] == Clearing(b * w)
  }

  predicate AllRanked(r: Ranking) {
    forall b :: 0 <= b < |r.phase| ==> r.phase[b] == Ranked
  }

  /** However the loops of the buckets are interleaved, and whatever the array held before, no write leaves it, and when
      all buckets are ranked every entry is the number of keys up to it. */
  lemma RanksAllKeys(s: seq<int>, w: int, ends: seq<int>, r0: Ranking, schedule: seq<int>)
    requires Ready(s, w, ends) && RankInitial(w, ends, r0)
    ensures var r := RankRun(s, w, ends, r0, schedule);
      !r.fault && (AllRanked(r) ==> forall k :: 0 <= k < |r.rank| ==> r.rank[k] == RankOf(s, k))
  {
    hide RankOf, EndOf, Num;
    forall b | 0 <= b < |r0.phase| ensures BucketInv(s, w, ends, r0, b) {}
    RankRunKeeps(s, w, ends, r0, schedule);
    var r := RankRun(s, w, ends, r0, schedule);
    if AllRanked(r) {
      forall k | 0 <= k < |r.rank| ensures r.rank[k] == RankOf(s, k) {
        BucketBelow(k, |ends|, w);
        QuotientIs(k, w, k / w);
        assert BucketInv(s, w, ends, r, k / w) && Section(w, k / w, k);
        assert RankAt(r, k) == r.rank[k];
      }
    }
  }

  // ---- Progress ---------------------------------------------------------------------------------

  /** The number of iterations behind a phase. */
  function Progress(w: int, ends: seq<int>, b: int, p: Phase): int
    requires 0 <= b < |ends|
  {
    var n := ends[b] - StartOf(ends, b);
    match p
    case Clearing(k) => k - b * w
    case Counting(k) => w + 1 + k - StartOf(ends, b)
    case Lifting => w + 2 + n
    case Adding(k) => w + 2 + n + k - b * w
    case Ranked => 2 * w + 3 + n
  }

  /** Every turn of a bucket takes it one iteration further, until it is ranked. */
  lemma ProgressStep(s: seq<int>, w: int, ends: seq<int>, r: Ranking, a: int, b: int)
    requires Ready(s, w, ends) && RankInv(s, w, ends, r) && 0 <= b < |r.phase|
    ensures var p := RankStep(s, w, ends, r, a).phase[b];
      p == Ranked || Progress(w, ends, b, p) == Progress(w, ends, b, r.phase[b]) + if a == b then 1 else 0
  {
    hide EndOf, Num, RankOf;
    assert BucketInv(s, w, ends, r, b);
    StartIsEnd(s, w, ends, b);
    if a == b {
      OwnStep(s, w, ends, r, b);
    } else if 0 <= a < |r.phase| {
      assert BucketInv(s, w, ends, r, a);
      OwnStep(s, w, ends, r, a);
    }
  }

  /** A bucket that has had enough turns is ranked. */
  lemma {:induction false} RankingTurns(s: seq<int>, w: int, ends: seq<int>, r0: Ranking, schedule: seq<int>, b: int)
    requires Ready(s, w, ends) && RankInitial(w, ends, r0) && RankInv(s, w, ends, r0) && 0 <= b < |r0.phase|
    ensures var p := RankRun(s, w, ends, r0, schedule).phase[b];
      p == Ranked || Progress(w, ends, b, p) == multiset(schedule)[b]
  {
    if schedule != [] {
      hide Ready, RankStep, RankInv, Progress;
      var n := |schedule| - 1;
      RankingTurns(s, w, ends, r0, schedule[..n], b);
      RankRunKeeps(s, w, ends, r0, schedule[..n]);
      ProgressStep(s, w, ends, RankRun(s, w, ends, r0, schedule[..n]), schedule[n], b);
      assert schedule == schedule[..n] + [schedule[n]];
      if RankRun(s, w, ends, r0, schedule[..n]).phase[b] == Ranked {
        RankedStays(s, w, ends, RankRun(s, w, ends, r0, schedule[..n]), schedule[n], b);
      }
    }
  }

  lemma RankedStays(s: seq<int>, w: int, ends: seq<int>, r: Ranking, a: int, b: int)
    requires RankShape(w, ends, r) && 0 <= b < |r.phase| && r.phase[b] == Ranked
    ensures RankStep(s, w, ends, r, a).phase[b] == Ranked
  {
  }

  lemma EnoughRanking(s: seq<int>, w: int, ends: seq<int>, r0: Ranking, schedule: seq<int>, b: int)
    requires Ready(s, w, ends) && RankInitial(w, ends, r0) && 0 <= b < |r0.phase|
    requires multiset(schedule)[b] >= 2 * w + |s| + 3
    ensures RankRun(s, w, ends, r0, schedule).phase[b] == Ranked
  {
    hide EndOf, Num, RankOf;
    forall c | 0 <= c < |r0.phase| ensures BucketInv(s, w, ends, r0, c) {}
    RankingTurns(s, w, ends, r0, schedule, b);
    RankRunKeeps(s, w, ends, r0, schedule);
    assert BucketInv(s, w, ends, RankRun(s, w, ends, r0, schedule), b);
    StartIsEnd(s, w, ends, b);
  }
}
