/** The concurrent latency histogram as a system of atomic steps. Updates never take the lock; a report holds it and
    works through the slots one atomic fetch-and-store at a time, with updates going on in between. */
module Histogram {
  const NSLOTS: int := 128

  ghost function Sum(s: seq<nat>): nat { if s == [] then 0 else Sum(s[..|s| - 1]) + s[|s| - 1] }

  lemma {:induction false} SumUpdate(s: seq<nat>, i: int, v: nat)
    requires 0 <= i < |s|
    ensures Sum(s[i := v]) == Sum(s) - s[i] + v
  {
    var n := |s| - 1;
    if i < n {
      SumUpdate(s[..n], i, v);
      assert s[i := v][..n] == s[..n][i := v];
    } else {
      assert s[i := v][..n] == s[..n];
    }
  }

  lemma SumNext(s: seq<nat>, i: int)
    requires 0 <= i < |s|
    ensures Sum(s[..i + 1]) == Sum(s[..i]) + s[i]
  {
    assert s[..i + 1][..i] == s[..i];
  }

  lemma {:induction false} SumZeros(s: seq<nat>)
    requires forall i :: 0 <= i < |s| ==> s[i] == 0
    ensures Sum(s) == 0
  {
    if s != [] { SumZeros(s[..|s| - 1]); }
  }

  // ---- Percentiles ------------------------------------------------------------------------------

  ghost function Prefix(bins: seq<nat>, k: int): nat
    requires 0 <= k <= |bins|
  {
    Sum(bins[..k])
  }

  /** The bin where the running total first reaches the target. */
  ghost predicate IsPercentile(bins: seq<nat>, nmax: int, i: int) {
    0 <= i < |bins| && Prefix(bins, i + 1) >= nmax && forall j :: 0 < j <= i ==> Prefix(bins, j) < nmax
  }

  /** The loop of the percentile functions: the least bin whose prefix reaches the target, or the array size if none
      does. */
  method FindPercentile(bins: seq<nat>, nmax: int) returns (i: int)
    ensures 0 <= i <= |bins|
    ensures if nmax <= Sum(bins) && |bins| > 0 then IsPercentile(bins, nmax, i) else i == |bins|
  {
    var ncur := 0;
    i := 0;
    assert bins[..0] == [];
    while i < |bins|
      invariant 0 <= i <= |bins| && ncur == Prefix(bins, i) && forall j :: 0 < j <= i ==> Prefix(bins, j) < nmax
    {
      SumNext(bins, i);
      ncur := ncur + bins[i];
      if ncur >= nmax { PrefixBelow(bins, i + 1); return; }
      i := i + 1;
    }
    assert bins[..i] == bins;
    assert |bins| > 0 ==> Prefix(bins, |bins|) < nmax;
  }

  lemma {:induction false} PrefixBelow(s: seq<nat>, k: int)
    requires 0 <= k <= |s|
    ensures Sum(s[..k]) <= Sum(s)
  {
    if k < |s| {
      PrefixBelow(s[..|s| - 1], k);
      assert s[..|s| - 1][..k] == s[..k];
    } else {
      assert s[..k] == s;
    }
  }

  /** The target count for a percentile. */
  function Target(nevents: nat, percentile: real): int { (nevents as real * percentile / 100.0 + 0.5).Floor }

  /** The count m is above the percentile's share of the events less one half. */
  ghost predicate PastShare(m: int, nevents: nat, percentile: real) {
    m as real > nevents as real * percentile / 100.0 - 0.5
  }

  lemma TargetReached(nevents: nat, percentile: real, m: int)
    ensures m >= Target(nevents, percentile) <==> PastShare(m, nevents, percentile)
  {
    FloorReached(nevents as real * percentile / 100.0 + 0.5, m);
  }

  lemma FloorReached(x: real, m: int)
    ensures m >= x.Floor <==> m as real > x - 1.0
  {
    if m >= x.Floor { assert m as real >= x.Floor as real; } else { assert (m + 1) as real <= x.Floor as real; }
  }

  /** The percentile stated on the counts: the first bin with which the count is past the percentile's share. */
  ghost predicate PercentileBin(bins: seq<nat>, percentile: real, i: int) {
    0 <= i < |bins| && PastShare(Prefix(bins, i + 1), Sum(bins), percentile) &&
    forall j :: 0 < j <= i ==> !PastShare(Prefix(bins, j), Sum(bins), percentile)
  }

  lemma PercentileIs(bins: seq<nat>, percentile: real, i: int)
    requires IsPercentile(bins, Target(Sum(bins), percentile), i)
    ensures PercentileBin(bins, percentile, i)
  {
    hide Target, PastShare, Prefix;
    TargetReached(Sum(bins), percentile, Prefix(bins, i + 1));
    forall j | 0 < j <= i ensures !PastShare(Prefix(bins, j), Sum(bins), percentile) {
      TargetReached(Sum(bins), percentile, Prefix(bins, j));
    }
  }

  lemma TargetWithin(nevents: nat, percentile: real)
    requires 0.0 <= percentile <= 100.0
    ensures 0 <= Target(nevents, percentile) <= nevents
  {
    var n := nevents as real;
    assert 0.0 <= n * percentile <= n * 100.0;
    assert 0.0 <= n * percentile / 100.0 <= n;
  }

  // ---- The shared histogram ---------------------------------------------------------------------

  datatype Report = Intermediate | Cumulative | Checkpoint

  /** What the holder of the lock is about to do. */
  datatype Work =
    | Unlocked
    | Collect(slot: int, i: int, nevents: nat)
    | AddBack(i: int, nevents: nat)
    | Merge(report: Report, slot: int, i: int, nevents: nat)
    | Evaluate(report: Report)
    | Reset

  /** The arrays of the histogram; for every bin the number of updates made and the number thrown away by
      checkpoints. */
  datatype State = State(slots: seq<seq<nat>>, temp: seq<nat>, cumulative: seq<nat>, cumulativeEvents: nat, work: Work,
      updates: seq<nat>, dropped: seq<nat>)

  function Init(size: nat): State {
    var zeros := seq(size, _ => 0);
    State(seq(NSLOTS, _ => zeros), zeros, zeros, 0, Unlocked, zeros, zeros)
  }

  /** The bin of an update: an arbitrary integer, clamped into the array. */
  function Clamp(i: int, size: nat): (r: int)
    ensures size > 0 ==> 0 <= r < size && (0 <= i < size ==> r == i)
    ensures i < 0 ==> r == 0
    ensures i >= size ==> r == size - 1
  {
    if i < 0 then 0 else if i >= size then size - 1 else i
  }

  datatype Step = Update(slot: int, bin: int) | Begin(report: Report) | Continue

  predicate Shape(s: State) {
    |s.slots| == NSLOTS && |s.temp| > 0 && |s.cumulative| == |s.updates| == |s.dropped| == |s.temp| &&
    (forall k :: 0 <= k < NSLOTS ==> |s.slots[k]| == |s.temp|) &&
    match s.work
    case Collect(k, i, _) => 0 <= k < NSLOTS && 0 <= i < |s.temp|
    case AddBack(i, _) => 0 <= i <= |s.temp|
    case Merge(_, k, i, _) => 0 <= k < NSLOTS && 0 <= i < |s.temp|
    case _ => true
  }

  function Put(slots: seq<seq<nat>>, k: int, i: int, v: nat): (r: seq<seq<nat>>)
    requires 0 <= k < |slots| && 0 <= i < |slots[k]|
    ensures |r| == |slots| && forall j :: 0 <= j < |r| ==> |r[j]| == |slots[j]|
  {
    var row: seq<nat> := slots[k][i := v];
    slots[k := row]
  }

  /** One atomic step: an update, taking the lock for a report, or the next action of the holder of the lock. */
  function Apply(s: State, step: Step): State
    requires Shape(s)
  {
    match step
    case Update(slot, bin) =>
      var k, b := slot % NSLOTS, Clamp(bin, |s.temp|);
      s.(slots := Put(s.slots, k, b, s.slots[k][b] + 1), updates := s.updates[b := s.updates[b] + 1])
    case Begin(report) =>
      if s.work != Unlocked then s
      else if report == Intermediate then s.(work := Collect(0, 0, 0))
      else s.(work := Merge(report, 0, 0, s.cumulativeEvents))
    case Continue => Advance(s)
  }

  function Advance(s: State): State
    requires Shape(s)
  {
    match s.work
    case Unlocked => s
    case Collect(k, i, n) =>
      var t := s.slots[k][i];
      var s' := s.(slots := Put(s.slots, k, i, 0), temp := s.temp[i := if k == 0 then t else s.temp[i] + t]);
      if i + 1 < |s.temp| then s'.(work := Collect(k, i + 1, n + t))
      else if k + 1 < NSLOTS then s'.(work := Collect(k + 1, 0, n + t))
      else s'.(work := AddBack(0, n + t))
    case AddBack(i, n) =>
      if i < |s.temp| then s.(cumulative := s.cumulative[i := s.cumulative[i] + s.temp[i]], work := AddBack(i + 1, n))
      else s.(cumulativeEvents := s.cumulativeEvents + n, work := Unlocked)
    case Merge(report, k, i, n) =>
      var t := s.slots[k][i];
      var s' := s.(slots := Put(s.slots, k, i, 0), cumulative := s.cumulative[i := s.cumulative[i] + t]);
      if i + 1 < |s.temp| then s'.(work := Merge(report, k, i + 1, n + t))
      else if k + 1 < NSLOTS then s'.(work := Merge(report, k + 1, 0, n + t))
      else s'.(cumulativeEvents := n + t, work := Evaluate(report))
    case Evaluate(report) => if report == Checkpoint then s.(work := Reset) else s.(work := Unlocked)
    case Reset =>
      s.(dropped := seq(|s.temp|, b requires 0 <= b < |s.temp| => s.dropped[b] + s.cumulative[b]),
          cumulative := seq(|s.temp|, _ => 0), cumulativeEvents := 0, work := Unlocked)
  }

  // ---- Conservation -----------------------------------------------------------------------------

  /** The live count of a bin, over the first n slots. */
  ghost function Column(slots: seq<seq<nat>>, b: int, n: nat): nat
    requires n <= |slots| && 0 <= b && forall k :: 0 <= k < |slots| ==> b < |slots[k]|
  {
    if n == 0 then 0 else Column(slots, b, n - 1) + slots[n - 1][b]
  }

  lemma {:induction false} ColumnUpdate(slots: seq<seq<nat>>, k: int, i: int, v: nat, b: int, n: nat)
    requires n <= |slots| && 0 <= b && (forall j :: 0 <= j < |slots| ==> b < |slots[j]|) && 0 <= k < |slots| &&
             0 <= i < |slots[k]|
    ensures Column(Put(slots, k, i, v), b, n) == Column(slots, b, n) + if k < n && b == i then v - slots[k][i] else 0
  {
    if n > 0 { ColumnUpdate(slots, k, i, v, b, n - 1); }
  }

  /** What a report has taken out of the slots but not yet put into the cumulative array. */
  ghost function InFlight(s: State, b: int): nat
    requires Shape(s) && 0 <= b < |s.temp|
  {
    match s.work
    case Collect(k, i, _) => if k > 0 || b < i then s.temp[b] else 0
    case AddBack(i, _) => if b < i then 0 else s.temp[b]
    case _ => 0
  }

  /** Every update of bin b is in exactly one place. */
  ghost predicate Conserved(s: State, b: int)
    requires Shape(s) && 0 <= b < |s.temp|
  {
    s.updates[b] == Column(s.slots, b, NSLOTS) + InFlight(s, b) + s.cumulative[b] + s.dropped[b]
  }

  ghost predicate EventsOk(s: State)
    requires Shape(s)
  {
    match s.work
    case Unlocked => s.cumulativeEvents == Sum(s.cumulative)
    case Collect(k, i, n) =>
      s.cumulativeEvents == Sum(s.cumulative) && n == if k == 0 then Sum(s.temp[..i]) else Sum(s.temp)
    case AddBack(i, n) => s.cumulativeEvents + Sum(s.temp[..i]) == Sum(s.cumulative) && n == Sum(s.temp)
    case Merge(_, _, _, n) => n == Sum(s.cumulative)
    case Evaluate(_) => s.cumulativeEvents == Sum(s.cumulative)
    case Reset => s.cumulativeEvents == Sum(s.cumulative)
  }

  ghost predicate Inv(s: State) {
    Shape(s) && EventsOk(s) && forall b {:trigger Conserved(s, b)} :: 0 <= b < |s.temp| ==> Conserved(s, b)
  }

  lemma InitInv(size: nat)
    requires size > 0
    ensures Inv(Init(size))
  {
    var s := Init(size);
    SumZeros(s.cumulative);
    forall b | 0 <= b < size ensures Conserved(s, b) { ColumnZeros(s.slots, b, NSLOTS); }
  }

  lemma {:induction false} ColumnZeros(slots: seq<seq<nat>>, b: int, n: nat)
    requires n <= |slots| && 0 <= b && forall k :: 0 <= k < |slots| ==> b < |slots[k]| && slots[k][b] == 0
    ensures Column(slots, b, n) == 0
  {
    if n > 0 { ColumnZeros(slots, b, n - 1); }
  }

  lemma UpdateKeeps(s: State, slot: int, bin: int)
    requires Inv(s)
    ensures Inv(Apply(s, Update(slot, bin)))
  {
    hide Sum, Column;
    var s' := Apply(s, Update(slot, bin));
    var k, i := slot % NSLOTS, Clamp(bin, |s.temp|);
    forall b | 0 <= b < |s.temp| ensures Conserved(s', b) {
      assert Conserved(s, b);
      ColumnUpdate(s.slots, k, i, s.slots[k][i] + 1, b, NSLOTS);
    }
  }

  lemma BeginKeeps(s: State, report: Report)
    requires Inv(s)
    ensures Inv(Apply(s, Begin(report)))
  {
    hide Column;
    var s' := Apply(s, Begin(report));
    assert s.temp[..0] == [];
    forall b | 0 <= b < |s.temp| ensures Conserved(s', b) { assert Conserved(s, b); }
  }

  lemma CollectKeeps(s: State)
    requires Inv(s) && s.work.Collect?
    ensures Inv(Advance(s))
  {
    var s', k, i := Advance(s), s.work.slot, s.work.i;
    CollectEvents(s);
    hide Column, Sum, EventsOk;
    forall b | 0 <= b < |s.temp| ensures Conserved(s', b) {
      assert Conserved(s, b);
      ColumnUpdate(s.slots, k, i, 0, b, NSLOTS);
    }
  }

  lemma CollectEvents(s: State)
    requires Shape(s) && EventsOk(s) && s.work.Collect?
    ensures Shape(Advance(s)) && EventsOk(Advance(s))
  {
    var s', k, i := Advance(s), s.work.slot, s.work.i;
    TempEvents(s.temp, s'.temp, i, k == 0);
  }

  /** Storing or adding the fetched value changes the sum of what was collected by that value. */
  lemma TempEvents(temp: seq<nat>, temp': seq<nat>, i: int, first: bool)
    requires 0 <= i < |temp| && |temp'| == |temp| && temp' == temp[i := temp'[i]]
    ensures if first then Sum(temp'[..i + 1]) == Sum(temp[..i]) + temp'[i]
            else Sum(temp') == Sum(temp) - temp[i] + temp'[i]
    ensures (i + 1 == |temp| ==> Sum(temp'[..i + 1]) == Sum(temp')) && Sum(temp'[..0]) == 0
  {
    SumUpdate(temp, i, temp'[i]);
    SumNext(temp', i);
    assert temp'[..i] == temp[..i];
    assert i + 1 == |temp| ==> temp'[..i + 1] == temp';
    assert temp'[..0] == [];
    NothingSummed();
  }

  lemma NothingSummed()
    ensures Sum([]) == 0
  {
  }

  lemma AddBackKeeps(s: State)
    requires Inv(s) && s.work.AddBack?
    ensures Inv(Advance(s))
  {
    var s', i := Advance(s), s.work.i;
    if i < |s.temp| {
      SumUpdate(s.cumulative, i, s.cumulative[i] + s.temp[i]);
      SumNext(s.temp, i);
    } else {
      assert s.temp[..i] == s.temp;
    }
    hide Column, Sum;
    forall b | 0 <= b < |s.temp| ensures Conserved(s', b) { assert Conserved(s, b); }
  }

  lemma MergeKeeps(s: State)
    requires Inv(s) && s.work.Merge?
    ensures Inv(Advance(s))
  {
    var s', k, i := Advance(s), s.work.slot, s.work.i;
    SumUpdate(s.cumulative, i, s.cumulative[i] + s.slots[k][i]);
    hide Column, Sum;
    forall b | 0 <= b < |s.temp| ensures Conserved(s', b) {
      assert Conserved(s, b);
      ColumnUpdate(s.slots, k, i, 0, b, NSLOTS);
    }
  }

  lemma RestKeeps(s: State)
    requires Inv(s) && (s.work.Evaluate? || s.work.Reset? || s.work.Unlocked?)
    ensures Inv(Advance(s))
  {
    var s' := Advance(s);
    if s.work.Reset? { SumZeros(s'.cumulative); }
    hide Column, Sum;
    forall b | 0 <= b < |s.temp| ensures Conserved(s', b) { assert Conserved(s, b); }
  }

  lemma StepKeeps(s: State, step: Step)
    requires Inv(s)
    ensures Inv(Apply(s, step))
  {
    hide Inv, Advance;
    match step
    case Update(slot, bin) => UpdateKeeps(s, slot, bin);
    case Begin(report) => BeginKeeps(s, report);
    case Continue =>
      match s.work {
        case Collect(_, _, _) => CollectKeeps(s);
        case AddBack(_, _) => AddBackKeeps(s);
        case Merge(_, _, _, _) => MergeKeeps(s);
        case _ => RestKeeps(s);
      }
  }

  /** A run; a step that would not keep the shape of the arrays does not occur. */
  ghost function Run(s: State, steps: seq<Step>): State
    requires Inv(s)
    ensures Inv(Run(s, steps))
  {
    if steps == [] then s
    else
      var r := Run(s, steps[..|steps| - 1]);
      StepKeeps(r, steps[|steps| - 1]);
      Apply(r, steps[|steps| - 1])
  }

  /** The updates of bin b among the steps. */
  ghost function Updates(steps: seq<Step>, size: nat, b: int): nat {
    if steps == [] then 0
    else Updates(steps[..|steps| - 1], size, b) + match steps[|steps| - 1]
      case Update(_, bin) => (if Clamp(bin, size) == b then 1 else 0) case _ => 0
  }

  lemma UpdateCounted(s: State, step: Step, b: int)
    requires Shape(s) && 0 <= b < |s.temp|
    ensures |Apply(s, step).temp| == |s.temp| && |Apply(s, step).updates| == |s.temp|
    ensures Apply(s, step).updates[b] ==
              s.updates[b] + match step case Update(_, bin) => (if Clamp(bin, |s.temp|) == b then 1 else 0) case _ => 0
  {
  }

  lemma {:induction false} UpdatesCounted(size: nat, steps: seq<Step>, b: int)
    requires size > 0 && 0 <= b < size && Inv(Init(size))
    ensures var s := Run(Init(size), steps); |s.temp| == size && s.updates[b] == Updates(steps, size, b)
  {
    if steps != [] {
      UpdatesCounted(size, steps[..|steps| - 1], b);
      hide Inv, EventsOk;
      UpdateCounted(Run(Init(size), steps[..|steps| - 1]), steps[|steps| - 1], b);
    }
  }

  /** In every interleaving of updates and reports, every update of a bin is counted exactly once: it is live in the
      slots, in an unfinished report, in the cumulative array, or was dropped by an earlier checkpoint. Whenever the
      lock is free, the event count is the sum of the cumulative array. */
  lemma NothingLost(size: nat, steps: seq<Step>, b: int)
    requires size > 0 && 0 <= b < size
    ensures Inv(Init(size))
    ensures var s := Run(Init(size), steps);
      |s.temp| == size &&
      Updates(steps, size, b) == Column(s.slots, b, NSLOTS) + InFlight(s, b) + s.cumulative[b] + s.dropped[b] &&
      (s.work == Unlocked ==> s.cumulativeEvents == Sum(s.cumulative))
  {
    InitInv(size);
    UpdatesCounted(size, steps, b);
    var s := Run(Init(size), steps);
    assert Conserved(s, b);
  }

  // ---- What each report leaves behind ---------------------------------------------------------------

  /** The report that the holder of the lock is making. */
  function Kind(w: Work): Report
    requires w != Unlocked
  {
    match w
    case Collect(_, _, _) => Intermediate
    case AddBack(_, _) => Intermediate
    case Merge(report, _, _, _) => report
    case Evaluate(report) => report
    case Reset => Checkpoint
  }

  ghost predicate Cleared(s: State) {
    s.cumulativeEvents == 0 && forall b :: 0 <= b < |s.cumulative| ==> s.cumulative[b] == 0
  }

  lemma ReportBegins(s: State, report: Report)
    requires Shape(s) && s.work == Unlocked
    ensures var s' := Apply(s, Begin(report)); s'.work != Unlocked && Kind(s'.work) == report
  {
  }

  /** A report stays the report it is until the lock is free. At the end of a checkpoint the cumulative array is empty;
      only there are counts thrown away. */
  lemma ReportEnds(s: State, step: Step)
    requires Shape(s) && s.work != Unlocked
    ensures var s' := Apply(s, step);
      (s'.work != Unlocked ==> Kind(s'.work) == Kind(s.work) && s'.dropped == s.dropped) &&
      (s'.work == Unlocked ==> if Kind(s.work) == Checkpoint then Cleared(s') else s'.dropped == s.dropped)
  {
  }

  /** Without checkpoints every update is live in the slots, in an unfinished report or in the cumulative array. */
  lemma {:induction false} NothingDropped(size: nat, steps: seq<Step>)
    requires size > 0 && Begin(Checkpoint) !in steps && Inv(Init(size))
    ensures var s := Run(Init(size), steps);
      (s.work != Unlocked ==> Kind(s.work) != Checkpoint) && forall b :: 0 <= b < |s.dropped| ==> s.dropped[b] == 0
  {
    if steps != [] {
      hide Inv, Conserved, EventsOk;
      var n := |steps| - 1;
      NothingDropped(size, steps[..n]);
      var s, step := Run(Init(size), steps[..n]), steps[n];
      assert Shape(s) by { ShapeKept(s); }
      assert step != Begin(Checkpoint);
      if s.work != Unlocked { ReportEnds(s, step); } else if step.Begin? { ReportBegins(s, step.report); }
    }
  }

  lemma ShapeKept(s: State)
    requires Inv(s)
    ensures Shape(s)
  {
  }

  /** When a report evaluates a percentile of at most 100, the bin found is inside the array and is the first one with
      which the percentile's share of the events, rounded, has been counted. */
  method EvaluatePercentile(s: State, percentile: real) returns (i: int)
    requires Inv(s) && 0.0 <= percentile <= 100.0 && (s.work.Evaluate? || (s.work.AddBack? && s.work.i == 0))
    ensures var bins := if s.work.Evaluate? then s.cumulative else s.temp; PercentileBin(bins, percentile, i)
  {
    hide Conserved, Target, PercentileBin, IsPercentile;
    if s.work.Evaluate? {
      TargetWithin(s.cumulativeEvents, percentile);
      i := FindPercentile(s.cumulative, Target(s.cumulativeEvents, percentile));
      PercentileIs(s.cumulative, percentile, i);
    } else {
      TargetWithin(s.work.nevents, percentile);
      i := FindPercentile(s.temp, Target(s.work.nevents, percentile));
      PercentileIs(s.temp, percentile, i);
    }
  }
}
