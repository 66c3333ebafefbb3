/** The reusable thread barrier as a system of atomic steps. Any number of threads call it any number of times; a
    waiting thread may wake up at any time without reason. Serial numbers do not wrap around here. */
module Barrier {
  const SERIAL_THREAD: int := 1

  /** What a thread is doing, and for which generation. */
  datatype Phase =
    | Entered
    | Leading(gen: nat)
    | Waiting(gen: nat)
    | Checking(gen: nat)
    | Leaving(gen: nat, leader: bool, res: int)

  datatype Holder = Nobody | Held(thread: int)

  /** The history of one generation: arrivals, leaders, finished callback runs, and whether the callback failed. */
  datatype Generation = Generation(arrivals: nat, leaders: nat, ended: nat, failed: bool)

  datatype State = State(initCount: nat, count: nat, serial: nat, error: bool, mutex: Holder, phase: map<int, Phase>,
      gens: seq<Generation>)

  datatype Result = Failure | Success(barrier: State)

  /** sb_barrier_init */
  function Init(count: nat): Result {
    if count == 0 then Failure
    else Success(State(count, count, 0, false, Nobody, map[], [Generation(0, 0, 0, false)]))
  }

  datatype Step =
    | Lock(thread: int)
    | Arrive(thread: int)
    | Callback(thread: int, present: bool, result: int)
    | Wake(thread: int)
    | Check(thread: int)
    | Unlock(thread: int)

  predicate Holds(s: State, t: int) { s.mutex == Held(t) && t in s.phase }

  /** sb_barrier_wait, step by step. The mutex is held from Lock or Wake until the thread waits or unlocks; waiting
      releases it. */
  function Apply(s: State, step: Step): State {
    match step
    case Lock(t) =>
      if s.mutex != Nobody || t in s.phase then s
      else s.(mutex := Held(t), phase := s.phase[t := Entered])
    case Arrive(t) =>
      if !Holds(s, t) || s.phase[t] != Entered || s.count == 0 || s.serial >= |s.gens| then s
      else
        var g := s.gens[s.serial];
        if s.count == 1 then
          s.(serial := s.serial + 1, count := s.initCount, phase := s.phase[t := Leading(s.serial)],
             gens := s.gens[s.serial := g.(arrivals := g.arrivals + 1, leaders := g.leaders + 1)] +
                     [Generation(0, 0, 0, false)])
        else
          s.(count := s.count - 1, mutex := Nobody, phase := s.phase[t := Waiting(s.serial)],
              gens := s.gens[s.serial := g.(arrivals := g.arrivals + 1)])
    case Callback(t, present, result) =>
      if !Holds(s, t) || !s.phase[t].Leading? || s.phase[t].gen >= |s.gens| then s
      else
        var gen := s.phase[t].gen;
        var failed := present && result != 0;
        s.(error := s.error || failed, phase := s.phase[t := Leaving(gen, true, if failed then -1 else SERIAL_THREAD)],
           gens := s.gens[gen := s.gens[gen].(ended := s.gens[gen].ended + 1, failed := failed)])
    case Wake(t) =>
      if s.mutex != Nobody || t !in s.phase || !s.phase[t].Waiting? then s
      else s.(mutex := Held(t), phase := s.phase[t := Checking(s.phase[t].gen)])
    case Check(t) =>
      if !Holds(s, t) || !s.phase[t].Checking? then s
      else
        var gen := s.phase[t].gen;
        if gen == s.serial then s.(mutex := Nobody, phase := s.phase[t := Waiting(gen)])
        else s.(phase := s.phase[t := Leaving(gen, false, if s.error then -1 else 0)])
    case Unlock(t) =>
      if !Holds(s, t) || !s.phase[t].Leaving? then s
      else s.(mutex := Nobody, phase := s.phase - {t})
  }

  /** A finished generation: all arrivals are in, it had one leader, and one callback run, except while that run is
      under way. */
  ghost predicate Finished(s: State, g: nat)
    requires g < |s.gens|
  {
    s.gens[g].arrivals == s.initCount && s.gens[g].leaders == 1 &&
    (s.gens[g].ended == 1 ||
     (s.gens[g].ended == 0 && !s.gens[g].failed && g + 1 == s.serial && s.mutex.Held? &&
      s.mutex.thread in s.phase && s.phase[s.mutex.thread] == Leading(g)))
  }

  ghost predicate PhaseOk(s: State, t: int)
    requires t in s.phase
  {
    match s.phase[t]
    case Entered => s.mutex == Held(t)
    case Leading(g) => s.mutex == Held(t) && g + 1 == s.serial && g < |s.gens| && s.gens[g].ended == 0
    case Waiting(g) => s.mutex != Held(t) && g <= s.serial
    case Checking(g) => s.mutex == Held(t) && g <= s.serial
    case Leaving(g, leader, res) =>
      s.mutex == Held(t) && g < s.serial && g < |s.gens| && s.gens[g].ended == 1 && (s.gens[g].failed ==> res < 0) &&
      (if leader then res == (if s.gens[g].failed then -1 else SERIAL_THREAD) else res == if s.error then -1 else 0)
  }

  ghost predicate SomeFailed(s: State) { exists g :: 0 <= g < |s.gens| && s.gens[g].failed }

  ghost predicate Inv(s: State) {
    1 <= s.count <= s.initCount && |s.gens| == s.serial + 1 &&
    s.gens[s.serial] == Generation(s.initCount - s.count, 0, 0, false) &&
    (s.error <==> SomeFailed(s)) &&
    (s.mutex.Held? ==> s.mutex.thread in s.phase && !s.phase[s.mutex.thread].Waiting?) &&
    (forall g {:trigger Finished(s, g)} :: 0 <= g < s.serial ==> Finished(s, g)) &&
    (forall t {:trigger PhaseOk(s, t)} :: t in s.phase ==> PhaseOk(s, t))
  }

  lemma InitInv(count: nat)
    ensures Init(count).Success? <==> count > 0
    ensures count > 0 ==> Inv(Init(count).barrier)
  {
  }

  lemma OthersOk(s: State, s': State, t: int)
    requires Inv(s) && (forall u :: u in s'.phase && u != t ==> u in s.phase && s'.phase[u] == s.phase[u])
    requires s.mutex == Held(t) || s.mutex == Nobody
    requires s'.mutex == Held(t) || s'.mutex == Nobody
    requires s.serial <= s'.serial
    ensures forall u {:trigger PhaseOk(s', u)} :: u in s'.phase && u != t ==> PhaseOk(s', u)
  {
    forall u | u in s'.phase && u != t ensures PhaseOk(s', u) { assert PhaseOk(s, u); }
  }

  lemma LockKeeps(s: State, t: int)
    requires Inv(s)
    ensures Inv(Apply(s, Lock(t)))
  {
    var s' := Apply(s, Lock(t));
    if s' != s {
      OthersOk(s, s', t);
      forall g | 0 <= g < s'.serial ensures Finished(s', g) { assert Finished(s, g); }
      SameFailed(s, s');
    }
  }

  lemma SameFailed(s: State, s': State)
    requires |s.gens| <= |s'.gens| && (forall g :: 0 <= g < |s.gens| ==> s.gens[g].failed == s'.gens[g].failed) &&
             forall g :: |s.gens| <= g < |s'.gens| ==> !s'.gens[g].failed
    ensures SomeFailed(s) <==> SomeFailed(s')
  {
    if SomeFailed(s) { var g :| 0 <= g < |s.gens| && s.gens[g].failed; assert s'.gens[g].failed; }
  }

  lemma ArriveKeeps(s: State, t: int)
    requires Inv(s)
    ensures Inv(Apply(s, Arrive(t)))
  {
    var s' := Apply(s, Arrive(t));
    if s' != s {
      OthersOk(s, s', t);
      forall g | 0 <= g < s'.serial ensures Finished(s', g) { if g < s.serial { assert Finished(s, g); } }
      SameFailed(s, s');
    }
  }

  lemma CallbackKeeps(s: State, t: int, present: bool, result: int)
    requires Inv(s)
    ensures Inv(Apply(s, Callback(t, present, result)))
  {
    var s' := Apply(s, Callback(t, present, result));
    if s' != s {
      assert PhaseOk(s, t);
      var gen := s.phase[t].gen;
      OthersOk(s, s', t);
      forall g | 0 <= g < s'.serial ensures Finished(s', g) { assert Finished(s, g); }
      if s.error {
        var g :| 0 <= g < |s.gens| && s.gens[g].failed;
        assert Finished(s, g) && g != gen;
        assert s'.gens[g].failed;
      }
      if present && result != 0 { assert s'.gens[gen].failed; }
      if SomeFailed(s') { var g :| 0 <= g < |s'.gens| && s'.gens[g].failed; if g != gen { assert s.gens[g].failed; } }
    }
  }

  lemma WakeKeeps(s: State, t: int)
    requires Inv(s)
    ensures Inv(Apply(s, Wake(t)))
  {
    var s' := Apply(s, Wake(t));
    if s' != s {
      assert PhaseOk(s, t);
      OthersOk(s, s', t);
      forall g | 0 <= g < s'.serial ensures Finished(s', g) { assert Finished(s, g); }
      SameFailed(s, s');
    }
  }

  lemma CheckKeeps(s: State, t: int)
    requires Inv(s)
    ensures Inv(Apply(s, Check(t)))
  {
    var s' := Apply(s, Check(t));
    if s' != s {
      assert PhaseOk(s, t);
      OthersOk(s, s', t);
      forall g | 0 <= g < s'.serial ensures Finished(s', g) { assert Finished(s, g); }
      SameFailed(s, s');
      var gen := s.phase[t].gen;
      if gen < s.serial {
        assert Finished(s, gen);
        assert s.gens[gen].failed ==> SomeFailed(s);
      }
    }
  }

  lemma UnlockKeeps(s: State, t: int)
    requires Inv(s)
    ensures Inv(Apply(s, Unlock(t)))
  {
    var s' := Apply(s, Unlock(t));
    if s' != s {
      assert PhaseOk(s, t);
      OthersOk(s, s', t);
      forall g | 0 <= g < s'.serial ensures Finished(s', g) { assert Finished(s, g); }
      SameFailed(s, s');
    }
  }

  lemma StepKeeps(s: State, step: Step)
    requires Inv(s)
    ensures Inv(Apply(s, step))
  {
    hide Apply, Inv;
    match step
    case Lock(t) => LockKeeps(s, t);
    case Arrive(t) => ArriveKeeps(s, t);
    case Callback(t, present, result) => CallbackKeeps(s, t, present, result);
    case Wake(t) => WakeKeeps(s, t);
    case Check(t) => CheckKeeps(s, t);
    case Unlock(t) => UnlockKeeps(s, t);
  }

  ghost function Run(s: State, steps: seq<Step>): State {
    if steps == [] then s else Apply(Run(s, steps[..|steps| - 1]), steps[|steps| - 1])
  }

  lemma {:induction false} RunKeeps(count: nat, steps: seq<Step>)
    requires count > 0
    ensures Inv(Run(Init(count).barrier, steps))
  {
    if steps == [] {
      InitInv(count);
    } else {
      RunKeeps(count, steps[..|steps| - 1]);
      StepKeeps(Run(Init(count).barrier, steps[..|steps| - 1]), steps[|steps| - 1]);
    }
  }

  /** In every run, a thread about to return belongs to a generation with all arrivals, exactly one leader and exactly
      one finished callback run. If that callback failed it returns a negative value; its leader returns the
      serial-thread value exactly when it did not fail; another thread returns 0 exactly when no callback of any
      generation has failed so far. */
  lemma LeavesInTime(count: nat, steps: seq<Step>, t: int)
    requires count > 0
    ensures var s := Run(Init(count).barrier, steps);
      t in s.phase && s.phase[t].Leaving? ==>
        var g, res := s.phase[t].gen, s.phase[t].res;
        g < |s.gens| && s.gens[g].arrivals == s.initCount && s.gens[g].leaders == 1 && s.gens[g].ended == 1 &&
        (s.gens[g].failed ==> res < 0) &&
        (if s.phase[t].leader then res == (if s.gens[g].failed then -1 else SERIAL_THREAD)
         else res == if SomeFailed(s) then -1 else 0)
  {
    RunKeeps(count, steps);
    hide Run;
    var s := Run(Init(count).barrier, steps);
    if t in s.phase && s.phase[t].Leaving? {
      assert PhaseOk(s, t) && Finished(s, s.phase[t].gen);
    }
  }

  /** No generation ever has two leaders or two callback runs, or more arrivals than the barrier counts. */
  lemma OneLeader(count: nat, steps: seq<Step>, g: nat)
    requires count > 0 && g < |Run(Init(count).barrier, steps).gens|
    ensures var s := Run(Init(count).barrier, steps);
      s.gens[g].arrivals <= s.initCount && s.gens[g].leaders <= 1 && s.gens[g].ended <= s.gens[g].leaders &&
      (s.gens[g].leaders == 1 <==> s.gens[g].arrivals == s.initCount)
  {
    RunKeeps(count, steps);
    hide Run;
    var s := Run(Init(count).barrier, steps);
    if g < s.serial { assert Finished(s, g); }
  }

  // ---- The error flag stays ---------------------------------------------------------------------------

  lemma ErrorStep(s: State, step: Step)
    requires s.error
    ensures Apply(s, step).error
  {
  }

  lemma RunNext(s: State, steps: seq<Step>, step: Step)
    ensures Run(s, steps + [step]) == Apply(Run(s, steps), step)
  {
    assert (steps + [step])[..|steps|] == steps;
  }

  lemma {:induction false} ErrorRun(s: State, steps: seq<Step>, more: seq<Step>)
    requires Run(s, steps).error
    ensures Run(s, steps + more).error
  {
    if more == [] {
      assert steps + more == steps;
    } else {
      hide Apply, Run;
      var n := |more| - 1;
      ErrorRun(s, steps, more[..n]);
      assert steps + more == (steps + more[..n]) + [more[n]];
      RunNext(s, steps + more[..n], more[n]);
      ErrorStep(Run(s, steps + more[..n]), more[n]);
    }
  }

  /** The error flag is never cleared. Once a callback of any generation has failed, then however the run goes on, every
      thread about to return that is not a leader returns -1: threads of later generations, even if their own callback
      succeeded, and threads of earlier generations that leave late. */
  lemma ErrorStays(count: nat, steps: seq<Step>, more: seq<Step>, t: int)
    requires count > 0 && SomeFailed(Run(Init(count).barrier, steps))
    ensures var s := Run(Init(count).barrier, steps + more);
      SomeFailed(s) && (t in s.phase && s.phase[t].Leaving? && !s.phase[t].leader ==> s.phase[t].res == -1)
  {
    RunKeeps(count, steps);
    RunKeeps(count, steps + more);
    hide Run;
    ErrorRun(Init(count).barrier, steps, more);
    LeavesInTime(count, steps + more, t);
  }

  /** The steps of one generation of two threads: the first arrives and waits, the second leads, and its callback
      returns. */
  function TwoArrive(first: int, second: int, result: int): seq<Step> {
    [Lock(first), Arrive(first), Lock(second), Arrive(second), Callback(second, true, result), Unlock(second)]
  }

  function WakeUp(t: int): seq<Step> { [Wake(t), Check(t)] }

  /** What two threads do to a barrier for two on which nobody is waiting for the current generation. */
  lemma AfterTwo(s: State, first: int, second: int, result: int)
    requires s.initCount == s.count == 2 && s.mutex == Nobody && first != second && first !in s.phase &&
             second !in s.phase
    requires |s.gens| == s.serial + 1 && s.gens[s.serial] == Generation(0, 0, 0, false)
    ensures var g, failed := s.serial, result != 0;
      Run(s, TwoArrive(first, second, result)) ==
      State(2, 2, g + 1, s.error || failed, Nobody, s.phase[first := Waiting(g)],
            s.gens[..g] + [Generation(2, 1, 1, failed), Generation(0, 0, 0, false)])
  {
    hide Run, Apply;
    RunSix(s, TwoArrive(first, second, result));
    var s2 := FirstArrives(s, first);
    var s4 := SecondArrives(s2, second);
    CallbackReturns(s4, second, result);
    assert s4.phase - {second} == s.phase[first := Waiting(s.serial)];
    assert s4.gens[s.serial := Generation(2, 1, 1, result != 0)] ==
           s.gens[..s.serial] + [Generation(2, 1, 1, result != 0), Generation(0, 0, 0, false)];
  }

  lemma FirstArrives(s: State, t: int) returns (s': State)
    requires s.count == 2 && s.mutex == Nobody && t !in s.phase && |s.gens| == s.serial + 1 &&
             s.gens[s.serial] == Generation(0, 0, 0, false)
    ensures s' == Apply(Apply(s, Lock(t)), Arrive(t))
    ensures s' ==
              s.(count := 1, phase := s.phase[t := Waiting(s.serial)],
                  gens := s.gens[s.serial := Generation(1, 0, 0, false)])
  {
    s' := Apply(Apply(s, Lock(t)), Arrive(t));
  }

  lemma SecondArrives(s: State, t: int) returns (s': State)
    requires s.count == 1 && s.mutex == Nobody && t !in s.phase && |s.gens| == s.serial + 1 &&
             s.gens[s.serial] == Generation(1, 0, 0, false)
    ensures s' == Apply(Apply(s, Lock(t)), Arrive(t))
    ensures s' ==
              s.(serial := s.serial + 1, count := s.initCount, mutex := Held(t),
                  phase := s.phase[t := Leading(s.serial)],
                     gens := s.gens[s.serial := Generation(2, 1, 0, false)] + [Generation(0, 0, 0, false)])
  {
    s' := Apply(Apply(s, Lock(t)), Arrive(t));
  }

  lemma CallbackReturns(s: State, t: int, result: int)
    requires s.mutex == Held(t) && t in s.phase && s.phase[t].Leading? && s.phase[t].gen < |s.gens| &&
             s.gens[s.phase[t].gen].ended == 0
    ensures var g, failed := s.phase[t].gen, result != 0;
      Apply(Apply(s, Callback(t, true, result)), Unlock(t)) ==
      s.(error := s.error || failed, mutex := Nobody, phase := s.phase - {t},
          gens := s.gens[g := s.gens[g].(ended := 1, failed := failed)])
  {
  }

  lemma RunSix(s: State, steps: seq<Step>)
    requires |steps| == 6
    ensures Run(s, steps) ==
              Apply(Apply(Apply(Apply(Apply(Apply(s, steps[0]), steps[1]), steps[2]), steps[3]), steps[4]), steps[5])
  {
    hide Apply;
    var t1, t2, t3, t4, t5 := steps[..1], steps[..2], steps[..3], steps[..4], steps[..5];
    assert steps[..0] == [] && t1 == [] + [steps[0]] && t2 == t1 + [steps[1]] && t3 == t2 + [steps[2]];
    assert t4 == t3 + [steps[3]] && t5 == t4 + [steps[4]] && steps == t5 + [steps[5]];
    RunNext(s, [], steps[0]);
    RunNext(s, t1, steps[1]);
    RunNext(s, t2, steps[2]);
    RunNext(s, t3, steps[3]);
    RunNext(s, t4, steps[4]);
    RunNext(s, t5, steps[5]);
  }

  lemma {:induction false} RunConcat(s: State, a: seq<Step>, b: seq<Step>)
    ensures Run(s, a + b) == Run(Run(s, a), b)
  {
    hide Apply;
    if b == [] {
      assert a + b == a;
    } else {
      var n := |b| - 1;
      assert a + b == (a + b[..n]) + [b[n]] && b == b[..n] + [b[n]];
      RunConcat(s, a, b[..n]);
      RunNext(s, a + b[..n], b[n]);
      RunNext(Run(s, a), b[..n], b[n]);
    }
  }

  lemma AfterWakeUp(s: State, t: int)
    requires s.mutex == Nobody && t in s.phase && s.phase[t].Waiting? && s.phase[t].gen < s.serial
    ensures Run(s, WakeUp(t)) ==
              s.(mutex := Held(t), phase := s.phase[t := Leaving(s.phase[t].gen, false, if s.error then -1 else 0)])
  {
    var steps := WakeUp(t);
    assert steps[..0] == [] && steps[..1] == [] + [steps[0]] && steps == steps[..1] + [steps[1]];
    RunNext(s, [], steps[0]);
    RunNext(s, steps[..1], steps[1]);
    var s1 := Apply(s, Wake(t));
    assert s1.phase == s.phase[t := Checking(s.phase[t].gen)];
  }

  /** The input: two threads meet and the callback fails; two others meet and the callback succeeds. A thread of the
      second generation returns -1 although nothing of its own generation failed. */
  lemma LaterGenerationFails()
    ensures var s := Run(Init(2).barrier, TwoArrive(1, 2, 1) + TwoArrive(3, 4, 0) + WakeUp(3));
      |s.gens| == 3 && 3 in s.phase && s.phase[3] == Leaving(1, false, -1) && s.gens[1] == Generation(2, 1, 1, false)
  {
    var s0 := Init(2).barrier;
    TwoPairs(1, 0);
    hide Apply, Run, Inv;
    RunConcat(s0, TwoArrive(1, 2, 1) + TwoArrive(3, 4, 0), WakeUp(3));
    AfterWakeUp(Run(s0, TwoArrive(1, 2, 1) + TwoArrive(3, 4, 0)), 3);
  }

  /** The other way round: the first generation succeeds and the second fails before a thread of the first has left. */
  lemma LateLeaverFails()
    ensures var s := Run(Init(2).barrier, TwoArrive(1, 2, 0) + TwoArrive(3, 4, 1) + WakeUp(1));
      |s.gens| == 3 && 1 in s.phase && s.phase[1] == Leaving(0, false, -1) && s.gens[0] == Generation(2, 1, 1, false)
  {
    var s0 := Init(2).barrier;
    TwoPairs(0, 1);
    hide Apply, Run, Inv;
    RunConcat(s0, TwoArrive(1, 2, 0) + TwoArrive(3, 4, 1), WakeUp(1));
    AfterWakeUp(Run(s0, TwoArrive(1, 2, 0) + TwoArrive(3, 4, 1)), 1);
  }

  /** Threads 1 and 2 meet, then 3 and 4; threads 1 and 3 have not woken up yet. */
  lemma TwoPairs(r0: int, r1: int)
    ensures Run(Init(2).barrier, TwoArrive(1, 2, r0) + TwoArrive(3, 4, r1)) ==
      State(2, 2, 2, r0 != 0 || r1 != 0, Nobody, map[1 := Waiting(0), 3 := Waiting(1)],
            [Generation(2, 1, 1, r0 != 0), Generation(2, 1, 1, r1 != 0), Generation(0, 0, 0, false)])
  {
    var s0 := Init(2).barrier;
    AfterTwo(s0, 1, 2, r0);
    var s1 := Run(s0, TwoArrive(1, 2, r0));
    hide Apply, Run, Inv;
    assert s0.gens[..0] == [] && s1.gens == [Generation(2, 1, 1, r0 != 0), Generation(0, 0, 0, false)];
    AfterTwo(s1, 3, 4, r1);
    RunConcat(s0, TwoArrive(1, 2, r0), TwoArrive(3, 4, r1));
    assert s1.gens[..1] == [Generation(2, 1, 1, r0 != 0)];
    assert map[][1 := Waiting(0)][3 := Waiting(1)] == map[1 := Waiting(0), 3 := Waiting(1)];
  }

  /** A waiting thread whose generation is over can always leave: it wakes up, finds the serial changed and returns. */
  lemma CanLeave(s: State, t: int)
    requires Inv(s) && s.mutex == Nobody && t in s.phase && s.phase[t].Waiting? && s.phase[t].gen < s.serial
    ensures var s' := Apply(Apply(Apply(s, Wake(t)), Check(t)), Unlock(t)); t !in s'.phase && s'.mutex == Nobody
  {
    var s1 := Apply(s, Wake(t));
    assert s1.phase[t] == Checking(s.phase[t].gen);
    var s2 := Apply(s1, Check(t));
    assert s2.phase[t].Leaving?;
  }
}
