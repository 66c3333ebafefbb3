/** How the views of a cube are dealt to the tasks: from the largest down, to task 0 up to the last task and back
    again. */
module Schedule {
  import opened HeapSort
  import opened SeqEdit
  import opened Tuples
  import opened CubeGroups

  const MAX_NUMBER_OF_TASKS: int := 256

  /** The place within a round of dealing, and whether the round runs downwards. */
  datatype Round = Round(at: nat, odd: bool)

  ghost function After(k: nat, nTasks: nat): Round {
    if k == 0 then Round(0, false)
    else
      var r := After(k - 1, nTasks);
      if r.at + 1 >= nTasks then Round(0, !r.odd) else Round(r.at + 1, r.odd)
  }

  lemma {:induction false} AfterBelow(k: nat, nTasks: nat)
    requires nTasks > 0
    ensures After(k, nTasks).at < nTasks
  {
    if k > 0 { AfterBelow(k - 1, nTasks); }
  }

  /** The task that is dealt to. */
  ghost function Turn(k: nat, nTasks: nat): int {
    var r := After(k, nTasks);
    if r.odd then nTasks - 1 - r.at else r.at
  }

  /** Up to the last task and back again: in every double round each task has its turn once on the way up and once on
      the way down. */
  lemma Serpentine(r: nat, j: nat, nTasks: nat)
    requires j < nTasks
    ensures Turn(2 * r * nTasks + j, nTasks) == j && Turn(2 * r * nTasks + 2 * nTasks - 1 - j, nTasks) == j
  {
    AfterIs(2 * r, j, nTasks);
    AfterIs(2 * r + 1, nTasks - 1 - j, nTasks);
    assert (2 * r + 1) * nTasks == 2 * r * nTasks + nTasks;
  }

  lemma {:induction false} AfterIs(q: nat, j: nat, nTasks: nat)
    requires j < nTasks
    ensures After(q * nTasks + j, nTasks) == Round(j, q % 2 == 1)
    decreases q, j
  {
    if j > 0 {
      AfterIs(q, j - 1, nTasks);
    } else if q > 0 {
      AfterIs(q - 1, nTasks - 1, nTasks);
      assert q * nTasks == (q - 1) * nTasks + nTasks;
    }
  }

  /** What one task is dealt when the views are dealt in this order. */
  ghost function Hand<T>(views: seq<T>, nTasks: nat, p: int): seq<T> {
    if views == [] then []
    else
      var n := |views| - 1;
      Hand(views[..n], nTasks, p) + if Turn(n, nTasks) == p then [views[n]] else []
  }

  lemma HandNext<T>(views: seq<T>, v: T, nTasks: nat, p: int)
    ensures Hand(views + [v], nTasks, p) == Hand(views, nTasks, p) + if Turn(|views|, nTasks) == p then [v] else []
  {
    assert (views + [v])[..|views|] == views;
  }

  ghost function Total(hand: seq<Keyed>): nat {
    if hand == [] then 0 else Total(hand[..|hand| - 1]) + hand[|hand| - 1].key
  }

  lemma TotalNext(hand: seq<Keyed>, v: Keyed)
    ensures Total(hand + [v]) == Total(hand) + v.key
  {
    assert (hand + [v])[..|hand|] == hand;
  }

  // ---- Each view to exactly one task ---------------------------------------------------------------------------

  /** All cards in the hands of the first n tasks. */
  ghost function Hands(views: seq<Keyed>, nTasks: nat, n: nat): multiset<Keyed> {
    if n == 0 then multiset{} else Hands(views, nTasks, n - 1) + multiset(Hand(views, nTasks, n - 1))
  }

  lemma {:induction false} HandsNext(views: seq<Keyed>, v: Keyed, nTasks: nat, n: nat)
    ensures Hands(views + [v], nTasks, n) == Hands(views, nTasks, n) + OneIf(0 <= Turn(|views|, nTasks) < n, v)
  {
    hide Hands, Turn, OneIf;
    if n == 0 {
      HandsNone(views, nTasks);
      HandsNone(views + [v], nTasks);
      NoneIf(v);
    } else {
      HandsNext(views, v, nTasks, n - 1);
      HandsNextStep(views, v, views + [v], nTasks, n, Turn(|views|, nTasks));
    }
  }

  lemma HandsNextStep(views: seq<Keyed>, v: Keyed, views': seq<Keyed>, nTasks: nat, n: nat, turn: int)
    requires n > 0 && views' == views + [v] && turn == Turn(|views|, nTasks)
    requires Hands(views', nTasks, n - 1) == Hands(views, nTasks, n - 1) + OneIf(0 <= turn < n - 1, v)
    ensures Hands(views', nTasks, n) == Hands(views, nTasks, n) + OneIf(0 <= turn < n, v)
  {
    hide Turn, Hand, Hands, OneIf;
    HandNext(views, v, nTasks, n - 1);
    HandsSplit(views, nTasks, n);
    HandsSplit(views', nTasks, n);
    AddCard(Hands(views, nTasks, n - 1), Hand(views, nTasks, n - 1), Hands(views', nTasks, n - 1),
        Hand(views', nTasks, n - 1), 0 <= turn < n - 1, turn == n - 1, v);
  }

  lemma HandsNone(views: seq<Keyed>, nTasks: nat)
    ensures Hands(views, nTasks, 0) == multiset{}
  {
  }

  lemma HandsSplit(views: seq<Keyed>, nTasks: nat, n: nat)
    requires n > 0
    ensures Hands(views, nTasks, n) == Hands(views, nTasks, n - 1) + multiset(Hand(views, nTasks, n - 1))
  {
  }

  ghost function OneIf<T>(b: bool, v: T): multiset<T> { if b then multiset{v} else multiset{} }

  lemma NoneIf<T>(v: T)
    ensures OneIf(false, v) == multiset{}
  {
  }

  lemma AddCard<T>(m: multiset<T>, h: seq<T>, m': multiset<T>, h': seq<T>, below: bool, here: bool, v: T)
    requires m' == m + OneIf(below, v) && h' == (h + if here then [v] else []) && !(below && here)
    ensures m' + multiset(h') == m + multiset(h) + OneIf(below || here, v)
  {
    if here { assert multiset(h + [v]) == multiset(h) + multiset{v}; } else { assert h + [] == h; }
  }

  lemma {:induction false} NoHands(nTasks: nat, n: nat)
    ensures Hands([], nTasks, n) == multiset{}
  {
    if n > 0 { NoHands(nTasks, n - 1); }
  }

  /** Together the tasks have every view exactly once. */
  lemma {:induction false} DealtOnce(views: seq<Keyed>, nTasks: nat)
    requires nTasks > 0
    ensures Hands(views, nTasks, nTasks) == multiset(views)
  {
    if views == [] {
      NoHands(nTasks, nTasks);
    } else {
      hide Hands, After;
      var n := |views| - 1;
      var init, v := views[..n], views[n];
      assert views == init + [v];
      DealtOnce(init, nTasks);
      HandsNext(init, v, nTasks, nTasks);
      AfterBelow(n, nTasks);
      assert multiset(init + [v]) == multiset(init) + multiset{v};
    }
  }

  // ---- Fair shares -----------------------------------------------------------------------------------------------

  /** Whether the task has already been dealt to in the current round. */
  ghost predicate Served(k: nat, nTasks: nat, p: int) {
    var r := After(k, nTasks);
    (if r.odd then nTasks - 1 - p else p) < r.at
  }

  ghost function Rounds(k: nat, nTasks: nat): nat {
    if k == 0 then 0 else Rounds(k - 1, nTasks) + if After(k, nTasks).at == 0 then 1 else 0
  }

  /** Every task has one view per finished round and one more if it was already served in the current one. */
  lemma {:induction false} HandSize(views: seq<Keyed>, nTasks: nat, p: int)
    requires 0 <= p < nTasks
    ensures |Hand(views, nTasks, p)| == Rounds(|views|, nTasks) + if Served(|views|, nTasks, p) then 1 else 0
  {
    if views != [] {
      var n := |views| - 1;
      HandSize(views[..n], nTasks, p);
      AfterBelow(n, nTasks);
    }
  }

  lemma CountsFair(views: seq<Keyed>, nTasks: nat, p: int, q: int)
    requires 0 <= p < nTasks && 0 <= q < nTasks
    ensures |Hand(views, nTasks, p)| <= |Hand(views, nTasks, q)| + 1
  {
    HandSize(views, nTasks, p);
    HandSize(views, nTasks, q);
  }

  ghost predicate Descending(views: seq<Keyed>) {
    forall i, j :: 0 <= i < j < |views| ==> views[i].key >= views[j].key
  }

  /** The difference of two totals, bounded by the largest view and the next one. When one of the two has been served in
      the round and the other has not, the other will get a view that is no larger. */
  ghost predicate Gap(d: int, sp: bool, sq: bool, largest: int, next: int) {
    if sp == sq then next - largest <= d <= largest - next
    else if sp then 2 * next - largest <= d <= largest
    else -largest <= d <= largest - 2 * next
  }

  lemma GapStep(d: int, sp: bool, sq: bool, sp': bool, sq': bool, d': int, largest: int, next: int, next': int, p: bool,
      q: bool)
    requires Gap(d, sp, sq, largest, next) && 0 <= next' <= next <= largest && !(p && q) && (p ==> !sp) && (q ==> !sq)
    requires d' == d + (if p then next else 0) - (if q then next else 0)
    requires (sp' == (sp || p) && sq' == (sq || q)) || (!sp' && !sq' && (sp || p) && (sq || q))
    ensures Gap(d', sp', sq', largest, next')
  {
  }

  ghost function KeyAt(views: seq<Keyed>, k: nat): nat {
    if k < |views| then views[k].key else 0
  }

  lemma ServedNext(k: nat, nTasks: nat, p: int)
    requires 0 <= p < nTasks
    ensures Turn(k, nTasks) == p ==> !Served(k, nTasks, p)
    ensures if After(k + 1, nTasks).at == 0 then !Served(k + 1, nTasks, p) &&
            (Served(k, nTasks, p) || Turn(k, nTasks) == p)
            else Served(k + 1, nTasks, p) == (Served(k, nTasks, p) || Turn(k, nTasks) == p)
  {
    AfterBelow(k, nTasks);
  }

  ghost predicate GapOk(views: seq<Keyed>, k: nat, nTasks: nat, p: int, q: int)
    requires k <= |views|
  {
    Gap(Total(Hand(views[..k], nTasks, p)) - Total(Hand(views[..k], nTasks, q)), Served(k, nTasks, p),
        Served(k, nTasks, q), KeyAt(views, 0), KeyAt(views, k))
  }

  lemma {:induction false} GapAt(views: seq<Keyed>, k: nat, nTasks: nat, p: int, q: int)
    requires Descending(views) && k <= |views| && 0 <= p < nTasks && 0 <= q < nTasks && p != q
    ensures GapOk(views, k, nTasks, p, q)
  {
    if k > 0 {
      hide GapOk;
      GapAt(views, k - 1, nTasks, p, q);
      GapNext(views, k - 1, nTasks, p, q);
    } else {
      assert views[..0] == [];
    }
  }

  lemma GapNext(views: seq<Keyed>, k: nat, nTasks: nat, p: int, q: int)
    requires Descending(views) && k < |views| && 0 <= p < nTasks && 0 <= q < nTasks && p != q &&
             GapOk(views, k, nTasks, p, q)
    ensures GapOk(views, k + 1, nTasks, p, q)
  {
    var next, next', largest := KeyAt(views, k), KeyAt(views, k + 1), KeyAt(views, 0);
    assert 0 <= next' <= next <= largest;
    hide Hand, Total, Served, Gap, After, Turn, KeyAt, Descending;
    HandTotalNext(views, k, nTasks, p);
    HandTotalNext(views, k, nTasks, q);
    ServedNext(k, nTasks, p);
    ServedNext(k, nTasks, q);
    var d, d' := Total(Hand(views[..k], nTasks, p)) - Total(Hand(views[..k], nTasks, q)),
        Total(Hand(views[..k + 1], nTasks, p)) - Total(Hand(views[..k + 1], nTasks, q));
    GapStep(d, Served(k, nTasks, p), Served(k, nTasks, q), Served(k + 1, nTasks, p), Served(k + 1, nTasks, q), d',
        largest, next, next', Turn(k, nTasks) == p, Turn(k, nTasks) == q);
  }

  lemma HandTotalNext(views: seq<Keyed>, k: nat, nTasks: nat, p: int)
    requires k < |views|
    ensures Total(Hand(views[..k + 1], nTasks, p)) ==
              Total(Hand(views[..k], nTasks, p)) + if Turn(k, nTasks) == p then KeyAt(views, k) else 0
  {
    hide Hand, Total, Turn;
    assert views[..k + 1] == views[..k] + [views[k]];
    HandNext(views[..k], views[k], nTasks, p);
    TotalNext(Hand(views[..k], nTasks, p), views[k]);
    assert Hand(views[..k], nTasks, p) + [] == Hand(views[..k], nTasks, p);
  }

  /** The totals of any two tasks differ by at most the largest view. */
  lemma TotalsFair(views: seq<Keyed>, nTasks: nat, p: int, q: int)
    requires Descending(views) && views != [] && 0 <= p < nTasks && 0 <= q < nTasks
    ensures Total(Hand(views, nTasks, p)) - Total(Hand(views, nTasks, q)) <= views[0].key
  {
    if p != q {
      GapAt(views, |views|, nTasks, p, q);
      assert views[..|views|] == views;
    }
  }

  // ---- Dealing ------------------------------------------------------------------------------------------------------

  ghost function Backwards(s: seq<Keyed>): (r: seq<Keyed>)
    ensures |r| == |s| && forall i :: 0 <= i < |s| ==> r[i] == s[|s| - 1 - i]
  {
    seq(|s|, i requires 0 <= i < |s| => s[|s| - 1 - i])
  }

  ghost function TuplesOf(s: seq<Keyed>): (r: seq<bv64>)
    ensures |r| == |s| && forall i :: 0 <= i < |s| ==> r[i] == s[i].tuple
  {
    seq(|s|, i requires 0 <= i < |s| => s[i].tuple)
  }

  lemma TuplesNext(s: seq<Keyed>, v: Keyed)
    ensures TuplesOf(s + [v]) == TuplesOf(s) + [v.tuple]
  {
  }

  /** The dealing loop as one task runs it: it keeps its own tuples, and counts for all tasks. */
  method Deal(tuplesAndSizes: seq<Keyed>, nTasks: nat, taskNumber: nat)
    returns (gbuf: seq<bv64>, nGroupbys: seq<nat>, vszs: seq<nat>)
    requires 0 < nTasks <= MAX_NUMBER_OF_TASKS && taskNumber < nTasks
    ensures gbuf == TuplesOf(Hand(Backwards(tuplesAndSizes), nTasks, taskNumber)) && |nGroupbys| == |vszs| == nTasks
    ensures forall p :: 0 <= p < nTasks ==> nGroupbys[p] == |Hand(Backwards(tuplesAndSizes), nTasks, p)|
    ensures forall p :: 0 <= p < nTasks ==> vszs[p] == Total(Hand(Backwards(tuplesAndSizes), nTasks, p))
  {
    hide Hand, Total, After;
    ghost var views := Backwards(tuplesAndSizes);
    gbuf, nGroupbys, vszs := [], seq(nTasks, _ => 0), seq(nTasks, _ => 0);
    var pn, direction := 0, 0;
    var ii := |tuplesAndSizes| - 1;
    ghost var k := 0;
    DealStarts(views[..0], nTasks);
    while ii >= 0
      invariant -1 <= ii < |tuplesAndSizes| && k == |tuplesAndSizes| - 1 - ii && pn == Turn(k, nTasks) &&
                0 <= pn < nTasks
      invariant nTasks > 1 ==> direction == if After(k, nTasks).odd then 1 else 0
      invariant nTasks == 1 ==> direction == 0
      invariant gbuf == TuplesOf(Hand(views[..k], nTasks, taskNumber)) && |nGroupbys| == |vszs| == nTasks
      invariant forall p ::
                  0 <= p < nTasks ==>
                    nGroupbys[p] == |Hand(views[..k], nTasks, p)| && vszs[p] == Total(Hand(views[..k], nTasks, p))
    {
      var v := tuplesAndSizes[ii];
      DealNext(views, k, v, nTasks, taskNumber, gbuf, nGroupbys, vszs, pn);
      if pn == taskNumber { gbuf := gbuf + [v.tuple]; }
      nGroupbys := nGroupbys[pn := nGroupbys[pn] + 1];
      vszs := vszs[pn := vszs[pn] + v.key];
      TurnNext(k, nTasks);
      var dChange := false;
      if direction == 0 && pn == nTasks - 1 { direction, dChange := 1, true; }
      if direction == 1 && pn == 0 { direction, dChange := 0, true; }
      if !dChange { if direction == 1 { pn := pn - 1; } else { pn := pn + 1; } }
      ii := ii - 1;
      k := k + 1;
    }
    assert views[..k] == views;
  }

  lemma DealStarts(none: seq<Keyed>, nTasks: nat)
    requires none == [] && nTasks > 0
    ensures Turn(0, nTasks) == 0 && !After(0, nTasks).odd &&
            forall p {:trigger Hand(none, nTasks, p)} ::
              Hand(none, nTasks, p) == [] && Total(Hand(none, nTasks, p)) == 0
  {
  }

  lemma TurnNext(k: nat, nTasks: nat)
    requires nTasks > 0
    ensures 0 <= Turn(k, nTasks) < nTasks
    ensures var r, r' := After(k, nTasks), After(k + 1, nTasks);
      var pn, pn' := Turn(k, nTasks), Turn(k + 1, nTasks);
      if !r.odd && pn == nTasks - 1 then r'.odd && pn' == pn
      else if r.odd && pn == 0 then !r'.odd && pn' == pn
      else r'.odd == r.odd && pn' == if r.odd then pn - 1 else pn + 1
  {
    AfterBelow(k, nTasks);
  }

  /** One more view dealt: it joins one hand and leaves the others alone. */
  lemma DealNext(views: seq<Keyed>, k: nat, v: Keyed, nTasks: nat, me: int, gbuf: seq<bv64>, counts: seq<nat>,
      totals: seq<nat>, pn: int)
    requires k < |views| && views[k] == v && pn == Turn(k, nTasks) && 0 <= pn < nTasks == |counts| == |totals|
    requires gbuf == TuplesOf(Hand(views[..k], nTasks, me))
    requires forall p ::
               0 <= p < nTasks ==>
                 counts[p] == |Hand(views[..k], nTasks, p)| && totals[p] == Total(Hand(views[..k], nTasks, p))
    ensures TuplesOf(Hand(views[..k + 1], nTasks, me)) == gbuf + if pn == me then [v.tuple] else []
    ensures forall p :: 0 <= p < nTasks ==> |Hand(views[..k + 1], nTasks, p)| == counts[p] + (if p == pn then 1 else 0)
    ensures forall p ::
              0 <= p < nTasks ==> Total(Hand(views[..k + 1], nTasks, p)) == totals[p] + if p == pn then v.key else 0
  {
    hide Hand, Total, Turn;
    assert views[..k + 1] == views[..k] + [v];
    forall p | 0 <= p < nTasks
      ensures |Hand(views[..k + 1], nTasks, p)| == counts[p] + (if p == pn then 1 else 0) &&
              Total(Hand(views[..k + 1], nTasks, p)) == totals[p] + if p == pn then v.key else 0
    {
      HandNext(views[..k], v, nTasks, p);
      HandTotalNext(views, k, nTasks, p);
    }
    HandNext(views[..k], v, nTasks, me);
    TuplesNext(Hand(views[..k], nTasks, me), v);
    assert Hand(views[..k], nTasks, me) + [] == Hand(views[..k], nTasks, me) && gbuf + [] == gbuf;
  }

  // ---- The list of one task ---------------------------------------------------------------------

  /** The tuples as they are written: moved back to the top of the word. */
  ghost function Raised(s: seq<Keyed>, nd: nat): (r: seq<bv64>)
    requires nd <= 64
    ensures |r| == |s| && forall i :: 0 <= i < |s| ==> r[i] == Shl64(s[i].tuple, 64 - nd)
  {
    seq(|s|, i requires 0 <= i < |s| => Shl64(s[i].tuple, 64 - nd))
  }

  /** The pairs with their tuples moved to the bottom of the word. */
  function Lowered(s: seq<Keyed>, nd: nat): (r: seq<Keyed>)
    requires nd <= 64
    ensures |r| == |s| && forall i :: 0 <= i < |s| ==> r[i] == Keyed(s[i].key, Shr64(s[i].tuple, 64 - nd))
  {
    seq(|s|, i requires 0 <= i < |s| => Keyed(s[i].key, Shr64(s[i].tuple, 64 - nd)))
  }

  ghost predicate MostFirst(ws: seq<bv64>, nd: nat) {
    forall i, j :: 0 <= i < j < |ws| ==> Count(Tuple64(ws[i], nd)) >= Count(Tuple64(ws[j], nd))
  }

  /** MultiFileProcJobs: the task's tuples, those with the most dimensions first. */
  method MultiFileProcJobs(tuplesAndSizes: seq<Keyed>, nTasks: nat, taskNumber: nat, nTopDims: nat)
    returns (groupbyFile: seq<bv64>)
    requires 0 < nTasks <= MAX_NUMBER_OF_TASKS && taskNumber < nTasks && nTopDims <= 64
    ensures multiset(groupbyFile) == multiset(Raised(Hand(Backwards(tuplesAndSizes), nTasks, taskNumber), nTopDims))
    ensures MostFirst(groupbyFile, nTopDims)
  {
    hide Hand, Total, SortedFrom, HeapSorted, Count, RightTuple, Shl64, MostFirst;
    var gbuf, nGroupbys, vszs := Deal(tuplesAndSizes, nTasks, taskNumber);
    var n := |gbuf|;
    var toptr := new Keyed[n];
    for j := 0 to n
      invariant forall i :: 0 <= i < j ==> toptr[i] == Keyed(Count(RightTuple(gbuf[i], nTopDims)), gbuf[i])
    {
      var nOnes := CountTupleOnes(gbuf[j], nTopDims);
      toptr[j] := Keyed(nOnes, gbuf[j]);
    }
    ghost var before := toptr[..];
    Sort(toptr, n);
    ghost var sorted := toptr[..];
    groupbyFile := [];
    for j := 0 to n
      invariant |groupbyFile| == j &&
                forall i :: 0 <= i < j ==> groupbyFile[i] == Shl64(sorted[n - 1 - i].tuple, 64 - nTopDims)
    {
      groupbyFile := groupbyFile + [Shl64(toptr[n - 1 - j].tuple, 64 - nTopDims)];
    }
    WrittenList(Hand(Backwards(tuplesAndSizes), nTasks, taskNumber), before, sorted, groupbyFile, nTopDims);
  }

  ghost predicate Counted(v: Keyed, nd: nat)
    requires nd <= 64
  {
    v.key == Count(RightTuple(v.tuple, nd))
  }

  /** Keys stay with their tuples. */
  lemma KeyedKept(before: seq<Keyed>, sorted: seq<Keyed>, nd: nat)
    requires nd <= 64 && multiset(before) == multiset(sorted) &&
             forall i :: 0 <= i < |before| ==> Counted(before[i], nd)
    ensures forall i :: 0 <= i < |sorted| ==> Counted(sorted[i], nd)
  {
    hide Counted;
    forall i | 0 <= i < |sorted| ensures Counted(sorted[i], nd) {
      assert sorted[i] in multiset(sorted);
      var k := FindIn(before, sorted[i]);
    }
  }

  lemma WrittenList(hand: seq<Keyed>, before: seq<Keyed>, sorted: seq<Keyed>, file: seq<bv64>, nd: nat)
    requires nd <= 64 && |before| == |hand| == |sorted| == |file| && multiset(before) == multiset(sorted) &&
             SortedFrom(sorted, 0)
    requires forall i :: 0 <= i < |hand| ==> before[i] == Keyed(Count(RightTuple(hand[i].tuple, nd)), hand[i].tuple)
    requires forall i :: 0 <= i < |file| ==> file[i] == Shl64(sorted[|sorted| - 1 - i].tuple, 64 - nd)
    ensures multiset(file) == multiset(Raised(hand, nd)) && MostFirst(file, nd)
  {
    hide Count, RightTuple, Shl64;
    KeyedKept(before, sorted, nd);
    var back := Backwards(sorted);
    BackwardsPermutes(sorted);
    assert file == Raised(back, nd) && Raised(hand, nd) == Raised(before, nd);
    RaisedPermutes(back, before, nd);
    forall i | 0 <= i < |file| ensures Count(Tuple64(file[i], nd)) == back[i].key {
      assert Counted(sorted[|sorted| - 1 - i], nd);
      RightIsLeft(back[i].tuple, nd);
    }
  }

  lemma {:induction false} BackwardsPermutes(s: seq<Keyed>)
    ensures multiset(Backwards(s)) == multiset(s)
  {
    if s != [] {
      var n := |s| - 1;
      BackwardsPermutes(s[..n]);
      assert Backwards(s) == [s[n]] + Backwards(s[..n]);
      assert s == s[..n] + [s[n]];
    }
  }

  lemma {:induction false} RaisedPermutes(a: seq<Keyed>, b: seq<Keyed>, nd: nat)
    requires nd <= 64 && multiset(a) == multiset(b)
    ensures multiset(Raised(a, nd)) == multiset(Raised(b, nd))
    decreases |a|
  {
    hide Shl64;
    if a == [] {
      EmptyPermutation(a, b);
    } else {
      var n := |a| - 1;
      var k := FindLast(a, b);
      RaisedPermutes(a[..n], RemoveAt(b, k), nd);
      RaisedInserted(a[..n], n, a[n], nd);
      assert InsertAt(a[..n], n, a[n]) == a;
      RaisedInserted(RemoveAt(b, k), k, b[k], nd);
    }
  }

  lemma RaisedInserted(s: seq<Keyed>, k: nat, v: Keyed, nd: nat)
    requires k <= |s| && nd <= 64
    ensures multiset(Raised(InsertAt(s, k, v), nd)) == multiset(Raised(s, nd)) + multiset{Shl64(v.tuple, 64 - nd)}
  {
    hide Shl64;
    var t, w := Raised(s, nd), Shl64(v.tuple, 64 - nd);
    assert Raised(InsertAt(s, k, v), nd) == InsertAt(t, k, w);
    RemoveOne(InsertAt(t, k, w), k);
    assert RemoveAt(InsertAt(t, k, w), k) == t;
  }

  /** In a list with the most dimensions first, no later tuple properly contains an earlier one. */
  lemma SupersetsFirst(ws: seq<bv64>, nd: nat, i: nat, j: nat)
    requires MostFirst(ws, nd) && i < j < |ws| && Subset(Tuple64(ws[i], nd), Tuple64(ws[j], nd))
    ensures Tuple64(ws[i], nd) == Tuple64(ws[j], nd)
  {
    SubsetCount(Tuple64(ws[i], nd), Tuple64(ws[j], nd));
  }

  // ---- From the view sizes to the list ----------------------------------------------------------

  /** An entry of the size file: the columns of a view and its size. */
  datatype ViewSize = ViewSize(selection: seq<int>, size: nat)

  /** The pair made of an entry; no view is counted larger than the input. */
  function KeyedView(v: ViewSize, nInputRecs: nat): (r: Keyed)
    ensures r.key <= v.size && r.key <= nInputRecs && (r.key == v.size || r.key == nInputRecs)
  {
    Keyed(if v.size > nInputRecs then nInputRecs else v.size, BinTuple(v.selection))
  }

  ghost function KeyedViews(sizes: seq<ViewSize>, nInputRecs: nat): (r: seq<Keyed>)
    ensures |r| == |sizes| && forall i :: 0 <= i < |sizes| ==> r[i] == KeyedView(sizes[i], nInputRecs)
  {
    seq(|sizes|, i requires 0 <= i < |sizes| => KeyedView(sizes[i], nInputRecs))
  }

  /** The order in which the views are dealt: the largest first. */
  ghost function DealingOrder(sizes: seq<ViewSize>, nInputRecs: nat): (r: seq<Keyed>)
    ensures Descending(r) && multiset(r) == multiset(KeyedViews(sizes, nInputRecs))
  {
    SortedViews(KeyedViews(sizes, nInputRecs));
    Backwards(HeapSorted(KeyedViews(sizes, nInputRecs)))
  }

  lemma SortedViews(views: seq<Keyed>)
    ensures Descending(Backwards(HeapSorted(views))) && multiset(Backwards(HeapSorted(views))) == multiset(views)
  {
    HeapSortedIs(views);
    BackwardsPermutes(HeapSorted(views));
  }

  // ---- The order of dealing by size ---------------------------------------------------------------

  /** The smaller of the view's size and the input's. */
  ghost function SizeCounted(v: ViewSize, nInputRecs: nat): (r: nat)
    ensures r <= v.size && r <= nInputRecs && (r == v.size || r == nInputRecs)
  {
    if v.size <= nInputRecs then v.size else nInputRecs
  }

  ghost predicate FallingSizes(sizes: seq<ViewSize>, nInputRecs: nat, order: seq<nat>)
    requires Positions(order, |sizes|)
  {
    forall k, l :: 0 <= k < l < |order| ==>
      SizeCounted(sizes[order[k]], nInputRecs) >= SizeCounted(sizes[order[l]], nInputRecs)
  }

  ghost function CountedTotal(sizes: seq<ViewSize>, nInputRecs: nat, entries: seq<nat>): nat
    requires Positions(entries, |sizes|)
  {
    if entries == [] then 0
    else
      var n := |entries| - 1;
      CountedTotal(sizes, nInputRecs, entries[..n]) + SizeCounted(sizes[entries[n]], nInputRecs)
  }

  /** The entries of the size file that a task gets when they are dealt in this order. */
  ghost function Entries(order: seq<nat>, nTasks: nat, p: int): seq<nat> { Hand<nat>(order, nTasks, p) }

  /** A hand dealt from views in some order is dealt from their positions in the same order. */
  lemma {:induction false} HandAt(views: seq<Keyed>, order: seq<nat>, nTasks: nat, p: int)
    requires Positions(order, |views|)
    ensures Positions(Entries(order, nTasks, p), |views|)
    ensures Hand(ElementsAt(views, order), nTasks, p) == ElementsAt(views, Entries(order, nTasks, p))
  {
    if order != [] {
      hide Turn;
      var n := |order| - 1;
      HandAt(views, order[..n], nTasks, p);
      assert ElementsAt(views, order)[..n] == ElementsAt(views, order[..n]);
    }
  }

  lemma KeyCounted(v: ViewSize, nInputRecs: nat)
    ensures KeyedView(v, nInputRecs).key == SizeCounted(v, nInputRecs)
  {
  }

  lemma {:induction false} TotalCounted(sizes: seq<ViewSize>, nInputRecs: nat, entries: seq<nat>)
    requires Positions(entries, |sizes|)
    ensures Total(ElementsAt(KeyedViews(sizes, nInputRecs), entries)) == CountedTotal(sizes, nInputRecs, entries)
  {
    if entries != [] {
      hide KeyedView, SizeCounted;
      var n := |entries| - 1;
      KeyCounted(sizes[entries[n]], nInputRecs);
      TotalCounted(sizes, nInputRecs, entries[..n]);
      assert ElementsAt(KeyedViews(sizes, nInputRecs), entries)[..n] ==
               ElementsAt(KeyedViews(sizes, nInputRecs), entries[..n]);
    }
  }

  /** Task p is dealt its entries of the order, in that order. */
  ghost predicate DealtFrom(sizes: seq<ViewSize>, nInputRecs: nat, nTasks: nat, order: seq<nat>, p: int) {
    Positions(Entries(order, nTasks, p), |sizes|) &&
    Hand(DealingOrder(sizes, nInputRecs), nTasks, p) ==
      ElementsAt(KeyedViews(sizes, nInputRecs), Entries(order, nTasks, p))
  }

  /** The total of task p exceeds that of task q by no more than the first view's size. */
  ghost predicate TotalsClose(sizes: seq<ViewSize>, nInputRecs: nat, nTasks: nat, order: seq<nat>, p: int, q: int) {
    order != [] && order[0] < |sizes| &&
    Positions(Entries(order, nTasks, p), |sizes|) && Positions(Entries(order, nTasks, q), |sizes|) &&
    CountedTotal(sizes, nInputRecs, Entries(order, nTasks, p)) <=
      CountedTotal(sizes, nInputRecs, Entries(order, nTasks, q)) + SizeCounted(sizes[order[0]], nInputRecs)
  }

  lemma DealtFromOrder(sizes: seq<ViewSize>, nInputRecs: nat, nTasks: nat, order: seq<nat>, p: int)
    requires Positions(order, |sizes|) &&
             ElementsAt(KeyedViews(sizes, nInputRecs), order) == DealingOrder(sizes, nInputRecs)
    ensures DealtFrom(sizes, nInputRecs, nTasks, order, p)
    ensures Total(Hand(DealingOrder(sizes, nInputRecs), nTasks, p)) ==
              CountedTotal(sizes, nInputRecs, Entries(order, nTasks, p))
  {
    hide Hand, Entries, KeyedViews, DealingOrder, Total, CountedTotal, Positions;
    HandAt(KeyedViews(sizes, nInputRecs), order, nTasks, p);
    TotalCounted(sizes, nInputRecs, Entries(order, nTasks, p));
  }

  /** The entries of the size file can be put into an order along which the smaller of a view's size and the input's
      falls, so that in each turn the next entry is dealt, and the totals of these sizes of any two tasks differ by at
      most the largest. */
  lemma DealtBySize(sizes: seq<ViewSize>, nInputRecs: nat, nTasks: nat) returns (order: seq<nat>)
    ensures Arranges(order, |sizes|) && FallingSizes(sizes, nInputRecs, order)
    ensures forall p :: DealtFrom(sizes, nInputRecs, nTasks, order, p)
    ensures forall p, q :: 0 <= p < nTasks && 0 <= q < nTasks && sizes != [] ==>
      TotalsClose(sizes, nInputRecs, nTasks, order, p, q)
  {
    hide Hand, Entries, DealingOrder, Total, CountedTotal;
    var dealt := DealingOrder(sizes, nInputRecs);
    order := Arrangement(dealt, KeyedViews(sizes, nInputRecs));
    forall p ensures DealtFrom(sizes, nInputRecs, nTasks, order, p) {
      DealtFromOrder(sizes, nInputRecs, nTasks, order, p);
    }
    forall p, q | 0 <= p < nTasks && 0 <= q < nTasks && sizes != []
      ensures TotalsClose(sizes, nInputRecs, nTasks, order, p, q)
    {
      DealtFromOrder(sizes, nInputRecs, nTasks, order, p);
      DealtFromOrder(sizes, nInputRecs, nTasks, order, q);
      TotalsFair(dealt, nTasks, p, q);
      assert dealt[0] == KeyedViews(sizes, nInputRecs)[order[0]];
    }
  }

  method ReadViewSizes(sizes: seq<ViewSize>, nInputRecs: nat) returns (tuplesAndSizes: array<Keyed>)
    requires forall i :: 0 <= i < |sizes| ==> Columns(sizes[i].selection, 64)
    ensures fresh(tuplesAndSizes) && tuplesAndSizes[..] == KeyedViews(sizes, nInputRecs)
  {
    tuplesAndSizes := new Keyed[|sizes|](_ => Keyed(0, 0));
    for it := 0 to |sizes|
      invariant forall i :: 0 <= i < it ==> tuplesAndSizes[i] == KeyedView(sizes[i], nInputRecs)
    {
      var sz := sizes[it].size;
      var tx := CreateBinTuple(sizes[it].selection);
      if sz > nInputRecs { sz := nInputRecs; }
      tuplesAndSizes[it] := Keyed(sz, tx);
    }
  }

  /** PartitionCube: reads the view sizes, none larger than the input, sorts the views by size, moves the tuples to the
      bottom of the word, and deals. */
  method PartitionCube(sizes: seq<ViewSize>, nInputRecs: nat, nTasks: nat, taskNumber: nat, nTopDims: nat)
    returns (groupbyFile: seq<bv64>)
    requires forall i :: 0 <= i < |sizes| ==> Columns(sizes[i].selection, 64)
    requires 0 < nTasks <= MAX_NUMBER_OF_TASKS && taskNumber < nTasks && nTopDims <= 64
    ensures multiset(groupbyFile) ==
              multiset(Raised(Lowered(Hand(DealingOrder(sizes, nInputRecs), nTasks, taskNumber), nTopDims), nTopDims))
    ensures MostFirst(groupbyFile, nTopDims)
  {
    hide Hand, HeapSorted, Shl64, Shr64, MostFirst, KeyedViews;
    var tuplesAndSizes := ReadViewSizes(sizes, nInputRecs);
    Sort(tuplesAndSizes, tuplesAndSizes.Length);
    ghost var sorted := tuplesAndSizes[..];
    for i := 0 to tuplesAndSizes.Length
      invariant forall k ::
                  0 <= k < tuplesAndSizes.Length ==>
                    tuplesAndSizes[k] ==
                      if k < i then Keyed(sorted[k].key, Shr64(sorted[k].tuple, 64 - nTopDims)) else sorted[k]
    {
      tuplesAndSizes[i] := Keyed(tuplesAndSizes[i].key, Shr64(tuplesAndSizes[i].tuple, 64 - nTopDims));
    }
    assert tuplesAndSizes[..] == Lowered(sorted, nTopDims);
    groupbyFile := MultiFileProcJobs(tuplesAndSizes[..], nTasks, taskNumber, nTopDims);
    HandLowered(Backwards(sorted), nTasks, taskNumber, nTopDims);
    assert Backwards(Lowered(sorted, nTopDims)) == Lowered(Backwards(sorted), nTopDims);
  }

  lemma {:induction false} HandLowered(views: seq<Keyed>, nTasks: nat, p: int, nd: nat)
    requires nd <= 64
    ensures Hand(Lowered(views, nd), nTasks, p) == Lowered(Hand(views, nTasks, p), nd)
  {
    if views != [] {
      hide Shr64, Turn;
      var n := |views| - 1;
      HandLowered(views[..n], nTasks, p, nd);
      assert Lowered(views, nd)[..n] == Lowered(views[..n], nd);
    }
  }

  ghost function TupleList(ws: seq<bv64>, nd: nat): (r: seq<Tuple>)
    ensures |r| == |ws| && forall i :: 0 <= i < |ws| ==> r[i] == Tuple64(ws[i], nd)
  {
    seq(|ws|, i requires 0 <= i < |ws| => Tuple64(ws[i], nd))
  }

  /** The views named by the list are, up to their order, those that the task was dealt. */
  lemma ListTuples(file: seq<bv64>, hand: seq<Keyed>, nd: nat)
    requires nd <= 64 && multiset(file) == multiset(Raised(Lowered(hand, nd), nd))
    ensures multiset(TupleList(file, nd)) == multiset(TupleList(TuplesOf(hand), nd))
  {
    hide Shl64, Shr64, Tuple64;
    var raised := Raised(Lowered(hand, nd), nd);
    TupleListPermutes(file, raised, nd);
    forall i | 0 <= i < |hand|
      ensures TupleList(raised, nd)[i] == TupleList(TuplesOf(hand), nd)[i]
    {
      ThereAndBack(hand[i].tuple, nd);
    }
    assert TupleList(raised, nd) == TupleList(TuplesOf(hand), nd);
  }

  lemma {:induction false} TupleListPermutes(a: seq<bv64>, b: seq<bv64>, nd: nat)
    requires multiset(a) == multiset(b)
    ensures multiset(TupleList(a, nd)) == multiset(TupleList(b, nd))
    decreases |a|
  {
    hide Tuple64;
    if a == [] {
      EmptyPermutation(a, b);
    } else {
      var n := |a| - 1;
      var k := FindLast(a, b);
      TupleListPermutes(a[..n], RemoveAt(b, k), nd);
      TupleListInserted(a[..n], n, a[n], nd);
      assert InsertAt(a[..n], n, a[n]) == a;
      TupleListInserted(RemoveAt(b, k), k, b[k], nd);
    }
  }

  lemma TupleListInserted(s: seq<bv64>, k: nat, w: bv64, nd: nat)
    requires k <= |s|
    ensures multiset(TupleList(InsertAt(s, k, w), nd)) == multiset(TupleList(s, nd)) + multiset{Tuple64(w, nd)}
  {
    hide Tuple64;
    var t, u := TupleList(s, nd), Tuple64(w, nd);
    InsertedMultiset(t, k, u);
    assert TupleList(InsertAt(s, k, w), nd) == InsertAt(t, k, u);
  }

  lemma InsertedMultiset<T>(t: seq<T>, k: nat, u: T)
    requires k <= |t|
    ensures multiset(InsertAt(t, k, u)) == multiset(t) + multiset{u}
  {
    RemoveOne(InsertAt(t, k, u), k);
    assert RemoveAt(InsertAt(t, k, u), k) == t;
  }
}
