/** The job pool: which views have been made, and where they stand in the view file. */
module CubePool {
  import opened CubeRows
  import opened CubeGroups
  import opened RowFile
  import opened Tuples
  import opened Layers
  import opened Binomials
  import opened SeqEdit
  import opened Arith

  datatype Job = Job(grpb: bv32, nv: nat, nRows: nat, viewOffset: int)

  /** The cube's view onto the dimensions of a tuple. */
  ghost function View(t: Tuple, rows: seq<Row>, nm: nat): seq<Row>
    requires AllShaped(rows, |t|, nm)
  {
    SelectedColumns(t);
    Aggregate(Project(rows, Selected(t), |t|, nm))
  }

  /** What was made for a tuple: the offset recorded for it and the rows written. */
  datatype ViewEntry = ViewEntry(t: Tuple, offset: int, view: seq<Row>)

  ghost function TuplesMade(made: seq<ViewEntry>): (ts: seq<Tuple>)
    ensures |ts| == |made| && forall k :: 0 <= k < |made| ==> ts[k] == made[k].t
  {
    seq(|made|, k requires 0 <= k < |made| => made[k].t)
  }

  /** The place recorded for the view is in the file, which has room for the view's rows from there on. */
  ghost predicate Placed(e: ViewEntry, words: seq<int>, nm: nat) {
    e.offset >= 0 && e.offset % 4 == 0 && AllShaped(e.view, Count(e.t), nm) &&
    e.offset / 4 + |EncodeAll(e.view)| <= |words|
  }

  /** The job records the entry: its tuple, its offset and its row count. */
  ghost predicate JobOf(job: Job, e: ViewEntry, words: seq<int>, nm: nat) {
    Tuple32(job.grpb, |e.t|) == e.t && job.nv == Count(e.t) && job.viewOffset == e.offset && job.nRows == |e.view| &&
    Placed(e, words, nm)
  }

  /** The entries so far that have l dimensions, in the order in which they were made. */
  ghost function Level(made: seq<ViewEntry>, l: nat): seq<ViewEntry> {
    if made == [] then []
    else Level(made[..|made| - 1], l) + if Count(made[|made| - 1].t) == l then [made[|made| - 1]] else []
  }

  lemma LevelNext(made: seq<ViewEntry>, e: ViewEntry, l: nat)
    ensures Level(made + [e], l) == Level(made, l) + if Count(e.t) == l then [e] else []
  {
    assert (made + [e])[..|made|] == made;
  }

  ghost predicate Made(made: seq<ViewEntry>, t: Tuple) {
    exists k :: 0 <= k < |made| && made[k].t == t
  }

  /** A level holds exactly the made tuples with that many dimensions. */
  lemma {:induction false} LevelMember(made: seq<ViewEntry>, l: nat, t: Tuple)
    ensures Made(Level(made, l), t) <==> Made(made, t) && Count(t) == l
  {
    if made != [] {
      var d, e := made[..|made| - 1], made[|made| - 1];
      assert made == d + [e];
      LevelMember(d, l, t);
      LevelNext(d, e, l);
      MadeNext(d, e, t);
      MadeNext(Level(d, l), e, t);
      assert Level(d, l) + [] == Level(d, l);
    }
  }

  lemma MadeNext(made: seq<ViewEntry>, e: ViewEntry, t: Tuple)
    ensures Made(made + [e], t) <==> Made(made, t) || t == e.t
  {
    if Made(made, t) { var k :| 0 <= k < |made| && made[k].t == t; assert (made + [e])[k].t == t; }
    assert (made + [e])[|made|] == e;
  }

  /** Where an entry of a level stands among all. */
  lemma {:induction false} LevelEntry(made: seq<ViewEntry>, l: nat, i: nat) returns (k: nat)
    requires i < |Level(made, l)|
    ensures k < |made| && made[k] == Level(made, l)[i] && Count(made[k].t) == l
  {
    var n := |made| - 1;
    if i < |Level(made[..n], l)| {
      k := LevelEntry(made[..n], l, i);
    } else {
      k := n;
    }
  }

  lemma {:induction false} LevelDistinct(made: seq<ViewEntry>, l: nat)
    requires AllDistinct(TuplesMade(made))
    ensures AllDistinct(TuplesMade(Level(made, l)))
  {
    if made != [] {
      var d, e := made[..|made| - 1], made[|made| - 1];
      assert made == d + [e];
      assert forall k :: 0 <= k < |d| ==> TuplesMade(d)[k] == TuplesMade(made)[k];
      LevelDistinct(d, l);
      LevelNext(d, e, l);
      LevelMember(d, l, e.t);
      forall k | 0 <= k < |d| ensures d[k].t != e.t { assert TuplesMade(made)[k] != TuplesMade(made)[|d|]; }
      var lv := Level(d, l);
      forall i | 0 <= i < |lv| ensures lv[i].t != e.t { assert lv[i].t == e.t ==> Made(lv, e.t); }
      DistinctNext(lv, e);
      assert lv + [] == lv;
    }
  }

  lemma DistinctNext(made: seq<ViewEntry>, e: ViewEntry)
    requires AllDistinct(TuplesMade(made)) && forall i :: 0 <= i < |made| ==> made[i].t != e.t
    ensures AllDistinct(TuplesMade(made + [e]))
  {
    var ts, us := TuplesMade(made), TuplesMade(made + [e]);
    forall i, j | 0 <= i < j < |us| ensures us[i] != us[j] { assert us[i] == ts[i] && (j < |ts| ==> us[j] == ts[j]); }
  }

  ghost predicate Proper(ts: seq<Tuple>, nd: nat) {
    AllDistinct(ts) && forall k :: 0 <= k < |ts| ==> |ts[k]| == nd && Count(ts[k]) > 0
  }

  lemma ProperLevel(made: seq<ViewEntry>, nd: nat, l: nat, i: nat)
    requires Proper(TuplesMade(made), nd) && i < |Level(made, l)|
    ensures |Level(made, l)[i].t| == nd && Count(Level(made, l)[i].t) == l > 0
  {
    var k := LevelEntry(made, l, i);
    assert TuplesMade(made)[k] == made[k].t;
  }

  /** There is room for one more tuple in its layer. */
  lemma RoomForNext(made: seq<ViewEntry>, e: ViewEntry, nd: nat)
    requires Proper(TuplesMade(made), nd) && |e.t| == nd && Count(e.t) > 0 && !Made(made, e.t)
    ensures Proper(TuplesMade(made + [e]), nd) && |Level(made, Count(e.t))| < Binomial(nd, Count(e.t)) &&
            1 <= Count(e.t) <= nd
  {
    hide Count, Binomial, Level;
    var made', l := made + [e], Count(e.t);
    forall i | 0 <= i < |made| ensures made[i].t != e.t { assert made[i].t == e.t ==> Made(made, e.t); }
    DistinctNext(made, e);
    var ts, ts' := TuplesMade(made), TuplesMade(made');
    forall k | 0 <= k < |ts'| ensures |ts'[k]| == nd && Count(ts'[k]) > 0 { assert k < |ts| ==> ts'[k] == ts[k]; }
    LevelNext(made, e, l);
    LevelDistinct(made', l);
    var lv := TuplesMade(Level(made', l));
    forall i | 0 <= i < |lv| ensures |lv[i]| == nd && Count(lv[i]) == l { ProperLevel(made', nd, l, i); }
    LayerRoom(lv, nd, l);
  }

  /** Layer l of the pool. */
  ghost predicate LayerOk(jpp: seq<Job>, lpp: seq<Layer>, made: seq<ViewEntry>, words: seq<int>, nd: nat, nm: nat,
      l: nat)
  {
    l < |lpp| && lpp[l] == Layer(Start(nd, l), Binomial(nd, l), |Level(made, l)|) &&
    |Level(made, l)| <= Binomial(nd, l) &&
    Start(nd, l) + Binomial(nd, l) <= |jpp| &&
    forall i :: 0 <= i < |Level(made, l)| ==>
      |Level(made, l)[i].t| == nd && JobOf(jpp[Start(nd, l) + i], Level(made, l)[i], words, nm)
  }

  /** The pool records all entries, each in the layer of its dimensions. */
  ghost predicate PoolOk(jpp: seq<Job>, lpp: seq<Layer>, made: seq<ViewEntry>, words: seq<int>, nd: nat, nm: nat) {
    Proper(TuplesMade(made), nd) && |lpp| == nd + 1 && |jpp| == Pow2(nd) &&
    forall l {:trigger LayerOk(jpp, lpp, made, words, nd, nm, l)} ::
      1 <= l <= nd ==> LayerOk(jpp, lpp, made, words, nd, nm, l)
  }

  lemma JobStays(job: Job, e: ViewEntry, words: seq<int>, more: seq<int>, nm: nat)
    requires JobOf(job, e, words, nm)
    ensures JobOf(job, e, words + more, nm)
  {
  }

  /** One more view: its job takes the next slot of its layer, which was free, and the other entries stay what they
      are. */
  lemma PoolNext(jpp: seq<Job>, lpp: seq<Layer>, made: seq<ViewEntry>, words: seq<int>, nd: nat, nm: nat, e: ViewEntry,
      g: bv32, more: seq<int>)
    requires PoolOk(jpp, lpp, made, words, nd, nm) && |e.t| == nd && Count(e.t) > 0 && !Made(made, e.t)
    requires Tuple32(g, nd) == e.t && Placed(e, words + more, nm)
    ensures 1 <= Count(e.t) <= nd &&
            1 <= lpp[Count(e.t)].layerIndex + lpp[Count(e.t)].layerCurrentPopulation < |jpp|
    ensures lpp[Count(e.t)].layerCurrentPopulation < lpp[Count(e.t)].layerQuantityLimit
    ensures var l := Count(e.t);
      var k := lpp[l].layerIndex + lpp[l].layerCurrentPopulation;
      PoolOk(jpp[k := Job(g, l, |e.view|, e.offset)],
        lpp[l := lpp[l].(layerCurrentPopulation := lpp[l].layerCurrentPopulation + 1)],
        made + [e], words + more, nd, nm)
  {
    hide Count, Binomial, Level, Start, Pow2, LayerOk, JobOf, Placed;
    var l := Count(e.t);
    RoomForNext(made, e, nd);
    assert LayerOk(jpp, lpp, made, words, nd, nm, l);
    LayerIs(jpp, lpp, made, words, nd, nm, l);
    var k := lpp[l].layerIndex + lpp[l].layerCurrentPopulation;
    SlotsApart(nd, l, |Level(made, l)|, l, |Level(made, l)|);
    var job := Job(g, l, |e.view|, e.offset);
    JobNew(job, e, words + more, nd, nm);
    var jpp', lpp' := jpp[k := job], lpp[l := lpp[l].(layerCurrentPopulation := lpp[l].layerCurrentPopulation + 1)];
    forall m | 1 <= m <= nd ensures LayerOk(jpp', lpp', made + [e], words + more, nd, nm, m) {
      assert LayerOk(jpp, lpp, made, words, nd, nm, m);
      if m == l {
        LayerFilled(jpp, lpp, made, words, nd, nm, e, job, more);
      } else {
        LayerKept(jpp, lpp, made, words, nd, nm, e, m, k, job, lpp'[l], more);
      }
    }
  }

  lemma JobNew(job: Job, e: ViewEntry, words: seq<int>, nd: nat, nm: nat)
    requires Tuple32(job.grpb, nd) == e.t && |e.t| == nd && job.nv == Count(e.t) && job.nRows == |e.view| &&
             job.viewOffset == e.offset && Placed(e, words, nm)
    ensures JobOf(job, e, words, nm)
  {
  }

  lemma LayerIs(jpp: seq<Job>, lpp: seq<Layer>, made: seq<ViewEntry>, words: seq<int>, nd: nat, nm: nat, l: nat)
    requires LayerOk(jpp, lpp, made, words, nd, nm, l)
    ensures l < |lpp| && lpp[l] == Layer(Start(nd, l), Binomial(nd, l), |Level(made, l)|)
  {
  }

  lemma LayerFilled(jpp: seq<Job>, lpp: seq<Layer>, made: seq<ViewEntry>, words: seq<int>, nd: nat, nm: nat,
      e: ViewEntry, job: Job, more: seq<int>)
    requires |e.t| == nd && LayerOk(jpp, lpp, made, words, nd, nm, Count(e.t)) &&
             |Level(made, Count(e.t))| < Binomial(nd, Count(e.t))
    requires JobOf(job, e, words + more, nm)
    ensures var l := Count(e.t);
      LayerOk(jpp[Start(nd, l) + |Level(made, l)| := job],
        lpp[l := lpp[l].(layerCurrentPopulation := lpp[l].layerCurrentPopulation + 1)],
        made + [e], words + more, nd, nm, l)
  {
    hide Count, Binomial, Level, Start, JobOf;
    var l := Count(e.t);
    LevelNext(made, e, l);
    var lv, s := Level(made, l), Start(nd, l);
    forall i | 0 <= i < |lv| ensures JobOf(jpp[s + i], lv[i], words + more, nm) {
      JobStays(jpp[s + i], lv[i], words, more, nm);
    }
  }

  lemma LayerKept(jpp: seq<Job>, lpp: seq<Layer>, made: seq<ViewEntry>, words: seq<int>, nd: nat, nm: nat, e: ViewEntry,
      m: nat, k: nat, job: Job, layer: Layer, more: seq<int>)
    requires 1 <= m <= nd && 1 <= Count(e.t) <= nd && m != Count(e.t) && Count(e.t) < |lpp|
    requires LayerOk(jpp, lpp, made, words, nd, nm, m)
    requires k == Start(nd, Count(e.t)) + |Level(made, Count(e.t))| < |jpp| &&
             |Level(made, Count(e.t))| < Binomial(nd, Count(e.t))
    ensures LayerOk(jpp[k := job], lpp[Count(e.t) := layer], made + [e], words + more, nd, nm, m)
  {
    hide Count, Binomial, Level, Start, JobOf, Pow2;
    LevelNext(made, e, m);
    var lv, s := Level(made, m), Start(nd, m);
    assert lv + [] == lv;
    forall i | 0 <= i < |lv| ensures s + i != k && JobOf(jpp[s + i], lv[i], words + more, nm) {
      SlotsApart(nd, m, i, Count(e.t), |Level(made, Count(e.t))|);
      JobStays(jpp[s + i], lv[i], words, more, nm);
    }
  }
}
