/** The external sort on values: how the input is cut into runs, what merging the runs gives, and what the two ways of
    writing a view add to its sums and checksums. */
module ExternalSortModel {
  import opened CubeRows
  import opened CubeGroups
  import opened SeqEdit

  ghost function Flat(parts: seq<seq<Row>>): seq<Row> {
    if parts == [] then [] else Flat(parts[..|parts| - 1]) + parts[|parts| - 1]
  }

  lemma FlatLast(parts: seq<seq<Row>>, p: seq<Row>)
    ensures Flat(parts + [p]) == Flat(parts) + p
  {
    assert (parts + [p])[..|parts|] == parts;
  }

  // ---- Cutting the input into runs -------------------------------------------------------------------

  /** The runs closed so far, and the rows behind the last of them. */
  datatype Spilled = Spilled(full: seq<seq<Row>>, rest: seq<Row>)

  /** A run is closed as soon as its rows fall into `limit` groups. */
  ghost function Spill(rows: seq<Row>, limit: int): Spilled {
    if rows == [] then Spilled([], [])
    else
      var s := Spill(rows[..|rows| - 1], limit);
      var rest := s.rest + [rows[|rows| - 1]];
      if |Aggregate(rest)| == limit then Spilled(s.full + [rest], []) else Spilled(s.full, rest)
  }

  ghost function Segments(s: Spilled): seq<seq<Row>> {
    if s.rest == [] then s.full else s.full + [s.rest]
  }

  lemma SpillStep(rows: seq<Row>, k: nat, limit: int)
    requires k < |rows|
    ensures var s, s' := Spill(rows[..k], limit), Spill(rows[..k + 1], limit);
      var rest := s.rest + [rows[k]];
      s' == if |Aggregate(rest)| == limit then Spilled(s.full + [rest], []) else Spilled(s.full, rest)
  {
    assert rows[..k + 1][..k] == rows[..k];
  }

  /** No row is lost and none is counted twice. */
  lemma {:induction false} SpillFlat(rows: seq<Row>, limit: int)
    ensures var s := Spill(rows, limit); Flat(s.full) + s.rest == rows
  {
    if rows == [] {
      assert Flat([]) + [] == [];
    } else {
      hide Spill, Flat, Aggregate;
      var init, r := rows[..|rows| - 1], rows[|rows| - 1];
      SpillFlat(init, limit);
      assert rows == init + [r];
      SpillLast(init, r, limit);
      var s := Spill(init, limit);
      SpillFlatStep(s.full, s.rest, r, init);
    }
  }

  lemma SpillLast(init: seq<Row>, r: Row, limit: int)
    ensures var s, s' := Spill(init, limit), Spill(init + [r], limit);
      s' == Spilled(s.full + [s.rest + [r]], []) || s' == Spilled(s.full, s.rest + [r])
  {
    assert (init + [r])[..|init|] == init;
  }

  lemma SpillFlatStep(full: seq<seq<Row>>, rest: seq<Row>, r: Row, init: seq<Row>)
    requires Flat(full) + rest == init
    ensures Flat(full + [rest + [r]]) + [] == init + [r] && Flat(full) + (rest + [r]) == init + [r]
  {
    hide Flat;
    FlatLast(full, rest + [r]);
    Assoc(Flat(full), rest, [r]);
    assert Flat(full + [rest + [r]]) + [] == Flat(full + [rest + [r]]);
  }

  lemma SegmentsFlat(rows: seq<Row>, limit: int)
    ensures Flat(Segments(Spill(rows, limit))) == rows
  {
    SpillFlat(rows, limit);
    var s := Spill(rows, limit);
    FlatLast(s.full, s.rest);
  }

  lemma {:induction false} SpillGrows(rows: seq<Row>, k: nat, limit: int)
    requires k <= |rows|
    ensures |Spill(rows[..k], limit).full| <= |Spill(rows, limit).full|
    decreases |rows| - k
  {
    if k < |rows| {
      SpillStep(rows, k, limit);
      SpillGrows(rows, k + 1, limit);
    } else {
      assert rows[..k] == rows;
    }
  }

  /** Each run on disk is the aggregate of its segment. */
  ghost function Runs(segs: seq<seq<Row>>): (r: seq<seq<Row>>)
    ensures |r| == |segs| && forall j :: 0 <= j < |segs| ==> r[j] == Aggregate(segs[j])
  {
    seq(|segs|, j requires 0 <= j < |segs| => Aggregate(segs[j]))
  }

  lemma {:induction false} FlatShaped(parts: seq<seq<Row>>, nd: nat, nm: nat)
    requires AllShaped(Flat(parts), nd, nm)
    ensures forall j :: 0 <= j < |parts| ==> AllShaped(parts[j], nd, nm)
  {
    if parts != [] {
      var n := |parts| - 1;
      var a, b := Flat(parts[..n]), parts[n];
      forall i | 0 <= i < |a| ensures Shaped(a[i], nd, nm) { assert Flat(parts)[i] == a[i]; }
      forall i | 0 <= i < |b| ensures Shaped(b[i], nd, nm) { assert Flat(parts)[|a| + i] == b[i]; }
      FlatShaped(parts[..n], nd, nm);
    }
  }

  lemma {:induction false} RunsSame(segs: seq<seq<Row>>, nd: nat, nm: nat)
    requires AllShaped(Flat(segs), nd, nm)
    ensures SameGroups(Flat(Runs(segs)), Flat(segs)) && AllShaped(Flat(Runs(segs)), nd, nm)
  {
    if segs == [] {
      SameRefl([]);
    } else {
      FlatShaped(segs, nd, nm);
      var n := |segs| - 1;
      var init := segs[..n];
      assert Flat(segs) == Flat(init) + segs[n];
      assert AllShaped(Flat(init), nd, nm) by {
        forall i | 0 <= i < |Flat(init)|
          ensures Shaped(Flat(init)[i], nd, nm)
        {
          assert Flat(segs)[i] == Flat(init)[i];
        }
      }
      RunsSame(init, nd, nm);
      assert Runs(segs)[..n] == Runs(init);
      SameAggregate(segs[n], nd, nm);
      AggregateShaped(segs[n], nd, nm);
      SameConcat(Flat(Runs(init)), Aggregate(segs[n]), Flat(init), segs[n]);
    }
  }

  // ---- Merging the runs --------------------------------------------------------------------------------

  /** Removing the first row of the k-th part. */
  ghost function Advance(parts: seq<seq<Row>>, k: nat): (r: seq<seq<Row>>)
    requires k < |parts| && parts[k] != []
    ensures |r| == |parts|
  {
    parts[k := parts[k][1..]]
  }

  lemma {:induction false} AdvanceFlat(parts: seq<seq<Row>>, k: nat)
    requires k < |parts| && parts[k] != []
    ensures multiset(Flat(parts)) == multiset(Flat(Advance(parts, k))) + multiset{parts[k][0]}
  {
    var n := |parts| - 1;
    var init := parts[..n];
    if k == n {
      assert Advance(parts, k)[..n] == init;
      assert parts[k] == [parts[k][0]] + parts[k][1..];
    } else {
      AdvanceFlat(init, k);
      assert Advance(parts, k)[..n] == Advance(init, k);
    }
  }

  /** Every row still to come is at or above the given dimensions. */
  ghost predicate AtLeast(r: Row, d: seq<int>) {
    |r.dims| == |d| && !Less(r.dims, d)
  }

  ghost predicate AllAtLeast(parts: seq<seq<Row>>, d: seq<int>) {
    forall j, i :: 0 <= j < |parts| && 0 <= i < |parts[j]| ==> AtLeast(parts[j][i], d)
  }

  ghost predicate Parts(parts: seq<seq<Row>>, nd: nat, nm: nat) {
    forall j :: 0 <= j < |parts| ==> AllShaped(parts[j], nd, nm) && SortedRows(parts[j])
  }

  /** The first row of part k is the least of all first rows. */
  ghost predicate LeastFirst(parts: seq<seq<Row>>, k: nat) {
    k < |parts| && parts[k] != [] &&
    forall j :: 0 <= j < |parts| && parts[j] != [] ==> AtLeast(parts[j][0], parts[k][0].dims)
  }

  lemma LeastOfAll(parts: seq<seq<Row>>, k: nat, nd: nat, nm: nat)
    requires Parts(parts, nd, nm) && LeastFirst(parts, k)
    ensures AllAtLeast(parts, parts[k][0].dims)
  {
    var d := parts[k][0].dims;
    assert Shaped(parts[k][0], nd, nm);
    forall j, i | 0 <= j < |parts| && 0 <= i < |parts[j]| ensures AtLeast(parts[j][i], d) {
      assert AtLeast(parts[j][0], d) && Shaped(parts[j][i], nd, nm);
      if i > 0 {
        assert Before(parts[j][0], parts[j][i]);
        LessTotal(parts[j][i].dims, d);
        if Less(parts[j][i].dims, d) { LessTransitive(parts[j][0].dims, parts[j][i].dims, d); }
      }
    }
  }

  lemma AdvanceParts(parts: seq<seq<Row>>, k: nat, d: seq<int>, nd: nat, nm: nat)
    requires Parts(parts, nd, nm) && k < |parts| && parts[k] != [] && AllAtLeast(parts, d)
    ensures Parts(Advance(parts, k), nd, nm) && AllAtLeast(Advance(parts, k), d)
  {
    var p := Advance(parts, k);
    forall j | 0 <= j < |p| ensures AllShaped(p[j], nd, nm) && SortedRows(p[j]) {
      if j == k {
        assert AllShaped(parts[k], nd, nm) && SortedRows(parts[k]);
        assert forall i :: 0 <= i < |p[k]| ==> p[k][i] == parts[k][i + 1];
      }
    }
    forall j, i | 0 <= j < |p| && 0 <= i < |p[j]| ensures AtLeast(p[j][i], d) {
      if j == k { assert p[j][i] == parts[j][i + 1]; }
    }
  }

  /** What is written and what waits in the output buffer are the group-by of the rows consumed. */
  ghost predicate Merging(written: seq<Row>, out: Row, taken: seq<Row>, nd: nat, nm: nat) {
    GroupBy(written + [out], taken, nd, nm)
  }

  lemma MergeFirst(r: Row, nd: nat, nm: nat)
    requires Shaped(r, nd, nm)
    ensures Merging([], r, [r], nd, nm)
  {
    assert GroupBy([], [], nd, nm);
    AddRowGroupBy([], [], r, nd, nm);
    assert AddRow([], r) == [r] && [] + [r] == [r];
  }

  /** A row equal in its dimensions is added to the output buffer; a larger one replaces it. */
  lemma MergeNext(written: seq<Row>, out: Row, taken: seq<Row>, r: Row, nd: nat, nm: nat)
    requires Merging(written, out, taken, nd, nm) && Shaped(r, nd, nm) && AtLeast(r, out.dims)
    ensures |out.meas| == |r.meas| && |out.dims| == |r.dims|
    ensures out.dims == r.dims ==> Merging(written, Row(out.dims, AddMeasures(out.meas, r.meas)), taken + [r], nd, nm)
    ensures out.dims != r.dims ==> Merging(written + [out], r, taken + [r], nd, nm)
  {
    var all := written + [out];
    var n := |written|;
    assert all[n] == out && Shaped(all[n], nd, nm);
    AddRowGroupBy(all, taken, r, nd, nm);
    PlaceIs(all, r.dims);
    LessTotal(out.dims, r.dims);
    var p := Place(all, r.dims);
    if out.dims == r.dims {
      SortedPositions(all, n, p) by { assert HasDims(all, r.dims); }
      assert all[n := Row(r.dims, AddMeasures(out.meas, r.meas))] ==
               written + [Row(out.dims, AddMeasures(out.meas, r.meas))];
    } else {
      assert p > n by { assert Less(all[n].dims, r.dims); }
      assert InsertAt(all, p, r) == all + [r];
    }
  }

  /** Merging all rows of the runs gives the group-by of the input. */
  lemma MergeDone(view: seq<Row>, taken: seq<Row>, rows: seq<Row>, limit: int, nd: nat, nm: nat)
    requires AllShaped(rows, nd, nm) && GroupBy(view, taken, nd, nm)
    requires multiset(taken) == multiset(Flat(Runs(Segments(Spill(rows, limit)))))
    ensures view == Aggregate(rows)
  {
    hide Spill, Aggregate, SameGroups, GroupBy, Flat;
    var segs := Segments(Spill(rows, limit));
    SegmentsFlat(rows, limit);
    RunsSame(segs, nd, nm);
    SamePermutation(taken, Flat(Runs(segs)));
    SameTransitive(taken, Flat(Runs(segs)), rows);
    GroupByRespects(view, taken, rows, nd, nm);
    AggregateIs(rows, nd, nm);
    GroupByUnique(view, Aggregate(rows), rows, nd, nm);
  }
}
