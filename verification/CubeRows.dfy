/** Rows of a data cube: dimension values and int64 measures, the order of rows, and what it means to group rows by
    their dimensions and add up the measures. */
module CubeRows {
  import opened SeqEdit
  import opened Arith

  datatype Row = Row(dims: seq<int>, meas: seq<int>)

  const TWO63: int := 0x8000_0000_0000_0000
  const TWO64: int := 0x1_0000_0000_0000_0000

  /** int64 addition wraps around. */
  function Wrap64(x: int): (r: int)
    ensures -TWO63 <= r < TWO63 && (r - x) % TWO64 == 0
  {
    (x + TWO63) % TWO64 - TWO63
  }

  lemma Wrap64Same(x: int, y: int)
    requires (x - y) % TWO64 == 0
    ensures Wrap64(x) == Wrap64(y)
  {
    ModSame(x + TWO63, y + TWO63, TWO64);
  }

  lemma Wrap64Add(x: int, y: int)
    ensures Wrap64(Wrap64(x) + y) == Wrap64(x + y)
  {
    Wrap64Same(Wrap64(x) + y, x + y);
  }

  lemma Wrap64Id(x: int)
    requires -TWO63 <= x < TWO63
    ensures Wrap64(x) == x
  {
  }

  ghost predicate Int64s(meas: seq<int>) {
    forall i :: 0 <= i < |meas| ==> -TWO63 <= meas[i] < TWO63
  }

  function AddMeasures(a: seq<int>, b: seq<int>): (r: seq<int>)
    requires |a| == |b|
    ensures |r| == |a| && forall i :: 0 <= i < |a| ==> r[i] == Wrap64(a[i] + b[i])
  {
    seq(|a|, i requires 0 <= i < |a| => Wrap64(a[i] + b[i]))
  }

  /** The order of rows: dimension by dimension. */
  predicate Less(a: seq<int>, b: seq<int>)
    requires |a| == |b|
  {
    |a| > 0 && (a[0] < b[0] || (a[0] == b[0] && Less(a[1..], b[1..])))
  }

  lemma {:induction false} LessTotal(a: seq<int>, b: seq<int>)
    requires |a| == |b|
    ensures Less(a, b) || a == b || Less(b, a)
    ensures !(Less(a, b) && Less(b, a)) && (a == b ==> !Less(a, b))
  {
    if |a| > 0 {
      LessTotal(a[1..], b[1..]);
      assert a == [a[0]] + a[1..] && b == [b[0]] + b[1..];
    }
  }

  lemma {:induction false} LessTransitive(a: seq<int>, b: seq<int>, c: seq<int>)
    requires |a| == |b| == |c| && Less(a, b) && Less(b, c)
    ensures Less(a, c)
  {
    if a[0] == b[0] && b[0] == c[0] { LessTransitive(a[1..], b[1..], c[1..]); }
  }

  /** Of two rows the one with the smaller value in the first dimension in which they differ comes first. */
  lemma {:induction false} LessIs(a: seq<int>, b: seq<int>)
    requires |a| == |b|
    ensures Less(a, b) <==> exists k :: 0 <= k < |a| && a[..k] == b[..k] && a[k] < b[k]
  {
    if |a| > 0 {
      LessIs(a[1..], b[1..]);
      if a[0] < b[0] { assert a[..0] == b[..0]; }
      if a[0] == b[0] && Less(a[1..], b[1..]) {
        var k :| 0 <= k < |a[1..]| && a[1..][..k] == b[1..][..k] && a[1..][k] < b[1..][k];
        assert a[..k + 1] == [a[0]] + a[1..][..k] && b[..k + 1] == [b[0]] + b[1..][..k];
      }
      forall k | 0 <= k < |a| && a[..k] == b[..k] && a[k] < b[k] ensures Less(a, b) {
        if k > 0 {
          assert a[..k][0] == a[0] && b[..k][0] == b[0];
          assert a[1..][..k - 1] == a[..k][1..] && b[1..][..k - 1] == b[..k][1..];
          assert a[1..][k - 1] < b[1..][k - 1];
        }
      }
    }
  }

  /** KeyComp: the first differing position decides. */
  method KeyComp(a: seq<int>, b: seq<int>) returns (r: int)
    requires |a| == |b|
    ensures r < 0 <==> exists k :: 0 <= k < |a| && a[..k] == b[..k] && a[k] < b[k]
    ensures r == 0 <==> a == b
    ensures r > 0 <==> exists k :: 0 <= k < |a| && a[..k] == b[..k] && a[k] > b[k]
    ensures (r < 0 <==> Less(a, b)) && (r > 0 <==> Less(b, a))
  {
    LessIs(a, b);
    LessIs(b, a);
    LessTotal(a, b);
    var i := 0;
    while i < |a|
      invariant 0 <= i <= |a| && a[..i] == b[..i]
      invariant (Less(a, b) <==> Less(a[i..], b[i..])) && (Less(b, a) <==> Less(b[i..], a[i..]))
    {
      assert a[i..][1..] == a[i + 1..] && b[i..][1..] == b[i + 1..];
      if a[i] < b[i] { return -1; }
      else if a[i] > b[i] { return 1; }
      i := i + 1;
    }
    return 0;
  }

  /** Rows of one shape: nd dimensions and nm measures that are int64 values. */
  ghost predicate Shaped(r: Row, nd: nat, nm: nat) {
    |r.dims| == nd && |r.meas| == nm && Int64s(r.meas)
  }

  ghost predicate AllShaped(rows: seq<Row>, nd: nat, nm: nat) {
    forall i :: 0 <= i < |rows| ==> Shaped(rows[i], nd, nm)
  }

  ghost predicate Before(a: Row, b: Row) {
    |a.dims| == |b.dims| && Less(a.dims, b.dims)
  }

  lemma BeforeIs(a: Row, b: Row)
    requires |a.dims| == |b.dims|
    ensures Before(a, b) <==>
            exists k :: 0 <= k < |a.dims| && a.dims[..k] == b.dims[..k] && a.dims[k] < b.dims[k]
  {
    LessIs(a.dims, b.dims);
  }

  ghost predicate SortedRows(rows: seq<Row>) {
    forall i, j :: 0 <= i < j < |rows| ==> Before(rows[i], rows[j])
  }

  /** The true integer sum of measure i over the rows with the given dimensions. */
  ghost function Sum(rows: seq<Row>, dims: seq<int>, i: nat): int {
    if rows == [] then 0
    else Sum(rows[..|rows| - 1], dims, i) +
         (if rows[|rows| - 1].dims == dims && i < |rows[|rows| - 1].meas| then rows[|rows| - 1].meas[i] else 0)
  }

  ghost predicate HasDims(rows: seq<Row>, dims: seq<int>) {
    exists i :: 0 <= i < |rows| && rows[i].dims == dims
  }

  ghost predicate Totals(r: Row, rows: seq<Row>) {
    forall i :: 0 <= i < |r.meas| ==> r.meas[i] == Wrap64(Sum(rows, r.dims, i))
  }

  /** `out` is the group-by of `rows`: one row for every combination of dimensions that occurs, in order, with the
      wrapped sums of the measures. */
  ghost predicate GroupBy(out: seq<Row>, rows: seq<Row>, nd: nat, nm: nat) {
    AllShaped(out, nd, nm) && SortedRows(out) &&
    (forall p :: 0 <= p < |out| ==> HasDims(rows, out[p].dims) && Totals(out[p], rows)) &&
    (forall q :: 0 <= q < |rows| ==> HasDims(out, rows[q].dims))
  }

  lemma SumOne(rows: seq<Row>, r: Row, dims: seq<int>, i: nat)
    ensures Sum(rows + [r], dims, i) == Sum(rows, dims, i) + (if r.dims == dims && i < |r.meas| then r.meas[i] else 0)
  {
    assert (rows + [r])[..|rows|] == rows;
  }

  lemma {:induction false} SumConcat(a: seq<Row>, b: seq<Row>, dims: seq<int>, i: nat)
    ensures Sum(a + b, dims, i) == Sum(a, dims, i) + Sum(b, dims, i)
  {
    if b == [] {
      assert a + b == a;
    } else {
      var n := |b| - 1;
      assert (a + b)[..|a + b| - 1] == a + b[..n];
      SumConcat(a, b[..n], dims, i);
    }
  }

  lemma {:induction false} SumAbsent(rows: seq<Row>, dims: seq<int>, i: nat)
    requires !HasDims(rows, dims)
    ensures Sum(rows, dims, i) == 0
  {
    if rows != [] {
      var n := |rows| - 1;
      assert rows[n].dims != dims;
      assert forall q :: 0 <= q < n ==> rows[..n][q] == rows[q];
      SumAbsent(rows[..n], dims, i);
    }
  }

  lemma SortedPositions(rows: seq<Row>, i: nat, j: nat)
    requires SortedRows(rows) && i < |rows| && j < |rows| && rows[i].dims == rows[j].dims
    ensures i == j
  {
    LessTotal(rows[i].dims, rows[j].dims);
  }

  // ---- The group-by, computed row by row ---------------------------------------------------

  /** The number of leading rows below the given dimensions. */
  ghost function Place(out: seq<Row>, dims: seq<int>): (p: nat)
    ensures p <= |out|
  {
    if out != [] && |out[0].dims| == |dims| && Less(out[0].dims, dims) then 1 + Place(out[1..], dims) else 0
  }

  ghost function AddRow(out: seq<Row>, r: Row): seq<Row> {
    var p := Place(out, r.dims);
    if p < |out| && out[p].dims == r.dims && |out[p].meas| == |r.meas| then
      out[p := Row(r.dims, AddMeasures(out[p].meas, r.meas))]
    else
      InsertAt(out, p, r)
  }

  ghost function Aggregate(rows: seq<Row>): seq<Row> {
    if rows == [] then [] else AddRow(Aggregate(rows[..|rows| - 1]), rows[|rows| - 1])
  }

  lemma {:induction false} PlaceIs(out: seq<Row>, dims: seq<int>)
    requires SortedRows(out) && forall i :: 0 <= i < |out| ==> |out[i].dims| == |dims|
    ensures var p := Place(out, dims);
      (forall i :: 0 <= i < p ==> Less(out[i].dims, dims)) &&
      (forall i :: p <= i < |out| ==> !Less(out[i].dims, dims)) &&
      (forall i :: p < i < |out| ==> Less(dims, out[i].dims)) &&
      (p < |out| && out[p].dims != dims ==> Less(dims, out[p].dims)) &&
      (HasDims(out, dims) <==> p < |out| && out[p].dims == dims)
  {
    if out != [] {
      if Less(out[0].dims, dims) {
        assert forall i :: 0 <= i < |out[1..]| ==> out[1..][i] == out[i + 1];
        PlaceIs(out[1..], dims);
        LessTotal(out[0].dims, dims);
        var p := Place(out, dims);
        forall i | 0 < i < |out| ensures i < p ==> Less(out[i].dims, dims) { assert out[i] == out[1..][i - 1]; }
        forall i | p <= i < |out|
          ensures !Less(out[i].dims, dims) && (p < i ==> Less(dims, out[i].dims))
        {
          assert out[i] == out[1..][i - 1];
        }
        if HasDims(out, dims) {
          var i :| 0 <= i < |out| && out[i].dims == dims;
          assert out[1..][i - 1].dims == dims;
        }
      } else {
        LessTotal(out[0].dims, dims);
        forall i | 0 < i < |out| ensures Less(dims, out[i].dims) {
          assert Before(out[0], out[i]);
          if out[0].dims != dims { LessTransitive(dims, out[0].dims, out[i].dims); }
        }
        forall i | 0 < i < |out|
          ensures !Less(out[i].dims, dims) && out[i].dims != dims
        {
          LessTotal(out[i].dims, dims);
        }
      }
    }
  }

  lemma AddRowSorted(out: seq<Row>, r: Row, nd: nat, nm: nat)
    requires AllShaped(out, nd, nm) && SortedRows(out) && Shaped(r, nd, nm)
    ensures AllShaped(AddRow(out, r), nd, nm) && SortedRows(AddRow(out, r))
  {
    PlaceIs(out, r.dims);
  }

  lemma TotalsNew(rows: seq<Row>, r: Row)
    requires !HasDims(rows, r.dims) && Int64s(r.meas)
    ensures Totals(r, rows + [r])
  {
    forall i | 0 <= i < |r.meas| ensures r.meas[i] == Wrap64(Sum(rows + [r], r.dims, i)) {
      SumOne(rows, r, r.dims, i);
      SumAbsent(rows, r.dims, i);
      Wrap64Id(r.meas[i]);
    }
  }

  lemma TotalsMore(o: Row, rows: seq<Row>, r: Row)
    requires Totals(o, rows) && |o.meas| == |r.meas| && o.dims == r.dims
    ensures Totals(Row(r.dims, AddMeasures(o.meas, r.meas)), rows + [r])
  {
    var s := AddMeasures(o.meas, r.meas);
    forall i | 0 <= i < |s| ensures s[i] == Wrap64(Sum(rows + [r], r.dims, i)) {
      SumOne(rows, r, r.dims, i);
      Wrap64Add(Sum(rows, r.dims, i), r.meas[i]);
    }
  }

  lemma TotalsOther(o: Row, rows: seq<Row>, r: Row)
    requires Totals(o, rows) && o.dims != r.dims
    ensures Totals(o, rows + [r])
  {
    forall i | 0 <= i < |o.meas| ensures o.meas[i] == Wrap64(Sum(rows + [r], o.dims, i)) { SumOne(rows, r, o.dims, i); }
  }

  lemma HasDimsMore(rows: seq<Row>, r: Row, d: seq<int>)
    ensures HasDims(rows + [r], d) <==> HasDims(rows, d) || d == r.dims
  {
    if HasDims(rows, d) { var i :| 0 <= i < |rows| && rows[i].dims == d; assert (rows + [r])[i].dims == d; }
    assert (rows + [r])[|rows|] == r;
  }

  /** Adding a row adds its measures to its group and leaves the other groups alone. */
  lemma AddRowTotals(out: seq<Row>, rows: seq<Row>, r: Row, nd: nat, nm: nat, p: nat)
    requires GroupBy(out, rows, nd, nm) && Shaped(r, nd, nm) && p < |AddRow(out, r)|
    ensures HasDims(rows + [r], AddRow(out, r)[p].dims) && Totals(AddRow(out, r)[p], rows + [r])
  {
    PlaceIs(out, r.dims);
    var out', q := AddRow(out, r), Place(out, r.dims);
    HasDimsMore(rows, r, out'[p].dims);
    var found := q < |out| && out[q].dims == r.dims;
    GroupByDims(out, rows, nd, nm, r.dims);
    if p == q {
      if found { assert Totals(out[q], rows); TotalsMore(out[q], rows, r); } else { TotalsNew(rows, r); }
    } else {
      var p' := if found || p < q then p else p - 1;
      assert out'[p] == out[p'] && Totals(out[p'], rows) && HasDims(rows, out[p'].dims);
      LessTotal(out[p'].dims, r.dims);
      TotalsOther(out[p'], rows, r);
    }
  }

  lemma AddRowCovers(out: seq<Row>, rows: seq<Row>, r: Row, nd: nat, nm: nat, k: nat)
    requires GroupBy(out, rows, nd, nm) && Shaped(r, nd, nm) && k <= |rows|
    ensures HasDims(AddRow(out, r), (rows + [r])[k].dims)
  {
    PlaceIs(out, r.dims);
    var out', q := AddRow(out, r), Place(out, r.dims);
    if k == |rows| {
      assert out'[q].dims == r.dims;
    } else {
      assert HasDims(out, rows[k].dims);
      var p :| 0 <= p < |out| && out[p].dims == rows[k].dims;
      assert out'[if |out'| == |out| || p < q then p else p + 1].dims == rows[k].dims;
    }
  }

  lemma AddRowGroupBy(out: seq<Row>, rows: seq<Row>, r: Row, nd: nat, nm: nat)
    requires GroupBy(out, rows, nd, nm) && Shaped(r, nd, nm)
    ensures GroupBy(AddRow(out, r), rows + [r], nd, nm)
  {
    hide AddRow, Totals;
    AddRowSorted(out, r, nd, nm);
    forall p | 0 <= p < |AddRow(out, r)|
      ensures HasDims(rows + [r], AddRow(out, r)[p].dims) && Totals(AddRow(out, r)[p], rows + [r])
    {
      AddRowTotals(out, rows, r, nd, nm, p);
    }
    forall k | 0 <= k < |rows + [r]|
      ensures HasDims(AddRow(out, r), (rows + [r])[k].dims)
    {
      AddRowCovers(out, rows, r, nd, nm, k);
    }
  }

  lemma {:induction false} AggregateIs(rows: seq<Row>, nd: nat, nm: nat)
    requires AllShaped(rows, nd, nm)
    ensures GroupBy(Aggregate(rows), rows, nd, nm)
  {
    if rows != [] {
      hide AddRow, SortedRows, HasDims, Totals;
      var n := |rows| - 1;
      assert Shaped(rows[n], nd, nm);
      AggregateIs(rows[..n], nd, nm);
      AddRowGroupBy(Aggregate(rows[..n]), rows[..n], rows[n], nd, nm);
      assert rows[..n] + [rows[n]] == rows;
    }
  }

  /** The rows of a view stand in the order of their first dimension, those that agree there in the order of the second,
      and so on. */
  lemma AggregateOrder(rows: seq<Row>, nd: nat, nm: nat, p: nat, q: nat)
    requires AllShaped(rows, nd, nm) && p < q < |Aggregate(rows)|
    ensures var a, b := Aggregate(rows)[p].dims, Aggregate(rows)[q].dims;
      |a| == |b| == nd && exists k :: 0 <= k < nd && a[..k] == b[..k] && a[k] < b[k]
  {
    AggregateIs(rows, nd, nm);
    hide Aggregate, Less;
    var a, b := Aggregate(rows)[p], Aggregate(rows)[q];
    assert Shaped(a, nd, nm) && Shaped(b, nd, nm) && Before(a, b);
    BeforeIs(a, b);
  }

  lemma AddRowAbove(out: seq<Row>, r: Row, nd: nat, nm: nat)
    requires AllShaped(out, nd, nm) && SortedRows(out) && |r.dims| == nd &&
             forall i :: 0 <= i < |out| ==> Before(out[i], r)
    ensures AddRow(out, r) == out + [r]
  {
    hide Less;
    forall i | 0 <= i < |out| ensures |out[i].dims| == |r.dims| { assert Before(out[i], r); }
    PlaceIs(out, r.dims);
    var p := Place(out, r.dims);
    assert p < |out| ==> Before(out[p], r);
    assert p == |out|;
  }

  /** Rows that are sorted and all different are their own group-by. */
  lemma {:induction false} AggregateSorted(rows: seq<Row>, nd: nat, nm: nat)
    requires AllShaped(rows, nd, nm) && SortedRows(rows)
    ensures Aggregate(rows) == rows
  {
    if rows != [] {
      hide Less, AddRow, Before;
      var init, r := rows[..|rows| - 1], rows[|rows| - 1];
      AggregateSorted(init, nd, nm);
      assert Shaped(r, nd, nm);
      AddRowAbove(init, r, nd, nm);
      assert rows == init + [r];
    }
  }

  lemma {:induction false} SortedSame(a: seq<Row>, b: seq<Row>)
    requires SortedRows(a) && SortedRows(b) && forall d :: HasDims(a, d) <==> HasDims(b, d)
    ensures |a| == |b| && forall i :: 0 <= i < |a| ==> a[i].dims == b[i].dims
  {
    if a == [] || b == [] {
      if b != [] { assert HasDims(b, b[0].dims); }
      if a != [] { assert HasDims(a, a[0].dims); }
    } else {
      FirstSame(a, b);
      forall d ensures HasDims(a[1..], d) <==> HasDims(b[1..], d) {
        TailDims(a, d);
        TailDims(b, d);
      }
      SortedSame(a[1..], b[1..]);
      forall i | 0 < i < |a| ensures a[i].dims == b[i].dims { assert a[1..][i - 1].dims == b[1..][i - 1].dims; }
    }
  }

  lemma FirstSame(a: seq<Row>, b: seq<Row>)
    requires a != [] && b != [] && SortedRows(a) && SortedRows(b) && HasDims(a, b[0].dims) && HasDims(b, a[0].dims)
    ensures a[0].dims == b[0].dims
  {
    var i :| 0 <= i < |a| && a[i].dims == b[0].dims;
    var j :| 0 <= j < |b| && b[j].dims == a[0].dims;
    if i > 0 && j > 0 {
      assert Before(a[0], a[i]) && Before(b[0], b[j]);
      LessTotal(a[0].dims, b[0].dims);
    }
  }

  lemma TailDims(a: seq<Row>, d: seq<int>)
    requires a != [] && SortedRows(a)
    ensures HasDims(a[1..], d) <==> HasDims(a, d) && d != a[0].dims
  {
    if HasDims(a[1..], d) {
      var i :| 0 <= i < |a[1..]| && a[1..][i].dims == d;
      assert a[i + 1].dims == d && Before(a[0], a[i + 1]);
      LessTotal(a[0].dims, d);
    }
    if HasDims(a, d) && d != a[0].dims {
      var i :| 0 <= i < |a| && a[i].dims == d;
      assert a[1..][i - 1].dims == d;
    }
  }

  lemma GroupByDims(out: seq<Row>, rows: seq<Row>, nd: nat, nm: nat, d: seq<int>)
    requires GroupBy(out, rows, nd, nm)
    ensures HasDims(out, d) <==> HasDims(rows, d)
  {
    if HasDims(out, d) { var i :| 0 <= i < |out| && out[i].dims == d; }
    if HasDims(rows, d) { var i :| 0 <= i < |rows| && rows[i].dims == d; }
  }

  /** There is only one group-by. */
  lemma GroupByUnique(a: seq<Row>, b: seq<Row>, rows: seq<Row>, nd: nat, nm: nat)
    requires GroupBy(a, rows, nd, nm) && GroupBy(b, rows, nd, nm)
    ensures a == b
  {
    forall d ensures HasDims(a, d) <==> HasDims(b, d) {
      GroupByDims(a, rows, nd, nm, d);
      GroupByDims(b, rows, nd, nm, d);
    }
    SortedSame(a, b);
    forall i | 0 <= i < |a| ensures a[i] == b[i] {
      assert Totals(a[i], rows) && Totals(b[i], rows);
      assert a[i].meas == b[i].meas;
    }
  }
}
