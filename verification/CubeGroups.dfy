/** When two collections of rows have the same group-by: the same combinations of dimensions with the same sums.
    Reordering rows, aggregating a part of them first, or aggregating onto more dimensions first makes no difference. */
module CubeGroups {
  import opened CubeRows
  import opened SeqEdit
  import opened Arith

  ghost predicate SumsAgree(a: seq<Row>, b: seq<Row>, d: seq<int>, i: nat) {
    (Sum(a, d, i) - Sum(b, d, i)) % TWO64 == 0
  }

  ghost predicate SameGroups(a: seq<Row>, b: seq<Row>) {
    (forall d {:trigger HasDims(a, d)} {:trigger HasDims(b, d)} :: HasDims(a, d) <==> HasDims(b, d)) &&
    forall d, i: nat {:trigger SumsAgree(a, b, d, i)} :: SumsAgree(a, b, d, i)
  }

  lemma AgreeChain(x: int, y: int, z: int)
    requires (x - y) % TWO64 == 0 && (y - z) % TWO64 == 0
    ensures (x - z) % TWO64 == 0 && (y - x) % TWO64 == 0
  {
    ModSame(x, y, TWO64);
    ModSame(y, z, TWO64);
    ModSame(x, z, TWO64);
    ModSame(y, x, TWO64);
  }

  lemma AgreeAdd(x: int, y: int, u: int, v: int)
    requires (x - y) % TWO64 == 0 && (u - v) % TWO64 == 0
    ensures ((x + u) - (y + v)) % TWO64 == 0
  {
    var p, q := (x - y) / TWO64, (u - v) / TWO64;
    assert (x + u) - (y + v) == (p + q) * TWO64 + 0;
    DivIs((x + u) - (y + v), TWO64, p + q, 0);
  }

  lemma SameRefl(a: seq<Row>)
    ensures SameGroups(a, a)
  {
  }

  lemma SameSymmetric(a: seq<Row>, b: seq<Row>)
    requires SameGroups(a, b)
    ensures SameGroups(b, a)
  {
    forall d, i: nat ensures SumsAgree(b, a, d, i) {
      assert SumsAgree(a, b, d, i);
      AgreeChain(Sum(a, d, i), Sum(b, d, i), Sum(b, d, i));
    }
  }

  lemma SameTransitive(a: seq<Row>, b: seq<Row>, c: seq<Row>)
    requires SameGroups(a, b) && SameGroups(b, c)
    ensures SameGroups(a, c)
  {
    forall d ensures HasDims(a, d) <==> HasDims(c, d) { assert HasDims(a, d) <==> HasDims(b, d); }
    forall d, i: nat ensures SumsAgree(a, c, d, i) {
      assert SumsAgree(a, b, d, i) && SumsAgree(b, c, d, i);
      AgreeChain(Sum(a, d, i), Sum(b, d, i), Sum(c, d, i));
    }
  }

  lemma HasDimsConcat(a: seq<Row>, b: seq<Row>, d: seq<int>)
    ensures HasDims(a + b, d) <==> HasDims(a, d) || HasDims(b, d)
  {
    if HasDims(a, d) { var i :| 0 <= i < |a| && a[i].dims == d; assert (a + b)[i].dims == d; }
    if HasDims(b, d) { var i :| 0 <= i < |b| && b[i].dims == d; assert (a + b)[|a| + i].dims == d; }
  }

  lemma SameConcat(a: seq<Row>, b: seq<Row>, a': seq<Row>, b': seq<Row>)
    requires SameGroups(a, a') && SameGroups(b, b')
    ensures SameGroups(a + b, a' + b')
  {
    forall d ensures HasDims(a + b, d) <==> HasDims(a' + b', d) {
      HasDimsConcat(a, b, d);
      HasDimsConcat(a', b', d);
      assert (HasDims(a, d) <==> HasDims(a', d)) && (HasDims(b, d) <==> HasDims(b', d));
    }
    forall d, i: nat ensures SumsAgree(a + b, a' + b', d, i) {
      SumConcat(a, b, d, i);
      SumConcat(a', b', d, i);
      assert SumsAgree(a, a', d, i) && SumsAgree(b, b', d, i);
      AgreeAdd(Sum(a, d, i), Sum(a', d, i), Sum(b, d, i), Sum(b', d, i));
    }
  }

  /** Two pieces may change places. */
  lemma SameSwap(a: seq<Row>, b: seq<Row>)
    ensures SameGroups(a + b, b + a)
  {
    forall d ensures HasDims(a + b, d) <==> HasDims(b + a, d) {
      HasDimsConcat(a, b, d);
      HasDimsConcat(b, a, d);
    }
    forall d, i: nat ensures SumsAgree(a + b, b + a, d, i) {
      SumConcat(a, b, d, i);
      SumConcat(b, a, d, i);
    }
  }

  // ---- Projections ---------------------------------------------------------------------------------

  /** Column numbers count from 1. */
  ghost predicate Columns(sel: seq<int>, nd: nat) {
    forall i :: 0 <= i < |sel| ==> 1 <= sel[i] <= nd
  }

  function Pick(dims: seq<int>, sel: seq<int>): (r: seq<int>)
    requires Columns(sel, |dims|)
    ensures |r| == |sel| && forall i :: 0 <= i < |sel| ==> r[i] == dims[sel[i] - 1]
  {
    seq(|sel|, i requires 0 <= i < |sel| => dims[sel[i] - 1])
  }

  function Project(rows: seq<Row>, sel: seq<int>, nd: nat, nm: nat): (r: seq<Row>)
    requires Columns(sel, nd) && AllShaped(rows, nd, nm)
    ensures |r| == |rows| && AllShaped(r, |sel|, nm) &&
            forall k :: 0 <= k < |rows| ==> r[k] == Row(Pick(rows[k].dims, sel), rows[k].meas)
  {
    seq(|rows|,
        k requires 0 <= k < |rows| => assert Shaped(rows[k], nd, nm); Row(Pick(rows[k].dims, sel), rows[k].meas))
  }

  lemma ProjectConcat(a: seq<Row>, b: seq<Row>, sel: seq<int>, nd: nat, nm: nat)
    requires Columns(sel, nd) && AllShaped(a, nd, nm) && AllShaped(b, nd, nm)
    ensures AllShaped(a + b, nd, nm) && Project(a + b, sel, nd, nm) == Project(a, sel, nd, nm) + Project(b, sel, nd, nm)
  {
  }

  /** Two rows with the same dimensions may be merged into one. */
  lemma SameMerged(d: seq<int>, m: seq<int>, m': seq<int>)
    requires |m| == |m'|
    ensures SameGroups([Row(d, AddMeasures(m, m'))], [Row(d, m)] + [Row(d, m')])
  {
    var a, b := [Row(d, AddMeasures(m, m'))], [Row(d, m)] + [Row(d, m')];
    forall e ensures HasDims(a, e) <==> HasDims(b, e) {
      assert a[0].dims == d && b[0].dims == d && b[1].dims == d;
    }
    forall e, i: nat ensures SumsAgree(a, b, e, i) {
      SumOne([], a[0], e, i);
      SumOne([Row(d, m)], Row(d, m'), e, i);
      SumOne([], Row(d, m), e, i);
      assert [] + [Row(d, m)] == [Row(d, m)] && [] + a == a;
    }
  }

  /** Inserting a row somewhere is the same as appending it. */
  lemma SameInserted(a: seq<Row>, k: nat, r: Row)
    requires k <= |a|
    ensures SameGroups(InsertAt(a, k, r), a + [r])
  {
    var x, y := a[..k], a[k..];
    SameSwap([r], y);
    SameRefl(x);
    SameConcat(x, [r] + y, x, y + [r]);
    assert x + ([r] + y) == InsertAt(a, k, r) && x + (y + [r]) == a + [r];
  }

  /** The order of rows does not matter. */
  lemma {:induction false} SamePermutation(a: seq<Row>, b: seq<Row>)
    requires multiset(a) == multiset(b)
    ensures SameGroups(a, b)
    decreases |a|
  {
    hide SameGroups;
    if a == [] {
      EmptyPermutation(a, b);
      SameRefl(a);
    } else {
      var n := |a| - 1;
      var k := FindLast(a, b);
      var b' := RemoveAt(b, k);
      SamePermutation(a[..n], b');
      SameRefl([a[n]]);
      SameConcat(a[..n], [a[n]], b', [a[n]]);
      SameInserted(b', k, a[n]);
      SameSymmetric(b, b' + [a[n]]);
      SameTransitive(a, b' + [a[n]], b);
    }
  }

  lemma SameReplaced(a: seq<Row>, k: nat, d: seq<int>, m: seq<int>)
    requires k < |a| && a[k].dims == d && |a[k].meas| == |m|
    ensures SameGroups(a[k := Row(d, AddMeasures(a[k].meas, m))], a + [Row(d, m)])
  {
    var r := Row(d, m);
    var x, y := a[..k], a[k + 1..];
    var merged := [Row(d, AddMeasures(a[k].meas, m))];
    SameMerged(d, a[k].meas, m);
    assert [Row(d, a[k].meas)] == [a[k]];
    SameRefl(x);
    SameRefl(y);
    SameConcat(merged, y, [a[k]] + [r], y);
    SameConcat(x, merged + y, x, [a[k]] + [r] + y);
    assert x + (merged + y) == a[k := merged[0]];
    assert x + ([a[k]] + [r] + y) == InsertAt(a, k + 1, r);
    SameInserted(a, k + 1, r);
    SameTransitive(a[k := merged[0]], InsertAt(a, k + 1, r), a + [r]);
  }

  /** Adding a row to a group-by, then projecting, is the same as projecting both. */
  lemma ProjectAddRow(out: seq<Row>, r: Row, sel: seq<int>, nd: nat, nm: nat)
    requires Columns(sel, nd) && AllShaped(out, nd, nm) && Shaped(r, nd, nm)
    ensures AllShaped(AddRow(out, r), nd, nm) && AllShaped([r], nd, nm)
    ensures SameGroups(Project(AddRow(out, r), sel, nd, nm), Project(out, sel, nd, nm) + Project([r], sel, nd, nm))
  {
    var p := Place(out, r.dims);
    var out' := AddRow(out, r);
    var po := Project(out, sel, nd, nm);
    var pr := Row(Pick(r.dims, sel), r.meas);
    assert Project([r], sel, nd, nm) == [pr];
    if p < |out| && out[p].dims == r.dims {
      assert Project(out', sel, nd, nm) == po[p := Row(pr.dims, AddMeasures(po[p].meas, r.meas))];
      SameReplaced(po, p, pr.dims, r.meas);
    } else {
      assert Project(out', sel, nd, nm) == InsertAt(po, p, pr);
      SameInserted(po, p, pr);
    }
  }

  lemma AggregateShaped(rows: seq<Row>, nd: nat, nm: nat)
    requires AllShaped(rows, nd, nm)
    ensures AllShaped(Aggregate(rows), nd, nm)
  {
    AggregateIs(rows, nd, nm);
  }

  /** Aggregating before a projection makes no difference to what comes after it. */
  lemma {:induction false} ProjectAggregate(rows: seq<Row>, sel: seq<int>, nd: nat, nm: nat)
    requires Columns(sel, nd) && AllShaped(rows, nd, nm)
    ensures AllShaped(Aggregate(rows), nd, nm)
    ensures SameGroups(Project(Aggregate(rows), sel, nd, nm), Project(rows, sel, nd, nm))
  {
    AggregateShaped(rows, nd, nm);
    if rows == [] {
      assert Project(Aggregate(rows), sel, nd, nm) == Project(rows, sel, nd, nm);
      SameRefl(Project(rows, sel, nd, nm));
    } else {
      var n := |rows| - 1;
      var r, init := rows[n], rows[..n];
      ProjectAggregate(init, sel, nd, nm);
      ProjectAddRow(Aggregate(init), r, sel, nd, nm);
      var p1, p2 := Project(Aggregate(init), sel, nd, nm), Project(init, sel, nd, nm);
      SameRefl(Project([r], sel, nd, nm));
      SameConcat(p1, Project([r], sel, nd, nm), p2, Project([r], sel, nd, nm));
      ProjectConcat(init, [r], sel, nd, nm);
      assert init + [r] == rows;
      SameTransitive(Project(Aggregate(rows), sel, nd, nm), p1 + Project([r], sel, nd, nm), Project(rows, sel, nd, nm));
    }
  }

  lemma {:induction false} SameAggregate(rows: seq<Row>, nd: nat, nm: nat)
    requires AllShaped(rows, nd, nm)
    ensures SameGroups(Aggregate(rows), rows)
  {
    if rows == [] {
      SameRefl(rows);
    } else {
      var n := |rows| - 1;
      var r, init := rows[n], rows[..n];
      SameAggregate(init, nd, nm);
      AggregateShaped(init, nd, nm);
      var out, p := Aggregate(init), Place(Aggregate(init), r.dims);
      if p < |out| && out[p].dims == r.dims { SameReplaced(out, p, r.dims, r.meas); } else { SameInserted(out, p, r); }
      assert AddRow(out, r) == Aggregate(rows) && Row(r.dims, r.meas) == r;
      SameRefl([r]);
      SameConcat(out, [r], init, [r]);
      assert init + [r] == rows;
      SameTransitive(Aggregate(rows), out + [r], rows);
    }
  }

  lemma GroupByRespects(out: seq<Row>, a: seq<Row>, b: seq<Row>, nd: nat, nm: nat)
    requires GroupBy(out, a, nd, nm) && SameGroups(a, b)
    ensures GroupBy(out, b, nd, nm)
  {
    forall p | 0 <= p < |out| ensures HasDims(b, out[p].dims) && Totals(out[p], b) {
      assert HasDims(a, out[p].dims) && Totals(out[p], a);
      forall i | 0 <= i < |out[p].meas| ensures out[p].meas[i] == Wrap64(Sum(b, out[p].dims, i)) {
        assert SumsAgree(a, b, out[p].dims, i);
        Wrap64Same(Sum(a, out[p].dims, i), Sum(b, out[p].dims, i));
      }
    }
    forall q | 0 <= q < |b| ensures HasDims(out, b[q].dims) {
      assert HasDims(b, b[q].dims);
      GroupByDims(out, a, nd, nm, b[q].dims);
    }
  }

  /** Equal groups give equal views. */
  lemma AggregateRespects(a: seq<Row>, b: seq<Row>, nd: nat, nm: nat)
    requires AllShaped(a, nd, nm) && AllShaped(b, nd, nm) && SameGroups(a, b)
    ensures Aggregate(a) == Aggregate(b)
  {
    AggregateIs(a, nd, nm);
    AggregateIs(b, nd, nm);
    GroupByRespects(Aggregate(a), a, b, nd, nm);
    GroupByUnique(Aggregate(a), Aggregate(b), b, nd, nm);
  }

  /** A view onto the columns `sub` of a view is the view onto the columns of the rows that these stand for. */
  lemma ViewOfView(rows: seq<Row>, sel: seq<int>, sub: seq<int>, nd: nat, nm: nat)
    requires AllShaped(rows, nd, nm) && Columns(sel, nd) && Columns(sub, |sel|)
    ensures Columns(Pick(sel, sub), nd) && AllShaped(Aggregate(Project(rows, sel, nd, nm)), |sel|, nm)
    ensures Aggregate(Project(Aggregate(Project(rows, sel, nd, nm)), sub, |sel|, nm)) ==
              Aggregate(Project(rows, Pick(sel, sub), nd, nm))
  {
    var mid := Project(rows, sel, nd, nm);
    ProjectAggregate(mid, sub, |sel|, nm);
    forall k | 0 <= k < |rows| ensures Project(mid, sub, |sel|, nm)[k] == Project(rows, Pick(sel, sub), nd, nm)[k] {
      assert Shaped(rows[k], nd, nm);
      assert Pick(Pick(rows[k].dims, sel), sub) == Pick(rows[k].dims, Pick(sel, sub));
    }
    assert Project(mid, sub, |sel|, nm) == Project(rows, Pick(sel, sub), nd, nm);
    AggregateRespects(Project(Aggregate(mid), sub, |sel|, nm), Project(mid, sub, |sel|, nm), |sub|, nm);
  }
}
