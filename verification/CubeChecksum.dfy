/** Measure totals and checksums of a view, as the two ways of writing a view compute them. */
module CubeChecksum {
  import opened CubeRows
  import opened CubeGroups
  import opened Arith

  const MEASBOUND: int := 31415

  /** Every row has nm measures. */
  ghost predicate Measured(rows: seq<Row>, nm: nat) {
    forall k :: 0 <= k < |rows| ==> |rows[k].meas| == nm
  }

  lemma MeasuredPrefix(rows: seq<Row>, nm: nat, k: nat)
    requires Measured(rows, nm) && k <= |rows|
    ensures Measured(rows[..k], nm) && (k < |rows| ==> |rows[k].meas| == nm)
  {
  }

  /** Totals: every row's measures are added, with wrap-around. */
  ghost function SumsAfter(sums: seq<int>, rows: seq<Row>): (r: seq<int>)
    requires Measured(rows, |sums|)
    ensures |r| == |sums|
  {
    if rows == [] then sums
    else AddMeasures(SumsAfter(sums, rows[..|rows| - 1]), rows[|rows| - 1].meas)
  }

  /** The in-memory writer multiplies as uint64: the remainder of the product taken modulo 2^64. */
  function TreeTerm(n: int, m: int): (r: int)
    ensures 0 <= r < MEASBOUND
  {
    ((n * m) % TWO64) % MEASBOUND
  }

  /** The merge multiplies as int64, and the remainder has the sign of the product. */
  function MergeTerm(n: int, m: int): (r: int)
    ensures -MEASBOUND < r < MEASBOUND
  {
    var w := Wrap64(n * m);
    if w >= 0 then w % MEASBOUND else -((-w) % MEASBOUND)
  }

  /** As an unsigned number, a negative 64-bit value is larger by 2^64. */
  lemma Unsigned(x: int)
    ensures x % TWO64 == if Wrap64(x) >= 0 then Wrap64(x) else Wrap64(x) + TWO64
  {
    var w := Wrap64(x);
    var q := (w - x) / TWO64;
    if w >= 0 { DivIs(x, TWO64, -q, w); } else { DivIs(x, TWO64, -q - 1, w + TWO64); }
  }

  lemma NotBoth(w: int)
    requires (w + TWO64) % MEASBOUND == 0
    ensures (-w) % MEASBOUND != 0
  {
    if (-w) % MEASBOUND == 0 {
      var a, b := (w + TWO64) / MEASBOUND, (-w) / MEASBOUND;
      DivIs(TWO64, MEASBOUND, a + b, 0);
    }
  }

  /** While the product of a number and a measure is a 64-bit number that is not negative, both terms are its remainder
      modulo 31415. */
  lemma TermIs(n: int, m: int)
    requires 0 <= n * m < TWO63
    ensures TreeTerm(n, m) == MergeTerm(n, m) && 0 <= TreeTerm(n, m) < 31415 && (n * m - TreeTerm(n, m)) % 31415 == 0
  {
    TermOf(n * m);
  }

  lemma TermOf(x: int)
    requires 0 <= x < TWO63
    ensures Wrap64(x) == x == x % TWO64 && 0 <= x % 31415 < 31415 && (x - x % 31415) % 31415 == 0
  {
    DivIs(x, TWO64, 0, x);
    DivIs(x - x % 31415, 31415, x / 31415, 0);
  }

  /** The two terms agree exactly when the 64-bit product is not negative. */
  lemma TermsAgree(n: int, m: int)
    ensures TreeTerm(n, m) == MergeTerm(n, m) <==> Wrap64(n * m) >= 0
  {
    var x := n * m;
    hide Wrap64;
    Unsigned(x);
    if Wrap64(x) < 0 && (Wrap64(x) + TWO64) % MEASBOUND == 0 { NotBoth(Wrap64(x)); }
  }

  function AddTree(checks: seq<int>, order: int, meas: seq<int>): (r: seq<int>)
    requires |checks| == |meas|
    ensures |r| == |checks| && forall i :: 0 <= i < |r| ==> r[i] == Wrap64(checks[i] + TreeTerm(order + i + 1, meas[i]))
  {
    seq(|checks|, i requires 0 <= i < |checks| => Wrap64(checks[i] + TreeTerm(order + i + 1, meas[i])))
  }

  function AddMerge(checks: seq<int>, n: int, meas: seq<int>): (r: seq<int>)
    requires |checks| == |meas|
    ensures |r| == |checks| && forall i :: 0 <= i < |r| ==> r[i] == Wrap64(checks[i] + MergeTerm(n, meas[i]))
  {
    seq(|checks|, i requires 0 <= i < |checks| => Wrap64(checks[i] + MergeTerm(n, meas[i])))
  }

  /** The in-memory writer: the order number advances once per measure. */
  ghost function TreeChecks(checks: seq<int>, order: int, rows: seq<Row>): (r: seq<int>)
    requires Measured(rows, |checks|)
    ensures |r| == |checks|
  {
    if rows == [] then checks
    else
      var n := |rows| - 1;
      AddTree(TreeChecks(checks, order, rows[..n]), order + n * |checks|, rows[n].meas)
  }

  /** The merge: the order number is that of the row, counted from 1. */
  ghost function MergeChecks(checks: seq<int>, rows: seq<Row>): (r: seq<int>)
    requires Measured(rows, |checks|)
    ensures |r| == |checks|
  {
    if rows == [] then checks
    else
      var n := |rows| - 1;
      AddMerge(MergeChecks(checks, rows[..n]), n + 1, rows[n].meas)
  }

  lemma {:induction false} SumsConcat(sums: seq<int>, a: seq<Row>, b: seq<Row>)
    requires Measured(a, |sums|) && Measured(b, |sums|)
    ensures Measured(a + b, |sums|)
    ensures SumsAfter(sums, a + b) == SumsAfter(SumsAfter(sums, a), b)
  {
    if b == [] {
      assert a + b == a;
    } else {
      var n := |b| - 1;
      SumsConcat(sums, a, b[..n]);
      assert (a + b)[..|a + b| - 1] == a + b[..n];
    }
  }

  lemma {:induction false} TreeChecksConcat(checks: seq<int>, order: int, a: seq<Row>, b: seq<Row>)
    requires Measured(a, |checks|) && Measured(b, |checks|)
    ensures Measured(a + b, |checks|)
    ensures TreeChecks(checks, order, a + b) == TreeChecks(TreeChecks(checks, order, a), order + |a| * |checks|, b)
  {
    if b == [] {
      assert a + b == a;
    } else {
      hide AddTree;
      var n := |b| - 1;
      TreeChecksConcat(checks, order, a, b[..n]);
      assert (a + b)[..|a + b| - 1] == a + b[..n];
      Distribute(|a|, n, |checks|);
    }
  }

  // ---- When the two checksums agree ---------------------------------------------------------------

  /** No product of a row number and a measure leaves the non-negative int64 values. */
  ghost predicate Representable(rows: seq<Row>) {
    forall p, i :: 0 <= p < |rows| && 0 <= i < |rows[p].meas| ==> Wrap64((p + 1) * rows[p].meas[i]) >= 0
  }

  ghost predicate WritersAgree(checks: seq<int>, rows: seq<Row>)
    requires Measured(rows, |checks|)
  {
    TreeChecks(checks, 0, rows) == MergeChecks(checks, rows)
  }

  /** By how much the in-memory term is above the merge's term. */
  function TermExcess(n: int, m: int): int { TreeTerm(n, m) - MergeTerm(n, m) }

  /** A wrong term is always too large, never too small. */
  lemma TermExcessIs(n: int, m: int)
    ensures 0 <= TermExcess(n, m) < 2 * MEASBOUND && (TermExcess(n, m) == 0 <==> Wrap64(n * m) >= 0)
  {
    TermsAgree(n, m);
    hide Wrap64;
    Unsigned(n * m);
  }

  /** The number that the in-memory writer gives to measure i of row p. */
  function OrderOf(p: int, nm: int, i: int): int { p * nm + i + 1 }

  /** The differences of the terms of measure i, added up as integers. The writers number the terms of row p
      differently. */
  ghost function Excess(rows: seq<Row>, i: nat, nm: nat): int
    requires Measured(rows, nm) && i < nm
  {
    if rows == [] then 0
    else
      var n := |rows| - 1;
      MeasuredPrefix(rows, nm, n);
      Excess(rows[..n], i, nm) + TreeTerm(OrderOf(n, nm, i), rows[n].meas[i]) - MergeTerm(n + 1, rows[n].meas[i])
  }

  lemma TermBounds(n: int, k: int, m: int)
    ensures -(2 * MEASBOUND) < TreeTerm(n, m) - MergeTerm(k, m) < 2 * MEASBOUND
  {
  }

  lemma {:induction false} ExcessBound(rows: seq<Row>, i: nat, nm: nat)
    requires Measured(rows, nm) && i < nm
    ensures -(|rows| * (2 * MEASBOUND)) <= Excess(rows, i, nm) <= |rows| * (2 * MEASBOUND)
  {
    if rows != [] {
      hide TreeTerm, MergeTerm, Measured, OrderOf;
      var n := |rows| - 1;
      MeasuredPrefix(rows, nm, n);
      ExcessBound(rows[..n], i, nm);
      MeasuredRow(rows, nm, n);
      TermBounds(OrderOf(n, nm, i), n + 1, rows[n].meas[i]);
      OneMore(n, 2 * MEASBOUND);
    }
  }

  lemma MeasuredRow(rows: seq<Row>, nm: nat, p: nat)
    requires Measured(rows, nm) && p < |rows|
    ensures |rows[p].meas| == nm
  {
  }

  /** With one measure wrong terms add up, so that they cannot make up for each other. */
  lemma {:induction false} ExcessIs(rows: seq<Row>)
    requires Measured(rows, 1)
    ensures 0 <= Excess(rows, 0, 1) && (Excess(rows, 0, 1) == 0 <==> Representable(rows))
  {
    if rows != [] {
      var n := |rows| - 1;
      ExcessIs(rows[..n]);
      TermExcessIs(n + 1, rows[n].meas[0]);
      assert OrderOf(n, 1, 0) == n + 1;
      RepresentableNext(rows);
    }
  }

  lemma RepresentableNext(rows: seq<Row>)
    requires Measured(rows, 1) && rows != []
    ensures var n := |rows| - 1;
      Representable(rows) <==> Representable(rows[..n]) && Wrap64((n + 1) * rows[n].meas[0]) >= 0
  {
    hide Wrap64;
    var n := |rows| - 1;
    if Representable(rows) {
      forall p, i | 0 <= p < n && 0 <= i < |rows[..n][p].meas| ensures Wrap64((p + 1) * rows[..n][p].meas[i]) >= 0 {
        assert rows[..n][p] == rows[p];
      }
    }
    if Representable(rows[..n]) && Wrap64((n + 1) * rows[n].meas[0]) >= 0 {
      forall p, i | 0 <= p < |rows| && 0 <= i < |rows[p].meas| ensures Wrap64((p + 1) * rows[p].meas[i]) >= 0 {
        if p < n { assert rows[..n][p] == rows[p]; }
      }
    }
  }

  /** x is above y by e, up to wrapping. */
  ghost predicate Above(x: int, y: int, e: int) { (x - y - e) % TWO64 == 0 }

  lemma {:induction false} ChecksDiffer(checks: seq<int>, rows: seq<Row>, i: nat)
    requires Measured(rows, |checks|) && i < |checks|
    ensures Above(TreeChecks(checks, 0, rows)[i], MergeChecks(checks, rows)[i], Excess(rows, i, |checks|))
  {
    hide TreeChecks, MergeChecks, Excess, Measured, Above;
    if rows == [] {
      NothingAbove(checks, i);
    } else {
      var n := |rows| - 1;
      MeasuredPrefix(rows, |checks|, n);
      ChecksDiffer(checks, rows[..n], i);
      ChecksStep(checks, rows, i);
    }
  }

  lemma NothingAbove(checks: seq<int>, i: nat)
    requires i < |checks|
    ensures Above(TreeChecks(checks, 0, [])[i], MergeChecks(checks, [])[i], Excess([], i, |checks|))
  {
    NothingChecked(checks);
    assert Excess([], i, |checks|) == 0;
  }

  lemma ChecksStep(checks: seq<int>, rows: seq<Row>, i: nat)
    requires Measured(rows, |checks|) && rows != [] && Measured(rows[..|rows| - 1], |checks|) && i < |checks|
    requires var init := rows[..|rows| - 1];
      Above(TreeChecks(checks, 0, init)[i], MergeChecks(checks, init)[i], Excess(init, i, |checks|))
    ensures Above(TreeChecks(checks, 0, rows)[i], MergeChecks(checks, rows)[i], Excess(rows, i, |checks|))
  {
    hide TreeChecks, MergeChecks, TreeTerm, MergeTerm, Wrap64, Excess, Above, OrderOf;
    var n, nm := |rows| - 1, |checks|;
    var x, y, e := TreeChecks(checks, 0, rows[..n])[i], MergeChecks(checks, rows[..n])[i], Excess(rows[..n], i, nm);
    LastTerms(checks, rows, i);
    WrapDifference(x, TreeTerm(OrderOf(n, nm, i), rows[n].meas[i]), y, MergeTerm(n + 1, rows[n].meas[i]), e);
  }

  lemma LastTerms(checks: seq<int>, rows: seq<Row>, i: nat)
    requires Measured(rows, |checks|) && rows != [] && Measured(rows[..|rows| - 1], |checks|) && i < |checks|
    ensures var n, nm := |rows| - 1, |checks|;
      |rows[n].meas| == nm &&
      TreeChecks(checks, 0, rows)[i] ==
        Wrap64(TreeChecks(checks, 0, rows[..n])[i] + TreeTerm(OrderOf(n, nm, i), rows[n].meas[i])) &&
      MergeChecks(checks, rows)[i] == Wrap64(MergeChecks(checks, rows[..n])[i] + MergeTerm(n + 1, rows[n].meas[i])) &&
      Excess(rows, i, nm) == Excess(rows[..n], i, nm) +
        (TreeTerm(OrderOf(n, nm, i), rows[n].meas[i]) - MergeTerm(n + 1, rows[n].meas[i]))
  {
    hide TreeTerm, MergeTerm, Wrap64, TreeChecks, MergeChecks, Excess, OrderOf;
    MeasuredRow(rows, |checks|, |rows| - 1);
    LastTreeTerm(checks, rows, i);
    LastMergeTerm(checks, rows, i);
    LastExcess(rows, i, |checks|);
  }

  lemma LastTreeTerm(checks: seq<int>, rows: seq<Row>, i: nat)
    requires Measured(rows, |checks|) && rows != [] && Measured(rows[..|rows| - 1], |checks|) && i < |checks|
    ensures var n, nm := |rows| - 1, |checks|;
      |rows[n].meas| == nm && TreeChecks(checks, 0, rows)[i] ==
        Wrap64(TreeChecks(checks, 0, rows[..n])[i] + TreeTerm(OrderOf(n, nm, i), rows[n].meas[i]))
  {
    hide *;
    LastRow(checks, rows);
    var n := |rows| - 1;
    TermInRow(TreeChecks(checks, 0, rows[..n]), n, rows[n].meas, i);
  }

  lemma TermInRow(checks: seq<int>, n: nat, meas: seq<int>, i: nat)
    requires |checks| == |meas| && i < |meas|
    ensures AddTree(checks, n * |checks|, meas)[i] == Wrap64(checks[i] + TreeTerm(OrderOf(n, |checks|, i), meas[i]))
  {
    hide TreeTerm, Wrap64;
  }

  lemma LastMergeTerm(checks: seq<int>, rows: seq<Row>, i: nat)
    requires Measured(rows, |checks|) && rows != [] && Measured(rows[..|rows| - 1], |checks|) && i < |checks|
    ensures var n := |rows| - 1;
      |rows[n].meas| == |checks| &&
      MergeChecks(checks, rows)[i] == Wrap64(MergeChecks(checks, rows[..n])[i] + MergeTerm(n + 1, rows[n].meas[i]))
  {
    hide MergeTerm, Wrap64, TreeChecks, MergeChecks, Measured;
    LastRow(checks, rows);
  }

  lemma LastRow(checks: seq<int>, rows: seq<Row>)
    requires Measured(rows, |checks|) && rows != [] && Measured(rows[..|rows| - 1], |checks|)
    ensures var n := |rows| - 1;
      |rows[n].meas| == |checks| &&
      TreeChecks(checks, 0, rows) == AddTree(TreeChecks(checks, 0, rows[..n]), n * |checks|, rows[n].meas) &&
      MergeChecks(checks, rows) == AddMerge(MergeChecks(checks, rows[..n]), n + 1, rows[n].meas)
  {
    hide AddTree, AddMerge;
    MeasuredRow(rows, |checks|, |rows| - 1);
  }

  lemma LastExcess(rows: seq<Row>, i: nat, nm: nat)
    requires Measured(rows, nm) && rows != [] && Measured(rows[..|rows| - 1], nm) && i < nm
    ensures var n := |rows| - 1;
      |rows[n].meas| == nm && Excess(rows, i, nm) == Excess(rows[..n], i, nm) +
        (TreeTerm(OrderOf(n, nm, i), rows[n].meas[i]) - MergeTerm(n + 1, rows[n].meas[i]))
  {
    hide TreeTerm, MergeTerm, OrderOf;
  }

  lemma WrapDifference(x: int, a: int, y: int, b: int, e: int)
    requires Above(x, y, e)
    ensures Above(Wrap64(x + a), Wrap64(y + b), e + (a - b))
  {
    var p, q, r := (x - y - e) / TWO64, (Wrap64(x + a) - (x + a)) / TWO64, (Wrap64(y + b) - (y + b)) / TWO64;
    DivIs(Wrap64(x + a) - Wrap64(y + b) - (e + (a - b)), TWO64, p + q - r, 0);
  }

  lemma ChecksRange(checks: seq<int>, rows: seq<Row>, i: nat)
    requires Measured(rows, |checks|) && rows != [] && i < |checks|
    ensures -TWO63 <= TreeChecks(checks, 0, rows)[i] < TWO63 && -TWO63 <= MergeChecks(checks, rows)[i] < TWO63
  {
  }

  lemma SmallExcess(x: int, y: int, e: int)
    requires Above(x, y, e) && -TWO63 <= x < TWO63 && -TWO63 <= y < TWO63 && -TWO63 <= e <= TWO63
    ensures e == 0 ==> x == y
    ensures x == y ==> e == 0
  {
    assert x - y - e == ((x - y - e) / TWO64) * TWO64;
  }

  ghost predicate NoExcess(rows: seq<Row>, i: int, nm: nat)
    requires Measured(rows, nm)
  {
    0 <= i < nm ==> Excess(rows, i, nm) == 0
  }

  lemma ExcessSmall(rows: seq<Row>, i: nat, nm: nat)
    requires Measured(rows, nm) && |rows| < 0x1_0000_0000 && i < nm
    ensures -TWO63 <= Excess(rows, i, nm) <= TWO63
  {
    hide Excess, Measured;
    ExcessBound(rows, i, nm);
  }

  lemma MeasureAgrees(checks: seq<int>, rows: seq<Row>, i: nat)
    requires Measured(rows, |checks|) && |rows| < 0x1_0000_0000 && i < |checks|
    ensures TreeChecks(checks, 0, rows)[i] == MergeChecks(checks, rows)[i] <==> NoExcess(rows, i, |checks|)
  {
    if rows == [] {
      NothingChecked(checks);
    } else {
      hide TreeChecks, MergeChecks, Excess, Measured, Above;
      ExcessSmall(rows, i, |checks|);
      ChecksDiffer(checks, rows, i);
      ChecksRange(checks, rows, i);
      SmallExcess(TreeChecks(checks, 0, rows)[i], MergeChecks(checks, rows)[i], Excess(rows, i, |checks|));
    }
  }

  /** The two writers compute the same checksums if and only if for every measure the differences of the terms add up to
      zero. The row count is a 32-bit number. */
  lemma MeasuresAgree(checks: seq<int>, rows: seq<Row>)
    requires Measured(rows, |checks|) && |rows| < 0x1_0000_0000
    ensures WritersAgree(checks, rows) <==> forall i :: 0 <= i < |checks| ==> NoExcess(rows, i, |checks|)
  {
    hide TreeChecks, MergeChecks, NoExcess;
    forall i | 0 <= i < |checks|
      ensures TreeChecks(checks, 0, rows)[i] == MergeChecks(checks, rows)[i] <==> NoExcess(rows, i, |checks|)
    {
      MeasureAgrees(checks, rows, i);
    }
  }

  /** With one measure the two writers compute the same checksum if and only if all products are representable. */
  lemma ChecksumsAgree(checks: seq<int>, rows: seq<Row>)
    requires |checks| == 1 && Measured(rows, 1) && |rows| < 0x1_0000_0000
    ensures WritersAgree(checks, rows) <==> Representable(rows)
  {
    hide WritersAgree, Representable, Excess;
    ExcessIs(rows);
    MeasuresAgree(checks, rows);
    assert NoExcess(rows, 0, 1) <==> Excess(rows, 0, 1) == 0;
  }

  /** One row with a measure of -1 already makes them differ. */
  lemma NegativeMeasureDiffers()
    ensures !WritersAgree([0], [Row([7], [-1])])
  {
    var rows := [Row([7], [-1])];
    TermExcessIs(1, -1);
    assert rows[0].meas[0] == -1 && Wrap64((0 + 1) * -1) < 0;
    ChecksumsAgree([0], rows);
  }

  /** With any number of measures: the terms of row p, as each of the two writers numbers them. */
  ghost predicate TermsOfRow(rows: seq<Row>, p: int)
    requires 0 <= p < |rows|
  {
    forall i :: 0 <= i < |rows[p].meas| ==>
      TreeTerm(p * |rows[p].meas| + i + 1, rows[p].meas[i]) == MergeTerm(p + 1, rows[p].meas[i])
  }

  ghost predicate AgreeAt(checks: seq<int>, rows: seq<Row>, k: int)
    requires Measured(rows, |checks|) && 0 <= k <= |rows|
  {
    WritersAgree(checks, rows[..k])
  }

  lemma WrapInjective(c: int, a: int, b: int)
    requires Wrap64(c + a) == Wrap64(c + b) && -TWO64 < a - b < TWO64
    ensures a == b
  {
    var p, q := (Wrap64(c + a) - (c + a)) / TWO64, (Wrap64(c + b) - (c + b)) / TWO64;
    assert a - b == (q - p) * TWO64;
  }

  lemma RowAgrees(checks: seq<int>, order: int, n: int, meas: seq<int>)
    requires |checks| == |meas|
    ensures AddTree(checks, order, meas) == AddMerge(checks, n, meas) <==>
            forall i :: 0 <= i < |meas| ==> TreeTerm(order + i + 1, meas[i]) == MergeTerm(n, meas[i])
  {
    hide Wrap64, TreeTerm, MergeTerm;
    if AddTree(checks, order, meas) == AddMerge(checks, n, meas) {
      forall i | 0 <= i < |meas| ensures TreeTerm(order + i + 1, meas[i]) == MergeTerm(n, meas[i]) {
        assert AddTree(checks, order, meas)[i] == AddMerge(checks, n, meas)[i];
        WrapInjective(checks[i], TreeTerm(order + i + 1, meas[i]), MergeTerm(n, meas[i]));
      }
    }
  }

  /** The writers agree after every row exactly when they agree on every term, measure by measure. */
  lemma {:induction false} PrefixesAgree(checks: seq<int>, rows: seq<Row>, n: nat)
    requires Measured(rows, |checks|) && n <= |rows|
    ensures (forall k :: 0 <= k <= n ==> AgreeAt(checks, rows, k)) <==> forall p :: 0 <= p < n ==> TermsOfRow(rows, p)
  {
    if n == 0 {
      assert rows[..0] == [];
    } else {
      hide AgreeAt, TermsOfRow;
      PrefixesAgree(checks, rows, n - 1);
      if AgreeAt(checks, rows, n - 1) { NextAgrees(checks, rows, n - 1); }
    }
  }

  lemma NextAgrees(checks: seq<int>, rows: seq<Row>, p: nat)
    requires Measured(rows, |checks|) && p < |rows| && AgreeAt(checks, rows, p)
    ensures AgreeAt(checks, rows, p + 1) <==> TermsOfRow(rows, p)
  {
    assert rows[..p + 1][..p] == rows[..p];
    ChecksNext(checks, rows, p);
    hide TreeChecks, MergeChecks, TreeTerm, MergeTerm;
    RowAgrees(MergeChecks(checks, rows[..p]), p * |checks|, p + 1, rows[p].meas);
  }

  lemma ChecksNext(checks: seq<int>, rows: seq<Row>, p: nat)
    requires Measured(rows, |checks|) && p < |rows|
    ensures TreeChecks(checks, 0, rows[..p + 1]) ==
              AddTree(TreeChecks(checks, 0, rows[..p]), p * |checks|, rows[p].meas)
    ensures MergeChecks(checks, rows[..p + 1]) == AddMerge(MergeChecks(checks, rows[..p]), p + 1, rows[p].meas)
  {
    assert rows[..p + 1][..p] == rows[..p];
  }

  /** With two or more measures a single row of ones makes the checksums differ: the in-memory writer has numbered the
      second measure as if it belonged to a second row. */
  lemma ChecksumsDiffer(nm: nat)
    requires nm >= 2
    ensures Representable([Row([7], Ones(nm))]) && Measured([Row([7], Ones(nm))], nm)
    ensures !WritersAgree(Zeros(nm), [Row([7], Ones(nm))])
  {
    var rows := [Row([7], Ones(nm))];
    OnesDiffer();
    hide TreeTerm, MergeTerm, Wrap64, TreeChecks, MergeChecks;
    assert rows[..0] == [] && rows[..1] == rows;
    NothingChecked(Zeros(nm));
    NextAgrees(Zeros(nm), rows, 0);
    assert rows[0].meas[1] == 1 && 0 * nm + 1 + 1 == 2;
  }

  lemma OnesDiffer()
    ensures TreeTerm(2, 1) != MergeTerm(1, 1) && Wrap64((0 + 1) * 1) >= 0
  {
    assert TreeTerm(2, 1) == 2 && MergeTerm(1, 1) == 1;
  }

  lemma NothingChecked(checks: seq<int>)
    ensures TreeChecks(checks, 0, []) == checks && MergeChecks(checks, []) == checks
  {
  }

  function Ones(n: nat): (r: seq<int>)
    ensures |r| == n && forall i :: 0 <= i < n ==> r[i] == 1
  {
    seq(n, _ => 1)
  }

  function Zeros(n: nat): (r: seq<int>)
    ensures |r| == n && forall i :: 0 <= i < n ==> r[i] == 0
  {
    seq(n, _ => 0)
  }

  /** Representable rows are enough for agreement exactly when there is at most one measure. */
  lemma OneMeasureOnly(nm: nat)
    ensures (forall rows ::
               Measured(rows, nm) && |rows| < 0x1_0000_0000 && Representable(rows) ==>
                 WritersAgree(Zeros(nm), rows)) <==>
            nm <= 1
  {
    hide TreeChecks, MergeChecks, Representable;
    if nm >= 2 {
      ChecksumsDiffer(nm);
      var rows := [Row([7], Ones(nm))];
      assert Measured(rows, nm) && Representable(rows) && !WritersAgree(Zeros(nm), rows);
    } else {
      forall rows | Measured(rows, nm) && |rows| < 0x1_0000_0000 && Representable(rows)
        ensures WritersAgree(Zeros(nm), rows)
      {
        if nm == 1 { ChecksumsAgree(Zeros(nm), rows); }
      }
    }
  }

  // ---- Conservation -------------------------------------------------------------------------------

  /** The totals are those of the single group that is left when no column is kept. */
  lemma {:induction false} SumsAre(rows: seq<Row>, nd: nat, nm: nat, i: nat)
    requires AllShaped(rows, nd, nm) && i < nm
    ensures SumsAfter(Zeros(nm), rows)[i] == Wrap64(Sum(Project(rows, [], nd, nm), [], i))
  {
    var zeros := Zeros(nm);
    if rows != [] {
      var n := |rows| - 1;
      var init, r := rows[..n], rows[n];
      SumsAre(init, nd, nm, i);
      ProjectConcat(init, [r], [], nd, nm);
      assert init + [r] == rows;
      var p := Project(init, [], nd, nm);
      assert Project([r], [], nd, nm) == [Row([], r.meas)];
      SumOne(p, Row([], r.meas), [], i);
      Wrap64Add(Sum(p, [], i), r.meas[i]);
    }
  }

  /** A view conserves the measures: its totals are the totals of the rows it was made from. */
  lemma TotalsConserved(rows: seq<Row>, nd: nat, nm: nat)
    requires AllShaped(rows, nd, nm)
    ensures AllShaped(Aggregate(rows), nd, nm) && SumsAfter(Zeros(nm), Aggregate(rows)) == SumsAfter(Zeros(nm), rows)
  {
    hide SumsAfter, Aggregate, Sum, SameGroups;
    ProjectAggregate(rows, [], nd, nm);
    var x, y := SumsAfter(Zeros(nm), Aggregate(rows)), SumsAfter(Zeros(nm), rows);
    forall i | 0 <= i < nm ensures x[i] == y[i] { OneTotal(rows, nd, nm, i); }
  }

  lemma OneTotal(rows: seq<Row>, nd: nat, nm: nat, i: nat)
    requires AllShaped(rows, nd, nm) && AllShaped(Aggregate(rows), nd, nm) && i < nm
    requires SameGroups(Project(Aggregate(rows), [], nd, nm), Project(rows, [], nd, nm))
    ensures SumsAfter(Zeros(nm), Aggregate(rows))[i] == SumsAfter(Zeros(nm), rows)[i]
  {
    hide SumsAfter, Aggregate, Sum;
    var a, b := Project(Aggregate(rows), [], nd, nm), Project(rows, [], nd, nm);
    SumsAre(rows, nd, nm, i);
    SumsAre(Aggregate(rows), nd, nm, i);
    assert SumsAgree(a, b, [], i);
    Wrap64Same(Sum(a, [], i), Sum(b, [], i));
  }

  // ---- Measures for which the checksums agree ------------------------------------------------------

  ghost predicate Bounded(rows: seq<Row>, bound: int) {
    forall k :: 0 <= k < |rows| ==> |rows[k].meas| == 1 && 0 <= rows[k].meas[0] <= bound
  }

  lemma {:induction false} SumBounded(rows: seq<Row>, d: seq<int>, bound: int)
    requires Bounded(rows, bound) && bound >= 0
    ensures 0 <= Sum(rows, d, 0) <= |rows| * bound
  {
    if rows != [] {
      SumBounded(rows[..|rows| - 1], d, bound);
      OneMore(|rows| - 1, bound);
    }
  }

  lemma ProductWithin(p: int, m: int, n: int, total: int)
    requires 0 <= p <= n && 0 <= m <= total
    ensures 0 <= p * m <= n * total
  {
    assert p * m <= n * m <= n * total;
  }

  /** Non-negative measures that are small enough for the number of rows: a condition on the input alone. */
  lemma SmallMeasures(rows: seq<Row>, nd: nat, bound: int)
    requires AllShaped(rows, nd, 1) && Bounded(rows, bound) && bound >= 0 && |rows| * (|rows| * bound) < TWO63
    ensures Representable(Aggregate(rows))
  {
    hide Aggregate, Sum, Wrap64, SortedRows;
    AggregateIs(rows, nd, 1);
    var out, n := Aggregate(rows), |rows|;
    AggregateSize(rows);
    forall p, i | 0 <= p < |out| && 0 <= i < |out[p].meas| ensures Wrap64((p + 1) * out[p].meas[i]) >= 0 {
      SumBounded(rows, out[p].dims, bound);
      assert Totals(out[p], rows) && Shaped(out[p], nd, 1);
      ProductWithin(1, Sum(rows, out[p].dims, 0), n, n * bound);
      Wrap64Id(Sum(rows, out[p].dims, 0));
      ProductWithin(p + 1, out[p].meas[0], n, n * bound);
      Wrap64Id((p + 1) * out[p].meas[0]);
    }
  }

  lemma {:induction false} AggregateSize(rows: seq<Row>)
    ensures |Aggregate(rows)| <= |rows|
  {
    if rows != [] { AggregateSize(rows[..|rows| - 1]); }
  }
}
