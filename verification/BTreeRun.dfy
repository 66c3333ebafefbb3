/** Whole runs: whatever is inserted and deleted, in whatever order, a B+ tree of any order behaves as a plain map. */
module BTreeRun {
  import opened BTreeModel
  import opened BTreeChain
  import opened BTreeEntries
  import opened BTreeState
  import opened BTreeRange
  import opened BTreeSeparators
  import opened BTree

  datatype Op = Put(key: int, value: int) | Remove(key: int)
  datatype Option<T> = None | Some(value: T)

  ghost predicate InRange(ops: seq<Op>) {
    forall i :: 0 <= i < |ops| ==> 0 <= ops[i].key < KEY_LIMIT
  }

  /** The plain map after the operations. */
  ghost function After(ops: seq<Op>): map<int, int> {
    if ops == [] then map[]
    else
      var m := After(ops[..|ops| - 1]);
      match ops[|ops| - 1]
      case Put(k, v) => m[k := v]
      case Remove(k) => m - {k}
  }

  /** The keys ever inserted. */
  ghost function PutKeys(ops: seq<Op>): set<int> {
    if ops == [] then {}
    else
      PutKeys(ops[..|ops| - 1]) +
      match ops[|ops| - 1]
      case Put(k, v) => {k}
      case Remove(k) => {}
  }

  method Run(order: nat, ops: seq<Op>) returns (tree: BPlusTree)
    requires order >= 3 && InRange(ops)
    ensures fresh(tree) && tree.order == order && tree.Valid() && tree.Model == After(ops)
    ensures tree.Known() <= PutKeys(ops)
  {
    tree := new BPlusTree(order);
    for n := 0 to |ops|
      invariant fresh(tree) && tree.order == order && tree.Valid() && tree.Model == After(ops[..n])
      invariant tree.Known() <= PutKeys(ops[..n])
    {
      assert ops[..n + 1][..n] == ops[..n];
      match ops[n] {
        case Put(k, v) => tree.Insert(k, v);
        case Remove(k) => tree.Delete(k);
      }
    }
    assert ops[..|ops|] == ops;
  }

  method FindAfter(order: nat, ops: seq<Op>, key: int) returns (r: Option<int>)
    requires order >= 3 && InRange(ops) && 0 <= key < KEY_LIMIT
    ensures r == if key in After(ops) then Some(After(ops)[key]) else None
  {
    var tree := Run(order, ops);
    var rec, leaf := tree.Find(key);
    if rec.Null? {
      r := None;
    } else {
      r := Some(tree.records[rec.record]);
    }
  }

  lemma RangeOfModel(m: map<int, int>, K: seq<int>, P: seq<Pointer>, records: map<RecordId, int>, a: int, b: int)
    requires Represents(m, K, P, records)
    ensures var rk, rp := RangeKeys(K, a, b), RangePtrs(K, P, a, b);
      |rk| == |rp| && Ascending(rk) && (forall k :: k in m && a <= k <= b ==> k in rk) &&
      forall q :: 0 <= q < |rk| ==>
        a <= rk[q] <= b && rp[q].ToRecord? && rp[q].record in records && rk[q] in m && m[rk[q]] == records[rp[q].record]
  {
    hide RangeKeys, RangePtrs;
    RangeLength(K, P, a, b);
    RangeAscending(K, a, b);
    var rk, rp := RangeKeys(K, a, b), RangePtrs(K, P, a, b);
    forall k | k in m && a <= k <= b ensures k in rk { RangeMember(K, a, b, k); }
    forall q | 0 <= q < |rk|
      ensures a <= rk[q] <= b && rp[q].ToRecord? && rp[q].record in records && rk[q] in m &&
              m[rk[q]] == records[rp[q].record]
    {
      RangeMember(K, a, b, rk[q]);
      var i := RangePair(K, P, a, b, q);
    }
  }

  method ReadRecords(rp: seq<Pointer>, records: map<RecordId, int>) returns (rv: seq<int>)
    requires forall q :: 0 <= q < |rp| ==> rp[q].ToRecord? && rp[q].record in records
    ensures |rv| == |rp| && forall q :: 0 <= q < |rp| ==> rv[q] == records[rp[q].record]
  {
    rv := [];
    for n := 0 to |rp|
      invariant |rv| == n && forall q :: 0 <= q < n ==> rv[q] == records[rp[q].record]
    {
      rv := rv + [records[rp[n].record]];
    }
  }

  /** Every binding with a key in [a, b] is among the keys. */
  ghost predicate Complete(m: map<int, int>, a: int, b: int, rk: seq<int>) {
    forall k :: k in m && a <= k <= b ==> k in rk
  }

  /** The range query of a run reports bindings with keys in [a, b], in ascending key order. It reports all of them,
      unless the leaf responsible for a has no key as large as a while there are bindings in range; then it reports
      none. If a is bound, it reports all. */
  method FindRangeAfter(order: nat, ops: seq<Op>, a: int, b: int) returns (rk: seq<int>, rv: seq<int>, tree: BPlusTree)
    requires order >= 3 && InRange(ops) && 0 <= a < KEY_LIMIT
    ensures fresh(tree) && tree.order == order && tree.Valid() && tree.Model == After(ops)
    ensures tree.Known() <= PutKeys(ops)
    ensures |rk| == |rv| && Ascending(rk)
    ensures forall q :: 0 <= q < |rk| ==> a <= rk[q] <= b && rk[q] in After(ops) && After(ops)[rk[q]] == rv[q]
    ensures Complete(After(ops), a, b, rk) <==> tree.root.Null? || !GivesUp(tree.t, a) || Complete(After(ops), a, b, [])
    ensures !tree.root.Null? && GivesUp(tree.t, a) ==> rk == []
    ensures a in After(ops) ==> Complete(After(ops), a, b, rk)
  {
    hide Good, Represents, GivesUp, RangeKeys, RangePtrs;
    tree := Run(order, ops);
    var rp;
    rk, rp := tree.FindRange(a, b);
    rv := [];
    if !tree.root.Null? && !GivesUp(tree.t, a) {
      RangeOfModel(tree.Model, FlatKeys(tree.t, tree.leaves), FlatPtrs(tree.t, tree.leaves), tree.records, a, b);
    }
    if rk != [] {
      rv := ReadRecords(rp, tree.records);
    }
  }

  // Runs that delete nothing

  ghost predicate OnlyPuts(ops: seq<Op>) {
    forall i :: 0 <= i < |ops| ==> ops[i].Put?
  }

  lemma {:induction false} OnlyPutsKeys(ops: seq<Op>)
    requires OnlyPuts(ops)
    ensures PutKeys(ops) == After(ops).Keys
  {
    if ops != [] { OnlyPutsKeys(ops[..|ops| - 1]); }
  }

  /** The range query of a run that deletes nothing misses bindings exactly when its start lies between the last key
      of a leaf and the first key of the next leaf and that first key is in range. */
  method FindRangeAfterPuts(order: nat, ops: seq<Op>, a: int, b: int)
    returns (rk: seq<int>, rv: seq<int>, tree: BPlusTree)
    requires order >= 3 && InRange(ops) && OnlyPuts(ops) && 0 <= a < KEY_LIMIT
    ensures fresh(tree) && tree.order == order && tree.Valid() && tree.Model == After(ops)
    ensures forall q :: 0 <= q < |rk| ==> a <= rk[q] <= b && rk[q] in After(ops)
    ensures tree.root.Null? ==> Complete(After(ops), a, b, rk)
    ensures !tree.root.Null? ==>
      (Complete(After(ops), a, b, rk) <==> !exists j :: Between(tree.t, tree.leaves, j, a, b))
  {
    OnlyPutsKeys(ops);
    rk, rv, tree := FindRangeAfter(order, ops, a, b);
    if !tree.root.Null? {
      hide Good, Represents, GivesUp, AllKeys, Between;
      assert AllBound(tree.t, tree.leaves, tree.Model, tree.records) by { GoodParts(tree); }
      LosesExactly(tree.t, tree.leaves, tree.Model, tree.records, a, b);
    }
  }

  lemma GoodParts(tree: BPlusTree)
    requires tree.Valid() && !tree.root.Null?
    ensures Wf(tree.t) && Chain(tree.t, tree.leaves)
  {
  }

  lemma SampleKeys(v: int)
    ensures PutKeys([Put(1, v), Put(5, v), Put(9, v)]) == {1, 5, 9}
  {
    var s := [Put(1, v), Put(5, v), Put(9, v)];
    assert s[..2] == [Put(1, v), Put(5, v)] && s[..2][..1] == [Put(1, v)] && s[..2][..1][..0] == [];
    assert PutKeys([Put(1, v)]) == {1};
    assert PutKeys([Put(1, v), Put(5, v)]) == {1, 5};
  }

  /** The early return of find_range loses bindings in a run: at order 3, after the insertion of 1, 5 and 9, the query
      for [4, 9] or the query for [8, 9] finds nothing. */
  method EarlyReturnLosesBindings(v: int) returns (r4: seq<int>, r8: seq<int>)
    ensures var m := After([Put(1, v), Put(5, v), Put(9, v)]); !Complete(m, 4, 9, r4) || !Complete(m, 8, 9, r8)
    ensures r4 == [] || r8 == []
  {
    var ops := [Put(1, v), Put(5, v), Put(9, v)];
    SampleKeys(v);
    OnlyPutsKeys(ops);
    var tree := Run(3, ops);
    OneGapOfTwo(tree.root, tree.nodes, tree.t, tree.leaves, tree.Model, tree.records);
    var p4, p8;
    r4, p4 := tree.FindRange(4, 9);
    r8, p8 := tree.FindRange(8, 9);
  }
}
