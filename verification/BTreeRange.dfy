/** Range queries along the chain of leaves. */
module BTreeRange {
  import opened BTreeModel
  import opened BTreeChain

  /** The keys of a list that lie in [a, b], in order; RangePtrs are the pointers beside them. */
  ghost function RangeKeys(keys: seq<int>, a: int, b: int): seq<int> {
    if keys == [] then [] else (if a <= keys[0] <= b then [keys[0]] else []) + RangeKeys(keys[1..], a, b)
  }

  ghost function RangePtrs(keys: seq<int>, ptrs: seq<Pointer>, a: int, b: int): seq<Pointer>
    requires |keys| == |ptrs|
  {
    if keys == [] then [] else (if a <= keys[0] <= b then [ptrs[0]] else []) + RangePtrs(keys[1..], ptrs[1..], a, b)
  }

  lemma RangeConcat(k1: seq<int>, p1: seq<Pointer>, k2: seq<int>, p2: seq<Pointer>, a: int, b: int)
    requires |k1| == |p1| && |k2| == |p2|
    ensures RangeKeys(k1 + k2, a, b) == RangeKeys(k1, a, b) + RangeKeys(k2, a, b)
    ensures RangePtrs(k1 + k2, p1 + p2, a, b) == RangePtrs(k1, p1, a, b) + RangePtrs(k2, p2, a, b)
  {
    RangeKeysConcat(k1, k2, a, b);
    RangePtrsConcat(k1, p1, k2, p2, a, b);
  }

  lemma {:induction false} RangeKeysConcat(k1: seq<int>, k2: seq<int>, a: int, b: int)
    ensures RangeKeys(k1 + k2, a, b) == RangeKeys(k1, a, b) + RangeKeys(k2, a, b)
  {
    if k1 == [] {
      assert k1 + k2 == k2;
    } else {
      assert (k1 + k2)[1..] == k1[1..] + k2;
      RangeKeysConcat(k1[1..], k2, a, b);
    }
  }

  lemma {:induction false} RangePtrsConcat(k1: seq<int>, p1: seq<Pointer>, k2: seq<int>, p2: seq<Pointer>, a: int,
      b: int)
    requires |k1| == |p1| && |k2| == |p2|
    ensures RangePtrs(k1 + k2, p1 + p2, a, b) == RangePtrs(k1, p1, a, b) + RangePtrs(k2, p2, a, b)
  {
    if k1 == [] {
      assert k1 + k2 == k2 && p1 + p2 == p2;
    } else {
      assert (k1 + k2)[1..] == k1[1..] + k2 && (p1 + p2)[1..] == p1[1..] + p2;
      RangePtrsConcat(k1[1..], p1[1..], k2, p2, a, b);
    }
  }

  lemma {:induction false} RangeNone(keys: seq<int>, ptrs: seq<Pointer>, a: int, b: int)
    requires |keys| == |ptrs| && forall i :: 0 <= i < |keys| ==> !(a <= keys[i] <= b)
    ensures RangeKeys(keys, a, b) == [] && RangePtrs(keys, ptrs, a, b) == []
  {
    if keys != [] { RangeNone(keys[1..], ptrs[1..], a, b); }
  }

  lemma {:induction false} RangeAll(keys: seq<int>, ptrs: seq<Pointer>, a: int, b: int)
    requires |keys| == |ptrs| && forall i :: 0 <= i < |keys| ==> a <= keys[i] <= b
    ensures RangeKeys(keys, a, b) == keys && RangePtrs(keys, ptrs, a, b) == ptrs
  {
    if keys != [] { RangeAll(keys[1..], ptrs[1..], a, b); }
  }

  lemma RangePrefix(k1: seq<int>, p1: seq<Pointer>, k2: seq<int>, p2: seq<Pointer>, a: int, b: int)
    requires |k1| == |p1| && |k2| == |p2| && RangeKeys(k1, a, b) == [] && RangePtrs(k1, p1, a, b) == []
    ensures RangeKeys(k1 + k2, a, b) == RangeKeys(k2, a, b) &&
            RangePtrs(k1 + k2, p1 + p2, a, b) == RangePtrs(k2, p2, a, b)
  {
    hide RangeKeys, RangePtrs;
    RangeConcat(k1, p1, k2, p2, a, b);
  }

  lemma RangeSuffix(k1: seq<int>, p1: seq<Pointer>, k2: seq<int>, p2: seq<Pointer>, a: int, b: int)
    requires |k1| == |p1| && |k2| == |p2| && RangeKeys(k2, a, b) == [] && RangePtrs(k2, p2, a, b) == []
    ensures RangeKeys(k1 + k2, a, b) == RangeKeys(k1, a, b) &&
            RangePtrs(k1 + k2, p1 + p2, a, b) == RangePtrs(k1, p1, a, b)
  {
    hide RangeKeys, RangePtrs;
    RangeConcat(k1, p1, k2, p2, a, b);
  }

  lemma RangeThree(k1: seq<int>, p1: seq<Pointer>, k2: seq<int>, p2: seq<Pointer>, k3: seq<int>, p3: seq<Pointer>,
      a: int, b: int)
    requires |k1| == |p1| && |k2| == |p2| && |k3| == |p3|
    requires forall q :: 0 <= q < |k1| ==> k1[q] < a
    requires forall q :: 0 <= q < |k2| ==> a <= k2[q] <= b
    requires forall q :: 0 <= q < |k3| ==> b < k3[q]
    ensures RangeKeys(k1 + k2 + k3, a, b) == k2 && RangePtrs(k1 + k2 + k3, p1 + p2 + p3, a, b) == p2
  {
    hide RangeKeys, RangePtrs;
    RangeNone(k1, p1, a, b);
    RangeAll(k2, p2, a, b);
    RangeNone(k3, p3, a, b);
    RangePrefix(k1, p1, k2, p2, a, b);
    RangeSuffix(k1 + k2, p1 + p2, k3, p3, a, b);
  }

  /** A sorted list cut where its keys reach a and where they pass b. */
  lemma RangeSlice(keys: seq<int>, ptrs: seq<Pointer>, a: int, b: int, i: nat, j: nat)
    requires |keys| == |ptrs| && Ascending(keys) && i <= j <= |keys|
    requires (forall q :: 0 <= q < i ==> keys[q] < a) && (i < |keys| ==> a <= keys[i])
    requires (forall q :: i <= q < j ==> keys[q] <= b) && (j < |keys| ==> b < keys[j])
    ensures RangeKeys(keys, a, b) == keys[i..j] && RangePtrs(keys, ptrs, a, b) == ptrs[i..j]
  {
    hide RangeKeys, RangePtrs;
    assert keys[..i] + keys[i..j] + keys[j..] == keys && ptrs[..i] + ptrs[i..j] + ptrs[j..] == ptrs;
    forall q | i <= q < |keys| ensures a <= keys[q] {}
    forall q | j <= q < |keys| ensures b < keys[q] {}
    RangeThree(keys[..i], ptrs[..i], keys[i..j], ptrs[i..j], keys[j..], ptrs[j..], a, b);
  }

  /** What find_range has collected when it leaves leaf m of the chain. */
  lemma RangeExtends(t: Links, leaves: seq<NodeId>, m: nat, a: int, b: int)
    requires Wf(t) && Chain(t, leaves) && AllIn(t, leaves) && m < |leaves|
    ensures |FlatKeys(t, leaves[..m])| == |FlatPtrs(t, leaves[..m])| &&
            |FlatKeys(t, leaves[..m + 1])| == |FlatPtrs(t, leaves[..m + 1])|
    ensures |t[leaves[m]].keys| == |t[leaves[m]].ptrs|
    ensures RangeKeys(FlatKeys(t, leaves[..m + 1]), a, b) ==
              RangeKeys(FlatKeys(t, leaves[..m]), a, b) + RangeKeys(t[leaves[m]].keys, a, b)
    ensures RangePtrs(FlatKeys(t, leaves[..m + 1]), FlatPtrs(t, leaves[..m + 1]), a, b) ==
            RangePtrs(FlatKeys(t, leaves[..m]), FlatPtrs(t, leaves[..m]), a,
                b) + RangePtrs(t[leaves[m]].keys, t[leaves[m]].ptrs, a, b)
  {
    FlatBefore(t, leaves, m);
    assert LeafAt(t, leaves, m) && NodeWf(t, leaves[m]);
    assert leaves[..m + 1] == leaves[..m] + [leaves[m]];
    FlatConcat(t, leaves[..m], [leaves[m]]);
    FlatOne(t, leaves[m]);
    RangeConcat(FlatKeys(t, leaves[..m]), FlatPtrs(t, leaves[..m]), t[leaves[m]].keys, t[leaves[m]].ptrs, a, b);
  }

  /** Leaves before the one responsible for a contribute nothing. */
  lemma RangeStarts(t: Links, leaves: seq<NodeId>, j: nat, a: int, b: int)
    requires Wf(t) && Chain(t, leaves) && AllIn(t, leaves) && j < |leaves| && t[leaves[j]].lo <= a
    ensures |FlatKeys(t, leaves[..j])| == |FlatPtrs(t, leaves[..j])|
    ensures RangeKeys(FlatKeys(t, leaves[..j]), a, b) == [] &&
            RangePtrs(FlatKeys(t, leaves[..j]), FlatPtrs(t, leaves[..j]), a, b) == []
  {
    FlatBefore(t, leaves, j);
    RangeNone(FlatKeys(t, leaves[..j]), FlatPtrs(t, leaves[..j]), a, b);
  }

  /** The test at which find_range gives up: the leaf responsible for a has no key as large as a. */
  ghost predicate GivesUp(t: Links, a: int) {
    exists x ::
      x in t && t[x].level == 0 && t[x].lo <= a < t[x].hi && forall i :: 0 <= i < |t[x].keys| ==> t[x].keys[i] < a
  }

  lemma GivesUpAt(t: Links, leaves: seq<NodeId>, x: NodeId, a: int)
    requires Wf(t) && Chain(t, leaves) && x in t && t[x].level == 0 && t[x].lo <= a < t[x].hi
    ensures GivesUp(t, a) <==> forall i :: 0 <= i < |t[x].keys| ==> t[x].keys[i] < a
  {
    forall y | y in t && t[y].level == 0 && t[y].lo <= a < t[y].hi ensures y == x {
      var i := LeafIndex(t, leaves, x);
      var j := LeafIndex(t, leaves, y);
      if i < j { LeavesAscend(t, leaves, i, j); } else if j < i { LeavesAscend(t, leaves, j, i); }
    }
  }

  /** In every later leaf the first key already is as large as a. */
  lemma LaterLeaf(t: Links, leaves: seq<NodeId>, j: nat, m: nat, a: int)
    requires Wf(t) && Chain(t, leaves) && j < m < |leaves| && leaves[j] in t && a < t[leaves[j]].hi
    ensures leaves[m] in t && forall q :: 0 <= q < |t[leaves[m]].keys| ==> a <= t[leaves[m]].keys[q]
  {
    LeavesAscend(t, leaves, j, m);
    assert NodeWf(t, leaves[m]);
  }

  lemma LeafSorted(t: Links, leaves: seq<NodeId>, m: nat)
    requires Wf(t) && Chain(t, leaves) && m < |leaves|
    ensures leaves[m] in t && leaves[m] != TOP && t[leaves[m]].level == 0 && Ascending(t[leaves[m]].keys) &&
            |t[leaves[m]].keys| == |t[leaves[m]].ptrs|
    ensures t[leaves[m]].next == if m + 1 < |leaves| then ToNode(leaves[m + 1]) else Null
  {
    assert LeafAt(t, leaves, m) && NodeWf(t, leaves[m]);
  }

  lemma {:induction false} RangeMember(keys: seq<int>, a: int, b: int, k: int)
    ensures k in RangeKeys(keys, a, b) <==> k in keys && a <= k <= b
  {
    if keys != [] { RangeMember(keys[1..], a, b, k); }
  }

  lemma {:induction false} RangeAscending(keys: seq<int>, a: int, b: int)
    requires Ascending(keys)
    ensures Ascending(RangeKeys(keys, a, b))
  {
    if keys != [] {
      RangeAscending(keys[1..], a, b);
      var tk := RangeKeys(keys[1..], a, b);
      forall q | 0 <= q < |tk| ensures keys[0] < tk[q] { RangeMember(keys[1..], a, b, tk[q]); }
    }
  }

  /** Where the q-th selected entry stood. */
  lemma {:induction false} RangePair(keys: seq<int>, ptrs: seq<Pointer>, a: int, b: int, q: nat) returns (i: nat)
    requires |keys| == |ptrs| && q < |RangeKeys(keys, a, b)|
    ensures |RangeKeys(keys, a, b)| == |RangePtrs(keys, ptrs, a, b)|
    ensures i < |keys| && keys[i] == RangeKeys(keys, a, b)[q] && ptrs[i] == RangePtrs(keys, ptrs, a, b)[q]
  {
    RangeLength(keys, ptrs, a, b);
    var d := if a <= keys[0] <= b then 1 else 0;
    if q < d {
      i := 0;
    } else {
      i := RangePair(keys[1..], ptrs[1..], a, b, q - d);
      i := i + 1;
    }
  }

  lemma {:induction false} RangeLength(keys: seq<int>, ptrs: seq<Pointer>, a: int, b: int)
    requires |keys| == |ptrs|
    ensures |RangeKeys(keys, a, b)| == |RangePtrs(keys, ptrs, a, b)|
  {
    if keys != [] { RangeLength(keys[1..], ptrs[1..], a, b); }
  }
}
