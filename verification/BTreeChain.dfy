/** The chain of leaves and the entries read along it. */
module BTreeChain {
  import opened SeqEdit
  import opened BTreeModel

  ghost predicate LeafAt(t: Links, leaves: seq<NodeId>, j: nat)
    requires j < |leaves|
  {
    leaves[j] in t && t[leaves[j]].level == 0 &&
    t[leaves[j]].next == (if j + 1 < |leaves| then ToNode(leaves[j + 1]) else Null) &&
    (if j == 0 then t[leaves[j]].lo == 0 else leaves[j - 1] in t && t[leaves[j]].lo == t[leaves[j - 1]].hi) &&
    (j + 1 == |leaves| ==> t[leaves[j]].hi == KEY_LIMIT)
  }

  ghost predicate Listed(t: Links, leaves: seq<NodeId>, x: NodeId)
    requires x in t
  {
    t[x].level == 0 ==> x in leaves
  }

  /** `leaves` are all the leaves, left to right, each `next` pointer names its successor and
      the intervals of neighbours meet. */
  ghost predicate Chain(t: Links, leaves: seq<NodeId>) {
    |leaves| > 0 &&
    (forall j {:trigger LeafAt(t, leaves, j)} :: 0 <= j < |leaves| ==> LeafAt(t, leaves, j)) &&
    (forall x {:trigger Listed(t, leaves, x)} :: x in t ==> Listed(t, leaves, x))
  }

  lemma {:induction false} LeavesAscend(t: Links, leaves: seq<NodeId>, a: nat, b: nat)
    requires Wf(t) && Chain(t, leaves) && a < b < |leaves|
    ensures leaves[a] in t && leaves[b] in t && t[leaves[a]].hi <= t[leaves[b]].lo
    ensures t[leaves[a]].lo < t[leaves[a]].hi && t[leaves[b]].lo < t[leaves[b]].hi
    decreases b - a
  {
    assert LeafAt(t, leaves, a) && LeafAt(t, leaves, b) && LeafAt(t, leaves, a + 1);
    assert NodeWf(t, leaves[a]) && NodeWf(t, leaves[b]) && NodeWf(t, leaves[a + 1]);
    if a + 1 < b {
      LeavesAscend(t, leaves, a + 1, b);
    }
  }

  lemma LeafIndex(t: Links, leaves: seq<NodeId>, x: NodeId) returns (j: nat)
    requires Wf(t) && Chain(t, leaves) && x in t && t[x].level == 0
    ensures j < |leaves| && leaves[j] == x && LeafAt(t, leaves, j)
    ensures forall k :: 0 <= k < |leaves| && k != j ==> leaves[k] != x
  {
    assert Listed(t, leaves, x);
    j :| 0 <= j < |leaves| && leaves[j] == x;
    assert LeafAt(t, leaves, j);
    forall k | 0 <= k < |leaves| && k != j ensures leaves[k] != x {
      if k < j { LeavesAscend(t, leaves, k, j); } else { LeavesAscend(t, leaves, j, k); }
    }
  }

  /** Leaves whose intervals meet are neighbours in the chain. */
  lemma Adjacent(t: Links, leaves: seq<NodeId>, l: NodeId, r: NodeId) returns (j: nat)
    requires Wf(t) && Chain(t, leaves) && l in t && r in t && t[l].level == t[r].level == 0
    requires t[l].hi == t[r].lo
    ensures j + 1 < |leaves| && leaves[j] == l && leaves[j + 1] == r
  {
    j := LeafIndex(t, leaves, l);
    var k := LeafIndex(t, leaves, r);
    assert NodeWf(t, l) && NodeWf(t, r);
    if k < j { LeavesAscend(t, leaves, k, j); }
    assert j + 1 < |leaves| && LeafAt(t, leaves, j + 1) && NodeWf(t, leaves[j + 1]);
    if j + 1 < k { LeavesAscend(t, leaves, j + 1, k); }
  }

  // ---- Flattening -------------------------------------------------------------------

  ghost predicate AllIn(t: Links, ls: seq<NodeId>) {
    forall j :: 0 <= j < |ls| ==> ls[j] in t
  }

  ghost function FlatKeys(t: Links, ls: seq<NodeId>): seq<int>
    requires AllIn(t, ls)
  {
    if ls == [] then [] else t[ls[0]].keys + FlatKeys(t, ls[1..])
  }

  ghost function FlatPtrs(t: Links, ls: seq<NodeId>): seq<Pointer>
    requires AllIn(t, ls)
  {
    if ls == [] then [] else t[ls[0]].ptrs + FlatPtrs(t, ls[1..])
  }

  lemma {:induction false} FlatConcat(t: Links, a: seq<NodeId>, b: seq<NodeId>)
    requires AllIn(t, a) && AllIn(t, b)
    ensures AllIn(t, a + b)
    ensures FlatKeys(t, a + b) == FlatKeys(t, a) + FlatKeys(t, b)
    ensures FlatPtrs(t, a + b) == FlatPtrs(t, a) + FlatPtrs(t, b)
  {
    if a == [] {
      assert a + b == b;
    } else {
      assert (a + b)[1..] == a[1..] + b;
      FlatConcat(t, a[1..], b);
    }
  }

  ghost predicate AgreeOn(t: Links, t': Links, ls: seq<NodeId>) {
    forall j :: 0 <= j < |ls| ==>
      ls[j] in t && ls[j] in t' && t'[ls[j]].keys == t[ls[j]].keys && t'[ls[j]].ptrs == t[ls[j]].ptrs
  }

  lemma {:induction false} FlatFrame(t: Links, t': Links, ls: seq<NodeId>)
    requires AgreeOn(t, t', ls)
    ensures AllIn(t, ls) && AllIn(t', ls)
    ensures FlatKeys(t', ls) == FlatKeys(t, ls) && FlatPtrs(t', ls) == FlatPtrs(t, ls)
  {
    if ls != [] { FlatFrame(t, t', ls[1..]); }
  }

  lemma FlatThree(t: Links, a: seq<NodeId>, m: seq<NodeId>, b: seq<NodeId>)
    requires AllIn(t, a) && AllIn(t, m) && AllIn(t, b)
    ensures AllIn(t, a + m + b)
    ensures FlatKeys(t, a + m + b) == FlatKeys(t, a) + FlatKeys(t, m) + FlatKeys(t, b)
    ensures FlatPtrs(t, a + m + b) == FlatPtrs(t, a) + FlatPtrs(t, m) + FlatPtrs(t, b)
  {
    FlatConcat(t, a, m);
    FlatConcat(t, a + m, b);
  }

  /** The keys of all nodes, entries and separators. */
  ghost function AllKeys(t: Links): set<int> {
    set x, k | x in t && k in t[x].keys :: k
  }

  lemma KeyKnown(t: Links, x: NodeId, i: nat)
    requires x in t && i < |t[x].keys|
    ensures t[x].keys[i] in AllKeys(t)
  {
    var k := t[x].keys[i];
    assert x in t && k in t[x].keys;
    assert k in AllKeys(t);
  }

  /** No key appears from nowhere. */
  lemma KeysKept(t: Links, t': Links)
    requires forall x, i :: x in t' && 0 <= i < |t'[x].keys| ==> t'[x].keys[i] in AllKeys(t)
    ensures AllKeys(t') <= AllKeys(t)
  {
    hide AllKeys;
    forall k | k in AllKeys(t') ensures k in AllKeys(t) { var x, i := KeyPlace(t', k); }
  }

  lemma KeyPlace(t: Links, k: int) returns (x: NodeId, i: nat)
    requires k in AllKeys(t)
    ensures x in t && i < |t[x].keys| && t[x].keys[i] == k
  {
    x :| x in t && k in t[x].keys;
    i :| 0 <= i < |t[x].keys| && t[x].keys[i] == k;
  }

  /** Exchanging a middle part for one with the same entries changes no entry of the whole. */
  lemma FlatExchange(t: Links, t': Links, a: seq<NodeId>, m: seq<NodeId>, m': seq<NodeId>, b: seq<NodeId>)
    requires AgreeOn(t, t', a) && AgreeOn(t, t', b) && AllIn(t, m) && AllIn(t', m')
    requires FlatKeys(t, m) == FlatKeys(t', m') && FlatPtrs(t, m) == FlatPtrs(t', m') && AllKeys(t') <= AllKeys(t)
    ensures AllIn(t, a + m + b) && AllIn(t', a + m' + b) && SameEntries(t, a + m + b, t', a + m' + b)
  {
    hide AllKeys;
    FlatFrame(t, t', a);
    FlatFrame(t, t', b);
    FlatThree(t, a, m, b);
    FlatThree(t', a, m', b);
  }

  lemma FlatOne(t: Links, x: NodeId)
    requires x in t
    ensures AllIn(t, [x]) && FlatKeys(t, [x]) == t[x].keys && FlatPtrs(t, [x]) == t[x].ptrs
  {
  }

  lemma FlatTwo(t: Links, x: NodeId, y: NodeId)
    requires x in t && y in t
    ensures AllIn(t, [x, y]) && FlatKeys(t, [x, y]) == t[x].keys + t[y].keys &&
            FlatPtrs(t, [x, y]) == t[x].ptrs + t[y].ptrs
  {
    assert [x, y] == [x] + [y];
    FlatConcat(t, [x], [y]);
  }

  // ---- What each structural step does to the chain ------------------------------------

  ghost predicate SameLeaf(t: Links, t': Links, x: NodeId) {
    (x in t && t[x].level == 0 ==> x in t' && t'[x] == t[x].(parent := t'[x].parent)) &&
    (x in t' && t'[x].level == 0 ==> x in t && t[x].level == 0)
  }

  /** Both collections have the same leaves, up to parent pointers. */
  ghost predicate SameLeaves(t: Links, t': Links) {
    forall x {:trigger SameLeaf(t, t', x)} :: SameLeaf(t, t', x)
  }

  /** The leaves hold the same entries, and no node has a key that none had before. */
  ghost predicate SameEntries(t: Links, leaves: seq<NodeId>, t': Links, leaves': seq<NodeId>)
    requires AllIn(t, leaves) && AllIn(t', leaves')
  {
    FlatKeys(t', leaves') == FlatKeys(t, leaves) && FlatPtrs(t', leaves') == FlatPtrs(t, leaves) &&
    AllKeys(t') <= AllKeys(t)
  }

  lemma ChainIn(t: Links, leaves: seq<NodeId>)
    requires Chain(t, leaves)
    ensures AllIn(t, leaves)
  {
    forall j | 0 <= j < |leaves| ensures leaves[j] in t { assert LeafAt(t, leaves, j); }
  }

  lemma ChainFrame(t: Links, t': Links, leaves: seq<NodeId>)
    requires Chain(t, leaves) && SameLeaves(t, t') && AllKeys(t') <= AllKeys(t)
    ensures Chain(t', leaves) && AllIn(t, leaves) && AllIn(t', leaves) && SameEntries(t, leaves, t', leaves)
  {
    hide AllKeys;
    ChainIn(t, leaves);
    forall j | 0 <= j < |leaves| ensures LeafAt(t', leaves, j) {
      assert LeafAt(t, leaves, j) && SameLeaf(t, t', leaves[j]);
      if j > 0 { assert LeafAt(t, leaves, j - 1) && SameLeaf(t, t', leaves[j - 1]); }
    }
    forall x | x in t' ensures Listed(t', leaves, x) {
      assert SameLeaf(t, t', x);
      if t'[x].level == 0 { assert Listed(t, leaves, x); }
    }
    ChainIn(t', leaves);
    assert AgreeOn(t, t', leaves) by {
      forall j | 0 <= j < |leaves|
        ensures t'[leaves[j]].keys == t[leaves[j]].keys && t'[leaves[j]].ptrs == t[leaves[j]].ptrs
      {
        assert LeafAt(t, leaves, j) && SameLeaf(t, t', leaves[j]);
      }
    }
    FlatFrame(t, t', leaves);
  }

  lemma SplitKnown(t: Links, t': Links, p: NodeId, i: nat, x: NodeId, y: NodeId, s: nat)
    requires SplitOf(t, t', p, i, x, y, s)
    ensures AllKeys(t') <= AllKeys(t)
  {
    hide AllKeys, Wf;
    forall z, k | z in t' && 0 <= k < |t'[z].keys| ensures t'[z].keys[k] in AllKeys(t) {
      if z == x {
        KeyKnown(t, x, k);
      } else if z == y {
        KeyKnown(t, x, k + s + Gap(t[x]));
      } else if z == p {
        if k == i { KeyKnown(t, x, s); } else { KeyKnown(t, p, if k < i then k else k - 1); }
      } else {
        KeyKnown(t, z, k);
      }
    }
    KeysKept(t, t');
  }

  lemma MergeKnown(t: Links, t': Links, p: NodeId, i: nat, l: NodeId, r: NodeId)
    requires MergeOf(t, t', p, i, l, r)
    ensures AllKeys(t') <= AllKeys(t)
  {
    MergeFacts(t, p, i, l, r);
    hide AllKeys, Wf;
    forall z, k | z in t' && 0 <= k < |t'[z].keys| ensures t'[z].keys[k] in AllKeys(t) {
      if z == l {
        var n, g := |t[l].keys|, |Glue(t[p], i)|;
        if k < n { KeyKnown(t, l, k); } else if t[l].level > 0 && k == n { KeyKnown(t, p, i); } else {
          KeyKnown(t, r, k - |t[l].keys| - if t[l].level > 0 then 1 else 0);
        }
      } else if z == p {
        KeyKnown(t, p, if k < i then k else k + 1);
      } else {
        KeyKnown(t, z, k);
      }
    }
    KeysKept(t, t');
  }

  lemma SplitInternalLeaves(t: Links, t': Links, p: NodeId, i: nat, x: NodeId, y: NodeId, s: nat)
    requires SplitOf(t, t', p, i, x, y, s) && t[x].level > 0
    ensures SameLeaves(t, t') && AllKeys(t') <= AllKeys(t)
  {
    hide AllKeys;
    SplitKnown(t, t', p, i, x, y, s);
    var _ := ParentIsInternal(t, x);
    forall z ensures SameLeaf(t, t', z) {}
  }

  lemma MergeInternalLeaves(t: Links, t': Links, p: NodeId, i: nat, l: NodeId, r: NodeId)
    requires MergeOf(t, t', p, i, l, r) && t[l].level > 0
    ensures SameLeaves(t, t') && AllKeys(t') <= AllKeys(t)
  {
    hide AllKeys;
    MergeKnown(t, t', p, i, l, r);
    MergeFacts(t, p, i, l, r);
    forall z ensures SameLeaf(t, t', z) {}
  }

  lemma GrowKnown(t: Links, t': Links, y: NodeId)
    requires GrowOf(t, t', y)
    ensures AllKeys(t') <= AllKeys(t)
  {
    hide AllKeys;
    assert NodeWf(t, TOP);
    forall z, k | z in t' && 0 <= k < |t'[z].keys| ensures t'[z].keys[k] in AllKeys(t) {
      KeyKnown(t, if z == y then TOP else z, k);
    }
    KeysKept(t, t');
  }

  lemma ShrinkKnown(t: Links, t': Links, x: NodeId, c: NodeId)
    requires ShrinkOf(t, t', x, c)
    ensures AllKeys(t') <= AllKeys(t)
  {
    hide AllKeys, Wf;
    forall z, k | z in t' && 0 <= k < |t'[z].keys| ensures t'[z].keys[k] in AllKeys(t) { KeyKnown(t, z, k); }
    KeysKept(t, t');
  }

  lemma GrowLeaves(t: Links, t': Links, y: NodeId)
    requires GrowOf(t, t', y)
    ensures SameLeaves(t, t') && AllKeys(t') <= AllKeys(t)
  {
    GrowKnown(t, t', y);
    hide AllKeys;
    forall z ensures SameLeaf(t, t', z) {}
  }

  lemma ShrinkLeaves(t: Links, t': Links, x: NodeId, c: NodeId)
    requires ShrinkOf(t, t', x, c)
    ensures SameLeaves(t, t') && AllKeys(t') <= AllKeys(t)
  {
    hide AllKeys;
    ShrinkKnown(t, t', x, c);
    assert NodeWf(t, TOP) && NodeWf(t, x) && KidWf(t, TOP, 0) && KidWf(t, x, 0);
    forall z ensures SameLeaf(t, t', z) {}
  }

  lemma SplitLeafChain(t: Links, t': Links, p: NodeId, i: nat, x: NodeId, y: NodeId, s: nat, leaves: seq<NodeId>,
      j: nat)
    requires SplitOf(t, t', p, i, x, y, s) && t[x].level == 0 && Chain(t, leaves) && j < |leaves| && leaves[j] == x
    ensures Chain(t', InsertAt(leaves, j + 1, y))
  {
    var _ := ParentIsInternal(t, x);
    var leaves' := InsertAt(leaves, j + 1, y);
    forall k | 0 <= k < |leaves'| ensures LeafAt(t', leaves', k) {
      var m := if k <= j then k else k - 1;
      assert LeafAt(t, leaves, m);
      if m > 0 { assert LeafAt(t, leaves, m - 1); LeavesDistinct(t, leaves, j, m - 1); }
      LeavesDistinct(t, leaves, j, m);
    }
    forall z | z in t' ensures Listed(t', leaves', z) {
      if z == y { assert leaves'[j + 1] == y; }
      else if t'[z].level == 0 {
        assert Listed(t, leaves, z);
        var m :| 0 <= m < |leaves| && leaves[m] == z;
        assert leaves'[if m <= j then m else m + 1] == z;
      }
    }
  }

  lemma SplitLeafKeeps(t: Links, t': Links, p: NodeId, i: nat, x: NodeId, y: NodeId, s: nat, leaves: seq<NodeId>,
      j: nat)
    requires SplitOf(t, t', p, i, x, y, s) && t[x].level == 0 && Chain(t, leaves) && j < |leaves| && leaves[j] == x
    ensures AgreeOn(t, t', leaves[..j]) && AgreeOn(t, t', leaves[j + 1..])
  {
    var _ := ParentIsInternal(t, x);
    forall k | 0 <= k < |leaves| && k != j
      ensures leaves[k] in t && leaves[k] in t' && t'[leaves[k]].keys == t[leaves[k]].keys &&
              t'[leaves[k]].ptrs == t[leaves[k]].ptrs
    {
      assert LeafAt(t, leaves, k);
      LeavesDistinct(t, leaves, j, k);
    }
  }

  lemma SplitLeafEntries(t: Links, t': Links, p: NodeId, i: nat, x: NodeId, y: NodeId, s: nat, leaves: seq<NodeId>,
      j: nat)
    requires SplitOf(t, t', p, i, x, y, s) && t[x].level == 0 && Chain(t, leaves) && j < |leaves| && leaves[j] == x
    ensures AllIn(t, leaves) && AllIn(t', InsertAt(leaves, j + 1, y))
    ensures SameEntries(t, leaves, t', InsertAt(leaves, j + 1, y))
  {
    SplitLeafKeeps(t, t', p, i, x, y, s, leaves, j);
    assert t[x].keys == t'[x].keys + t'[y].keys && t[x].ptrs == t'[x].ptrs + t'[y].ptrs;
    FlatTwo(t', x, y);
    FlatOne(t, x);
    SplitKnown(t, t', p, i, x, y, s);
    FlatExchange(t, t', leaves[..j], [x], [x, y], leaves[j + 1..]);
    assert leaves == leaves[..j] + [x] + leaves[j + 1..];
    assert InsertAt(leaves, j + 1, y) == leaves[..j] + [x, y] + leaves[j + 1..];
  }

  lemma MergeLeafChain(t: Links, t': Links, p: NodeId, i: nat, l: NodeId, r: NodeId, leaves: seq<NodeId>, j: nat)
    requires MergeOf(t, t', p, i, l, r) && t[l].level == 0 && Chain(t, leaves)
    requires j + 1 < |leaves| && leaves[j] == l && leaves[j + 1] == r
    ensures Chain(t', RemoveAt(leaves, j + 1))
  {
    MergeFacts(t, p, i, l, r);
    var leaves' := RemoveAt(leaves, j + 1);
    forall k | 0 <= k < |leaves'| ensures LeafAt(t', leaves', k) {
      var m := if k <= j then k else k + 1;
      assert LeafAt(t, leaves, m) && LeafAt(t, leaves, j + 1);
      LeavesDistinct(t, leaves, j, m);
      LeavesDistinct(t, leaves, j + 1, m);
      if m > 0 {
        assert LeafAt(t, leaves, m - 1);
        LeavesDistinct(t, leaves, j, m - 1);
        LeavesDistinct(t, leaves, j + 1, m - 1);
      }
    }
    forall z | z in t' ensures Listed(t', leaves', z) {
      if t'[z].level == 0 {
        assert Listed(t, leaves, z);
        var m :| 0 <= m < |leaves| && leaves[m] == z;
        assert leaves'[if m <= j then m else m - 1] == z;
      }
    }
  }

  lemma MergeLeafKeeps(t: Links, t': Links, p: NodeId, i: nat, l: NodeId, r: NodeId, leaves: seq<NodeId>, j: nat)
    requires MergeOf(t, t', p, i, l, r) && t[l].level == 0 && Chain(t, leaves)
    requires j + 1 < |leaves| && leaves[j] == l && leaves[j + 1] == r
    ensures AgreeOn(t, t', leaves[..j]) && AgreeOn(t, t', leaves[j + 2..])
  {
    MergeFacts(t, p, i, l, r);
    forall k | 0 <= k < |leaves| && k != j && k != j + 1
      ensures leaves[k] in t && leaves[k] in t' && t'[leaves[k]].keys == t[leaves[k]].keys &&
              t'[leaves[k]].ptrs == t[leaves[k]].ptrs
    {
      assert LeafAt(t, leaves, k);
      LeavesDistinct(t, leaves, j, k);
      LeavesDistinct(t, leaves, j + 1, k);
    }
  }

  lemma MergeLeafEntries(t: Links, t': Links, p: NodeId, i: nat, l: NodeId, r: NodeId, leaves: seq<NodeId>, j: nat)
    requires MergeOf(t, t', p, i, l, r) && t[l].level == 0 && Chain(t, leaves)
    requires j + 1 < |leaves| && leaves[j] == l && leaves[j + 1] == r
    ensures AllIn(t, leaves) && AllIn(t', RemoveAt(leaves, j + 1))
    ensures SameEntries(t, leaves, t', RemoveAt(leaves, j + 1))
  {
    MergeLeafKeeps(t, t', p, i, l, r, leaves, j);
    MergeFacts(t, p, i, l, r);
    FlatTwo(t, l, r);
    FlatOne(t', l);
    MergeKnown(t, t', p, i, l, r);
    FlatExchange(t, t', leaves[..j], [l, r], [l], leaves[j + 2..]);
    assert leaves == leaves[..j] + [l, r] + leaves[j + 2..];
    assert RemoveAt(leaves, j + 1) == leaves[..j] + [l] + leaves[j + 2..];
  }

  lemma LeavesDistinct(t: Links, leaves: seq<NodeId>, j: nat, m: nat)
    requires Wf(t) && Chain(t, leaves) && j < |leaves| && m < |leaves|
    ensures leaves[m] == leaves[j] <==> m == j
  {
    if m < j { LeavesAscend(t, leaves, m, j); } else if j < m { LeavesAscend(t, leaves, j, m); }
  }

  // ---- Where an entry stands among all entries -------------------------------------------

  lemma {:induction false} FlatBefore(t: Links, leaves: seq<NodeId>, j: nat)
    requires Wf(t) && Chain(t, leaves) && AllIn(t, leaves) && j < |leaves|
    ensures var a := leaves[..j];
            Ascending(FlatKeys(t, a)) && |FlatKeys(t, a)| == |FlatPtrs(t, a)| &&
            forall i :: 0 <= i < |FlatKeys(t, a)| ==> FlatKeys(t, a)[i] < t[leaves[j]].lo
  {
    if j > 0 {
      FlatBefore(t, leaves, j - 1);
      assert leaves[..j] == leaves[..j - 1] + [leaves[j - 1]];
      FlatConcat(t, leaves[..j - 1], [leaves[j - 1]]);
      FlatOne(t, leaves[j - 1]);
      assert LeafAt(t, leaves, j) && LeafAt(t, leaves, j - 1) && NodeWf(t, leaves[j - 1]);
    }
  }

  lemma {:induction false} FlatAfter(t: Links, leaves: seq<NodeId>, j: nat)
    requires Wf(t) && Chain(t, leaves) && AllIn(t, leaves) && j <= |leaves|
    ensures var b := leaves[j..];
            Ascending(FlatKeys(t, b)) && |FlatKeys(t, b)| == |FlatPtrs(t, b)| &&
            forall i :: 0 <= i < |FlatKeys(t, b)| ==> j < |leaves| && FlatKeys(t, b)[i] >= t[leaves[j]].lo
    decreases |leaves| - j
  {
    if j < |leaves| {
      FlatAfter(t, leaves, j + 1);
      assert leaves[j..][1..] == leaves[j + 1..];
      assert LeafAt(t, leaves, j) && NodeWf(t, leaves[j]);
      if j + 1 < |leaves| { assert LeafAt(t, leaves, j + 1); }
    }
  }

  /** The entries fall into those before leaf j, which are below its interval, those of leaf j,
      and those after it, which are above. */
  lemma LeafInContext(t: Links, leaves: seq<NodeId>, j: nat)
    requires Wf(t) && Chain(t, leaves) && AllIn(t, leaves) && j < |leaves|
    ensures var a, b, x := leaves[..j], leaves[j + 1..], leaves[j];
      FlatKeys(t, leaves) == FlatKeys(t, a) + t[x].keys + FlatKeys(t, b) &&
      FlatPtrs(t, leaves) == FlatPtrs(t, a) + t[x].ptrs + FlatPtrs(t, b) &&
      |FlatKeys(t, a)| == |FlatPtrs(t, a)| && |FlatKeys(t, b)| == |FlatPtrs(t, b)| && |t[x].keys| == |t[x].ptrs| &&
      (forall i :: 0 <= i < |FlatKeys(t, a)| ==> FlatKeys(t, a)[i] < t[x].lo) &&
      (forall i :: 0 <= i < |FlatKeys(t, b)| ==> FlatKeys(t, b)[i] >= t[x].hi)
  {
    FlatBefore(t, leaves, j);
    FlatAfter(t, leaves, j + 1);
    assert leaves == leaves[..j] + [leaves[j]] + leaves[j + 1..];
    FlatThree(t, leaves[..j], [leaves[j]], leaves[j + 1..]);
    FlatOne(t, leaves[j]);
    assert LeafAt(t, leaves, j) && NodeWf(t, leaves[j]);
    if j + 1 < |leaves| { assert LeafAt(t, leaves, j + 1); }
  }

  lemma FlatSorted(t: Links, leaves: seq<NodeId>)
    requires Wf(t) && Chain(t, leaves)
    ensures AllIn(t, leaves) && Ascending(FlatKeys(t, leaves)) && |FlatKeys(t, leaves)| == |FlatPtrs(t, leaves)|
  {
    ChainIn(t, leaves);
    FlatAfter(t, leaves, 0);
    assert leaves[0..] == leaves;
  }

  /** New entries in leaf j: the chain stays, and the entries change exactly there. */
  lemma EditChain(t: Links, t': Links, leaves: seq<NodeId>, j: nat, keys: seq<int>, ptrs: seq<Pointer>)
    requires Chain(t, leaves) && j < |leaves| && LeafEditOf(t, t', leaves[j], keys, ptrs)
    ensures Chain(t', leaves) && AllIn(t, leaves) && AllIn(t', leaves)
    ensures FlatKeys(t', leaves) == FlatKeys(t, leaves[..j]) + keys + FlatKeys(t, leaves[j + 1..])
    ensures FlatPtrs(t', leaves) == FlatPtrs(t, leaves[..j]) + ptrs + FlatPtrs(t, leaves[j + 1..])
  {
    ChainIn(t, leaves);
    forall k | 0 <= k < |leaves| ensures LeafAt(t', leaves, k) {
      assert LeafAt(t, leaves, k);
      if k > 0 { assert LeafAt(t, leaves, k - 1); }
    }
    forall x | x in t' ensures Listed(t', leaves, x) { assert Listed(t, leaves, x); }
    ChainIn(t', leaves);
    assert AgreeOn(t, t', leaves[..j]) && AgreeOn(t, t', leaves[j + 1..]) by {
      forall k | 0 <= k < |leaves| && k != j ensures leaves[k] != leaves[j] { LeavesDistinct(t, leaves, j, k); }
    }
    FlatFrame(t, t', leaves[..j]);
    FlatFrame(t, t', leaves[j + 1..]);
    assert leaves == leaves[..j] + [leaves[j]] + leaves[j + 1..];
    FlatThree(t', leaves[..j], [leaves[j]], leaves[j + 1..]);
    FlatOne(t', leaves[j]);
  }
}
