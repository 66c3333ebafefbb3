/** The separators of a tree in which no key has been deleted: each is the least key to its right, and a range query
    loses bindings exactly when it starts between two leaves. */
module BTreeSeparators {
  import opened BTreeModel
  import opened BTreeChain
  import opened BTreeEntries
  import opened BTreeState
  import opened BTreeRange
  import opened BTreeSteps

  /** A node's interval starts at the least key there is or at a separator. */
  lemma {:induction false} LeftEnd(t: Links, x: NodeId)
    requires Wf(t) && x in t
    ensures t[x].lo == 0 || t[x].lo in AllKeys(t)
    decreases t[TOP].level - t[x].level
  {
    hide AllKeys;
    if x != TOP {
      var i := ParentIsInternal(t, x);
      var p := t[x].parent;
      assert NodeWf(t, x) && NodeWf(t, p);
      if i == 0 { LeftEnd(t, p); } else { KeyKnown(t, p, i - 1); }
    }
  }

  /** Every key in the tree is bound. */
  ghost predicate AllBound(t: Links, leaves: seq<NodeId>, m: map<int, int>, records: map<RecordId, int>) {
    Wf(t) && Chain(t, leaves) && AllIn(t, leaves) &&
    Represents(m, FlatKeys(t, leaves), FlatPtrs(t, leaves), records) && AllKeys(t) <= m.Keys
  }

  /** The first key of a leaf other than the leftmost is where the leaf's interval starts. */
  lemma SeparatorIsFirst(t: Links, leaves: seq<NodeId>, m: map<int, int>, records: map<RecordId, int>, j: nat)
    requires AllBound(t, leaves, m, records) && 0 < j < |leaves|
    ensures leaves[j] in t && |t[leaves[j]].keys| > 0 && t[leaves[j]].keys[0] == t[leaves[j]].lo
    ensures t[leaves[j]].lo in m && leaves[j - 1] in t && t[leaves[j - 1]].hi == t[leaves[j]].lo
  {
    hide AllKeys;
    var x, s := leaves[j], t[leaves[j]].lo;
    assert LeafAt(t, leaves, 0) && LeafAt(t, leaves, j) && NodeWf(t, x);
    LeavesAscend(t, leaves, 0, j);
    LeftEnd(t, x);
    assert s in m.Keys;
    LeafDecides(t, leaves, m, records, x, s);
    var q :| 0 <= q < |t[x].keys| && t[x].keys[q] == s;
  }

  ghost predicate KeysBelow(n: LNode, a: int) {
    forall i :: 0 <= i < |n.keys| ==> n.keys[i] < a
  }

  /** The start a lies behind all keys of one leaf and before the first key of the next, which is at most b. */
  ghost predicate Between(t: Links, leaves: seq<NodeId>, j: int, a: int, b: int) {
    0 < j < |leaves| && leaves[j - 1] in t && leaves[j] in t && KeysBelow(t[leaves[j - 1]], a) &&
    |t[leaves[j]].keys| > 0 && a < t[leaves[j]].keys[0] <= b
  }

  /** The query that starts at a gives up although a key in [a, b] is bound. */
  ghost predicate Loses(t: Links, m: map<int, int>, a: int, b: int) {
    GivesUp(t, a) && exists k :: k in m && a <= k <= b
  }

  lemma BetweenLoses(t: Links, leaves: seq<NodeId>, m: map<int, int>, records: map<RecordId, int>, j: nat, a: int,
      b: int)
    requires AllBound(t, leaves, m, records) && 0 <= a && Between(t, leaves, j, a, b)
    ensures Loses(t, m, a, b)
  {
    hide AllKeys, Represents;
    var x := leaves[j - 1];
    assert LeafAt(t, leaves, j - 1);
    SeparatorIsFirst(t, leaves, m, records, j);
    if j > 1 { SeparatorIsFirst(t, leaves, m, records, j - 1); }
    assert t[x].lo <= a < t[x].hi;
    assert t[leaves[j]].keys[0] in m;
    hide Wf, Chain;
    GivesUpAt(t, leaves, x, a);
  }

  lemma LosesBetween(t: Links, leaves: seq<NodeId>, m: map<int, int>, records: map<RecordId, int>, a: int, b: int)
    returns (j: nat)
    requires AllBound(t, leaves, m, records) && Loses(t, m, a, b)
    ensures Between(t, leaves, j, a, b)
  {
    hide AllKeys;
    var x :| x in t && t[x].level == 0 && t[x].lo <= a < t[x].hi && KeysBelow(t[x], a);
    var k :| k in m && a <= k <= b;
    var i := LeafIndex(t, leaves, x);
    j := i + 1;
    assert k in FlatKeys(t, leaves);
    BoundBehind(t, leaves, i, k, a);
    SeparatorIsFirst(t, leaves, m, records, j);
  }

  /** A key at or above a that is not in a leaf responsible for a is in a later leaf. */
  lemma BoundBehind(t: Links, leaves: seq<NodeId>, i: nat, k: int, a: int)
    requires Wf(t) && Chain(t, leaves) && AllIn(t, leaves) && i < |leaves| && k in FlatKeys(t, leaves)
    requires t[leaves[i]].lo <= a <= k && KeysBelow(t[leaves[i]], a)
    ensures i + 1 < |leaves| && leaves[i + 1] in t && t[leaves[i + 1]].lo <= k
  {
    LeafInContext(t, leaves, i);
    FlatAfter(t, leaves, i + 1);
    hide Wf, Chain;
    var ks := FlatKeys(t, leaves[i + 1..]);
    assert k in ks;
    var q :| 0 <= q < |ks| && ks[q] == k;
    assert i + 1 < |leaves|;
    assert leaves[i + 1] in t;
  }

  /** While every key in the tree is bound, a query from a to b loses bindings exactly when a lies between two leaves
      and the first key behind it is at most b. */
  lemma LosesExactly(t: Links, leaves: seq<NodeId>, m: map<int, int>, records: map<RecordId, int>, a: int, b: int)
    requires AllBound(t, leaves, m, records) && 0 <= a
    ensures Loses(t, m, a, b) <==> exists j :: Between(t, leaves, j, a, b)
  {
    hide Loses, AllBound;
    if Loses(t, m, a, b) { var j := LosesBetween(t, leaves, m, records, a, b); }
    if j :| Between(t, leaves, j, a, b) { BetweenLoses(t, leaves, m, records, j, a, b); }
  }

  // A tree of order 3 with the keys 1, 5 and 9.

  lemma ThreeNotInTwo(s: seq<int>, a: int, b: int, c: int)
    requires a in s && b in s && c in s && a < b < c
    ensures |s| > 2
  {
    var i, j, k :| 0 <= i < |s| && 0 <= j < |s| && 0 <= k < |s| && s[i] == a && s[j] == b && s[k] == c;
  }

  lemma TwoLeaves(root: Pointer, h: Heap, t: Links, leaves: seq<NodeId>, m: map<int, int>, records: map<RecordId, int>)
    requires Good(3, root, h, t, leaves, {}) && AllBound(t, leaves, m, records) && m.Keys == {1, 5, 9}
    ensures |leaves| > 1 && leaves[0] in t && t[leaves[0]].level == 0 && |t[leaves[0]].keys| > 0
  {
    hide AllKeys;
    var x := leaves[0];
    assert LeafAt(t, leaves, 0) && NodeWf(t, x) && Occupied(3, t, x);
    if |leaves| == 1 {
      assert leaves == [x];
      FlatOne(t, x);
      assert 1 in m && 5 in m && 9 in m;
      ThreeNotInTwo(t[x].keys, 1, 5, 9);
    }
  }

  /** One of the queries from 4 and from 8 starts between two leaves. */
  lemma OneGapOfTwo(root: Pointer, h: Heap, t: Links, leaves: seq<NodeId>, m: map<int, int>,
      records: map<RecordId, int>)
    requires Good(3, root, h, t, leaves, {}) && AllBound(t, leaves, m, records) && m.Keys == {1, 5, 9}
    ensures Loses(t, m, 4, 9) || Loses(t, m, 8, 9)
  {
    hide AllKeys, Represents, Chain, Occupancy, Match, Allocated;
    TwoLeaves(root, h, t, leaves, m, records);
    SeparatorIsFirst(t, leaves, m, records, 1);
    var x, s := leaves[0], t[leaves[1]].lo;
    assert NodeWf(t, x);
    hide Wf, AllBound;
    forall i | 0 <= i < |t[x].keys| ensures t[x].keys[i] in m && t[x].keys[i] < s { KeyKnown(t, x, i); }
    assert t[x].keys[0] < s && s in {5, 9};
    assert KeysBelow(t[x], s - 1);
    BetweenLoses(t, leaves, m, records, 1, s - 1, 9);
  }
}
