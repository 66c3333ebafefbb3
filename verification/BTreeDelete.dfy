/** The states between the steps of a deletion. */
module BTreeDelete {
  import opened SeqEdit
  import opened ArrayLoops
  import opened BTreeModel
  import opened BTreeChain
  import opened BTreeState

  ghost function With(l: LNode, i: nat, key: int, ptr: Pointer): LNode
    requires i <= |l.keys| && |l.ptrs| == |l.keys| + Gap(l)
  {
    l.(keys := InsertAt(l.keys, i, key), ptrs := InsertAt(l.ptrs, i + Gap(l), ptr))
  }

  /** Entry of delete_entry: in t the entry (key, ptr) of x is gone; in the array of x it is still there, at position
      i. */
  ghost predicate PendingDelete(order: nat, root: Pointer, h: Heap, t: Links, leaves: seq<NodeId>, dead: set<NodeId>,
                                x: NodeId, i: nat, key: int, ptr: Pointer) {
    order >= 3 && Wf(t) && Chain(t, leaves) && Rooted(t, root) && Allocated(h, t, dead) &&
    x in t && x != TOP && i <= |t[x].keys| && |t[x].ptrs| == |t[x].keys| + Gap(t[x]) &&
    key !in t[x].keys && ptr !in t[x].ptrs &&
    Match(order, h, t, {x}) && x in h && MatchNode(order, h[x], With(t[x], i, key, ptr)) &&
    Occupancy(order, t, {x}) && Least(order, t[x]) - 1 <= |t[x].keys|
  }

  /** After remove_entry_from_node: a B+ tree in which x may be one key short. */
  ghost predicate Short(order: nat, root: Pointer, h: Heap, t: Links, leaves: seq<NodeId>, dead: set<NodeId>, x: NodeId)
  {
    order >= 3 && Wf(t) && Chain(t, leaves) && Rooted(t, root) && Allocated(h, t, dead) &&
    x in t && x != TOP && Match(order, h, t, {}) &&
    Occupancy(order, t, {x}) && Least(order, t[x]) - 1 <= |t[x].keys| <= order - 2
  }

  ghost predicate RemovedFrom(order: nat, n: Node, ik: nat, ip: nat, r: Node) {
    order >= 3 && |n.keys| == order - 1 && |n.pointers| == order && 0 < n.numKeys <= order - 1 && ik < n.numKeys &&
    var count := if n.isLeaf then n.numKeys else n.numKeys + 1;
    ip < count &&
    r == n.(numKeys := n.numKeys - 1, keys := r.keys, pointers := r.pointers) && |r.keys| == order - 1 &&
    |r.pointers| == order &&
    r.keys[..n.numKeys - 1] == RemoveAt(n.keys[..n.numKeys], ik) &&
    r.pointers[..count - 1] == RemoveAt(n.pointers[..count], ip) &&
    (n.isLeaf ==> r.pointers[order - 1] == n.pointers[order - 1])
  }

  /** remove_entry_from_node. */
  method RemoveEntryFromNode(order: nat, n: Node, key: int, ptr: Pointer) returns (r: Node, ik: nat, ip: nat)
    requires order >= 3 && |n.keys| == order - 1 && |n.pointers| == order && 0 < n.numKeys <= order - 1
    requires key in n.keys[..n.numKeys] && ptr in n.pointers[..if n.isLeaf then n.numKeys else n.numKeys + 1]
    ensures RemovedFrom(order, n, ik, ip, r)
    ensures n.keys[ik] == key && key !in n.keys[..ik] && n.pointers[ip] == ptr && ptr !in n.pointers[..ip]
    ensures forall j ::
              (if n.isLeaf then n.numKeys - 1 else n.numKeys) <= j < (if n.isLeaf then order - 1 else order) ==>
      r.pointers[j] == Null
  {
    var count := if n.isLeaf then n.numKeys else n.numKeys + 1;
    ik := FirstIndex(n.keys, n.numKeys, key);
    var keys := ShiftLeftRemove(n.keys, n.numKeys, ik);
    ip := FirstIndex(n.pointers, count, ptr);
    var pointers := ShiftLeftRemove(n.pointers, count, ip);
    if n.isLeaf {
      assert count <= order - 1 ==>
               pointers[order - 1] == pointers[count - 1..][order - count] == n.pointers[order - 1];
    }
    var cleared := Fill(pointers, count - 1, if n.isLeaf then order - 1 else order, Null);
    assert cleared[..count - 1] == pointers[..count - 1];
    r := n.(keys := keys, pointers := cleared, numKeys := n.numKeys - 1);
  }

  /** The first position of x, which is known to be among the first n elements. */
  method FirstIndex<T(==)>(a: seq<T>, n: nat, x: T) returns (i: nat)
    requires n <= |a| && x in a[..n]
    ensures i < n && a[i] == x && x !in a[..i]
  {
    i := 0;
    while a[i] != x
      invariant i < n && x !in a[..i] && x in a[i..n]
      decreases n - i
    {
      assert a[i..n] == [a[i]] + a[i + 1..n];
      i := i + 1;
    }
  }

  lemma InsertedOnce<T>(s: seq<T>, i: nat, x: T, j: nat)
    requires i <= |s| && x !in s && j <= |s| && InsertAt(s, i, x)[j] == x
    ensures j == i
  {
  }

  /** Removing the element that was inserted, wherever the array has it, gives the list back. */
  lemma RemovedBack<T>(s: seq<T>, n: nat, list: seq<T>, i: nat, x: T, j: nat, s': seq<T>)
    requires i <= |list| && x !in list && n <= |s| && s[..n] == InsertAt(list, i, x) && j < n && s[j] == x
    requires n - 1 <= |s'| && s'[..n - 1] == RemoveAt(s[..n], j)
    ensures s'[..n - 1] == list && n == |list| + 1
  {
    assert s[..n][j] == x;
    InsertedOnce(list, i, x, j);
    InsertRemove(list, i, x);
  }

  /** The removed positions are those of the pending entry. */
  lemma RemovedMatches(order: nat, n: Node, l: LNode, i: nat, key: int, ptr: Pointer, ik: nat, ip: nat, r: Node)
    requires i <= |l.keys| && |l.ptrs| == |l.keys| + Gap(l) && key !in l.keys && ptr !in l.ptrs
    requires MatchNode(order, n, With(l, i, key, ptr)) && RemovedFrom(order, n, ik, ip, r)
    requires n.keys[ik] == key && n.pointers[ip] == ptr
    ensures MatchNode(order, r, l)
  {
    hide InsertAt, RemoveAt;
    RemovedBack(n.keys, n.numKeys, l.keys, i, key, ik, r.keys);
    RemovedBack(n.pointers, n.numKeys + Gap(l), l.ptrs, i + Gap(l), ptr, ip, r.pointers);
  }

  lemma RemovedShort(order: nat, root: Pointer, h: Heap, t: Links, leaves: seq<NodeId>, dead: set<NodeId>,
                     x: NodeId, i: nat, key: int, ptr: Pointer, r: Node)
    requires PendingDelete(order, root, h, t, leaves, dead, x, i, key, ptr) && MatchNode(order, r, t[x])
    ensures Short(order, root, h[x := r], t, leaves, dead, x)
  {
    forall z | z in t && z != TOP ensures Matches(order, h[x := r], t, z) {
      if z != x { assert Matches(order, h, t, z); }
    }
  }

  lemma ShortEnough(order: nat, root: Pointer, h: Heap, t: Links, leaves: seq<NodeId>, dead: set<NodeId>, x: NodeId)
    requires Short(order, root, h, t, leaves, dead, x) && Least(order, t[x]) <= |t[x].keys|
    ensures Good(order, root, h, t, leaves, dead)
  {
    forall z | z in t && z != TOP ensures Occupied(order, t, z) {
      if z != x { assert Occupied(order, t, z); }
    }
  }

  // ---- Coalescence -------------------------------------------------------------------------

  ghost function Joined(t: Links, p: NodeId, i: nat, l: NodeId, r: NodeId): LNode
    requires l in t && r in t && p in t && i < |t[p].keys|
  {
    t[l].(keys := t[l].keys + Glue(t[p], i) + t[r].keys, ptrs := t[l].ptrs + t[r].ptrs, hi := t[r].hi,
          next := if t[l].level == 0 then t[r].next else t[l].next)
  }

  /** The heap after coalesce_nodes has moved everything into l, before the parent is told. */
  ghost predicate CoalescedHeap(h: Heap, t: Links, l: NodeId, r: NodeId, merged: Node, h': Heap) {
    h'.Keys == h.Keys && l in h && h'[l] == merged && r in t &&
    forall z :: z in h && z != l && z != r ==> h'[z] == if Moved(t, r, 0, z) then h[z].(parent := ToNode(l)) else h[z]
  }

  lemma MergeMatch(order: nat, h: Heap, t: Links, t': Links, p: NodeId, i: nat, l: NodeId, r: NodeId, merged: Node,
      h': Heap)
    requires MergeOf(t, t', p, i, l, r) && Match(order, h, t, {}) && CoalescedHeap(h, t, l, r, merged, h')
    requires MatchNode(order, merged, Joined(t, p, i, l, r))
    ensures Match(order, h', t', {p})
  {
    forall z | z in t' && z != TOP && z != p ensures Matches(order, h', t', z) {
      if z != l { assert Matches(order, h, t, z); }
    }
  }

  lemma MergeOccupancy(order: nat, t: Links, t': Links, p: NodeId, i: nat, l: NodeId, r: NodeId, x: NodeId)
    requires order >= 3 && MergeOf(t, t', p, i, l, r) && Occupancy(order, t, {x}) && (x == l || x == r) && p != TOP
    requires |t'[l].keys| <= order - 1
    ensures Occupancy(order, t', {p})
  {
    MergeFacts(t, p, i, l, r);
    forall z | z in t' && z != TOP && z != p ensures Occupied(order, t', z) {
      if z == l {
        var o := if x == l then r else l;
        assert Occupied(order, t, o);
      } else {
        assert Occupied(order, t, z);
        if Moved(t, r, 0, z) { MergeMovedKid(t, p, i, l, r, z); }
      }
    }
  }

  lemma MergePending(order: nat, root: Pointer, h: Heap, t: Links, t': Links, p: NodeId, i: nat, l: NodeId, r: NodeId,
      merged: Node, h': Heap, x: NodeId)
    requires order >= 3 && MergeOf(t, t', p, i, l, r) && p != TOP && Match(order, h, t, {}) &&
             Occupancy(order, t, {x}) && (x == l || x == r)
    requires Rooted(t, root) && CoalescedHeap(h, t, l, r, merged, h')
    ensures Rooted(t', root) && i <= |t'[p].keys| && |t'[p].ptrs| == |t'[p].keys| + Gap(t'[p])
    ensures t[p].keys[i] !in t'[p].keys && ToNode(r) !in t'[p].ptrs
    ensures p in h' && MatchNode(order, h'[p], With(t'[p], i, t[p].keys[i], ToNode(r))) &&
            Least(order, t'[p]) - 1 <= |t'[p].keys|
  {
    MergeFacts(t, p, i, l, r);
    if Moved(t, r, 0, TOP) { MergeMovedKid(t, p, i, l, r, TOP); }
    if Moved(t, r, 0, p) { MergeMovedKid(t, p, i, l, r, p); }
    assert Matches(order, h, t, p) && Occupied(order, t, p);
    RemoveInsert(t[p].keys, i);
    RemoveInsert(t[p].ptrs, i + 1);
    RemovedKid(t, p, i);
  }

  lemma RemovedKid(t: Links, p: NodeId, i: nat)
    requires p in t && KeysWf(t[p]) && KidsWf(t, p) && t[p].level > 0 && i < |t[p].keys|
    ensures t[p].keys[i] !in RemoveAt(t[p].keys, i) && t[p].ptrs[i + 1] !in RemoveAt(t[p].ptrs, i + 1)
  {
    forall j | 0 <= j < |t[p].ptrs| && j != i + 1 ensures t[p].ptrs[j] != t[p].ptrs[i + 1] {
      if j < i + 1 { KidsDistinct(t, p, j, i + 1); } else { KidsDistinct(t, p, i + 1, j); }
    }
  }

  lemma MergeKeeps(t: Links, t': Links, p: NodeId, i: nat, l: NodeId, r: NodeId, leaves: seq<NodeId>)
    returns (leaves': seq<NodeId>)
    requires MergeOf(t, t', p, i, l, r) && Chain(t, leaves)
    ensures Wf(t') && Chain(t', leaves') && AllIn(t, leaves) && AllIn(t', leaves') &&
            SameEntries(t, leaves, t', leaves')
    ensures t[l].level > 0 ==> leaves' == leaves
    ensures t[l].level == 0 ==>
              exists j ::
                0 <= j && j + 1 < |leaves| && leaves[j] == l && leaves[j + 1] == r && leaves' == RemoveAt(leaves, j + 1)
  {
    hide Wf, Chain;
    MergeWf(t, t', p, i, l, r);
    MergeFacts(t, p, i, l, r);
    if t[l].level == 0 {
      var j := Adjacent(t, leaves, l, r);
      leaves' := RemoveAt(leaves, j + 1);
      MergeLeafChain(t, t', p, i, l, r, leaves, j);
      MergeLeafEntries(t, t', p, i, l, r, leaves, j);
    } else {
      leaves' := leaves;
      MergeInternalLeaves(t, t', p, i, l, r);
      ChainFrame(t, t', leaves);
    }
  }

  /** coalesce_nodes up to its call of delete_entry on the parent. */
  lemma CoalesceStep(order: nat, root: Pointer, h: Heap, t: Links, leaves: seq<NodeId>, dead: set<NodeId>, x: NodeId,
      p: NodeId, i: nat, l: NodeId, r: NodeId, merged: Node, h': Heap) returns (t': Links, leaves': seq<NodeId>)
    requires Short(order, root, h, t, leaves, dead, x) && (x == l || x == r) && MergeAt(t, p, i, l, r) && p != TOP
    requires MatchNode(order, merged, Joined(t, p, i, l, r)) && CoalescedHeap(h, t, l, r, merged, h')
    ensures PendingDelete(order, root, h', t', leaves', dead + {r}, p, i, t[p].keys[i], ToNode(r))
    ensures AllIn(t, leaves) && AllIn(t', leaves') && SameEntries(t, leaves, t', leaves')
    ensures t'[TOP].level == t[TOP].level && t'[p].level == t[p].level
  {
    hide Wf, Chain, Match, Occupancy;
    t' := Merging(t, p, i, l, r);
    leaves' := MergeKeeps(t, t', p, i, l, r, leaves);
    MergeMatch(order, h, t, t', p, i, l, r, merged, h');
    MergeOccupancy(order, t, t', p, i, l, r, x);
    MergePending(order, root, h, t, t', p, i, l, r, merged, h', x);
  }

  // ---- Redistribution: the neighbours are joined and split again at another place ----------------

  /** Children change their parent exactly when they change sides. */
  ghost predicate Sides(t: Links, t': Links, p: NodeId, l: NodeId, r: NodeId) {
    t'.Keys == t.Keys && l in t && r in t &&
    forall z :: z in t && z != l && z != r && z != p ==>
      t'[z] ==
        t[z].(parent := if t[l].level == 0 then t[z].parent
                        else if ToNode(z) in t'[l].ptrs then l else if ToNode(z) in t'[r].ptrs then r else t[z].parent)
  }

  ghost predicate BorrowOf(t: Links, t': Links, p: NodeId, i: nat, l: NodeId, r: NodeId, s: nat) {
    MergeAt(t, p, i, l, r) && Sides(t, t', p, l, r) &&
    var j := Joined(t, p, i, l, r);
    var a := s + Gap(j);
    s < |j.keys| && a <= |j.ptrs| && a <= |j.keys| &&
    t'[l] ==
      t[l].(keys := j.keys[..s], ptrs := j.ptrs[..a], hi := j.keys[s],
          next := if j.level == 0 then ToNode(r) else t[l].next) &&
    t'[r] == t[r].(keys := j.keys[a..], ptrs := j.ptrs[a..], lo := j.keys[s], next := j.next) &&
    t'[p] == t[p].(keys := t[p].keys[i := j.keys[s]])
  }

  lemma RejoinSides(t: Links, m: Links, t': Links, p: NodeId, i: nat, l: NodeId, r: NodeId, s: nat, z: NodeId)
    requires MergeOf(t, m, p, i, l, r) && SplitOf(m, t', p, i, l, r, s) && z in t && z != l && z != r && z != p
    ensures z in t' &&
      t'[z] ==
        t[z].(parent := if t[l].level == 0 then t[z].parent
                        else if ToNode(z) in t'[l].ptrs then l else if ToNode(z) in t'[r].ptrs then r else t[z].parent)
  {
    MergeFacts(t, p, i, l, r);
    var js, a := m[l].ptrs, s + Gap(m[l]);
    if t[l].level > 0 {
      assert js == t'[l].ptrs + t'[r].ptrs;
      if ToNode(z) in t[r].ptrs { assert t[r].ptrs[0..] == t[r].ptrs; assert Moved(t, r, 0, z); }
      if ToNode(z) in t[l].ptrs { KidOf(t, l, z); if Moved(t, r, 0, z) { MergeMovedKid(t, p, i, l, r, z); } }
      if ToNode(z) in t'[l].ptrs && ToNode(z) in t'[r].ptrs { OneSide(m, t', p, i, l, r, s, z); }
      assert ToNode(z) in js <==> ToNode(z) in t[l].ptrs || ToNode(z) in t[r].ptrs;
      assert Moved(m, l, a, z) <==> ToNode(z) in t'[r].ptrs;
    }
  }

  lemma OneSide(m: Links, t': Links, p: NodeId, i: nat, l: NodeId, r: NodeId, s: nat, z: NodeId)
    requires SplitOf(m, t', p, i, l, r, s) && m[l].level > 0
    ensures !(ToNode(z) in t'[l].ptrs && ToNode(z) in t'[r].ptrs)
  {
    if ToNode(z) in t'[l].ptrs {
      var j :| 0 <= j < |t'[l].ptrs| && t'[l].ptrs[j] == ToNode(z);
      SplitStays(m, p, i, l, r, s, j);
    }
  }

  /** In the chain the left neighbour points to the right one. */
  lemma NextIs(t: Links, p: NodeId, i: nat, l: NodeId, r: NodeId, leaves: seq<NodeId>)
    requires MergeAt(t, p, i, l, r) && Chain(t, leaves) && t[l].level == 0
    ensures t[l].next == ToNode(r)
  {
    MergeFacts(t, p, i, l, r);
    var j := Adjacent(t, leaves, l, r);
    assert LeafAt(t, leaves, j);
  }

  lemma Borrowing(t: Links, p: NodeId, i: nat, l: NodeId, r: NodeId, s: nat, leaves: seq<NodeId>) returns (t': Links)
    requires MergeAt(t, p, i, l, r) && Chain(t, leaves) && s < |Joined(t, p, i, l, r).keys| &&
             (t[l].level == 0 ==> s > 0)
    ensures BorrowOf(t, t', p, i, l, r, s)
    ensures Wf(t') && Chain(t', leaves) && AllIn(t, leaves) && AllIn(t', leaves) && SameEntries(t, leaves, t', leaves)
  {
    hide Wf, Chain;
    MergeFacts(t, p, i, l, r);
    var m := Merging(t, p, i, l, r);
    var leaves' := MergeKeeps(t, m, p, i, l, r, leaves);
    ReSplitAt(t, m, p, i, l, r, s);
    t' := Splitting(m, p, i, l, r, s);
    SplitWf(m, t', p, i, l, r, s);
    if t[l].level == 0 {
      var j :| 0 <= j && j + 1 < |leaves| && leaves[j] == l && leaves[j + 1] == r && leaves' == RemoveAt(leaves, j + 1);
      SplitLeafChain(m, t', p, i, l, r, s, leaves', j);
      SplitLeafEntries(m, t', p, i, l, r, s, leaves', j);
      RemoveInsert(leaves, j + 1);
    } else {
      SplitInternalLeaves(m, t', p, i, l, r, s);
      ChainFrame(m, t', leaves);
    }
    ReSplitIs(t, m, t', p, i, l, r, s);
  }

  lemma ReSplitAt(t: Links, m: Links, p: NodeId, i: nat, l: NodeId, r: NodeId, s: nat)
    requires MergeOf(t, m, p, i, l, r) && Wf(m) && s < |Joined(t, p, i, l, r).keys| && (t[l].level == 0 ==> s > 0)
    ensures SplitAt(m, p, i, l, r, s)
  {
    MergeFacts(t, p, i, l, r);
  }

  lemma ReSplitIs(t: Links, m: Links, t': Links, p: NodeId, i: nat, l: NodeId, r: NodeId, s: nat)
    requires MergeOf(t, m, p, i, l, r) && SplitOf(m, t', p, i, l, r, s)
    ensures BorrowOf(t, t', p, i, l, r, s)
  {
    MergeFacts(t, p, i, l, r);
    hide Wf, KeysWf, KidsWf, KidWf, Sides, Moved;
    ReSplitSides(t, m, t', p, i, l, r, s);
    var sep := m[l].keys[s];
    assert InsertAt(RemoveAt(t[p].keys, i), i, sep) == t[p].keys[i := sep];
    RemoveInsert(t[p].ptrs, i + 1);
  }

  lemma ReSplitSides(t: Links, m: Links, t': Links, p: NodeId, i: nat, l: NodeId, r: NodeId, s: nat)
    requires MergeOf(t, m, p, i, l, r) && SplitOf(m, t', p, i, l, r, s)
    ensures Sides(t, t', p, l, r)
  {
    hide Wf, KeysWf, KidsWf, KidWf, Moved;
    forall z | z in t && z != l && z != r && z != p
      ensures t'[z] ==
                t[z].(parent := if t[l].level == 0 then t[z].parent
                                else if ToNode(z) in t'[l].ptrs then l
                                else if ToNode(z) in t'[r].ptrs then r else t[z].parent)
    {
      RejoinSides(t, m, t', p, i, l, r, s, z);
    }
  }

  ghost predicate Sized(order: nat, n: Node) {
    order >= 3 && |n.keys| == order - 1 && |n.pointers| == order && n.numKeys <= order - 1
  }

  ghost predicate Took(n: Node, nb: Node, pn: Node, k: nat, sep: int, order: nat, n': Node, nb': Node, pn': Node) {
    Sized(order, n') && Sized(order, nb') && Sized(order, n) && Sized(order, nb) && k < |pn.keys| &&
    n' == n.(numKeys := n.numKeys + 1, keys := n'.keys, pointers := n'.pointers) &&
    nb.numKeys > 0 && nb' == nb.(numKeys := nb.numKeys - 1, keys := nb'.keys, pointers := nb'.pointers) &&
    (n.isLeaf ==>
       n'.pointers[order - 1] == n.pointers[order - 1] && nb'.pointers[order - 1] == nb.pointers[order - 1]) &&
    pn' == pn.(keys := pn.keys[k := sep])
  }

  /** redistribute_nodes when n has a neighbour to the left: its last entry becomes the first of n. */
  method BorrowFromLeft(order: nat, n: Node, nb: Node, pn: Node, k: nat, kPrime: int)
    returns (n': Node, nb': Node, pn': Node)
    requires Sized(order, n) && Sized(order, nb) && n.isLeaf == nb.isLeaf && n.numKeys < order - 1 && nb.numKeys > 0 &&
             k < |pn.keys|
    ensures Took(n, nb, pn, k, nb.keys[nb.numKeys - 1], order, n', nb', pn')
    ensures GaveLast(n, nb, kPrime, n', nb')
  {
    var g := if n.isLeaf then 0 else 1;
    var last := nb.numKeys - 1;
    var keys := ShiftRightInsert(n.keys, n.numKeys, 0, if n.isLeaf then nb.keys[last] else kPrime);
    var pointers := ShiftRightInsert(n.pointers, n.numKeys + g, 0, nb.pointers[last + g]);
    n' := n.(keys := keys, pointers := pointers, numKeys := n.numKeys + 1);
    nb' := nb.(pointers := nb.pointers[last + g := Null], numKeys := last);
    pn' := pn.(keys := pn.keys[k := nb.keys[last]]);
    if n.isLeaf { TailIndex(n.pointers, pointers, n.numKeys + 1, order - 1); }
  }

  /** redistribute_nodes when n is the leftmost child: the first entry of the right neighbour becomes the last of n. */
  method BorrowFromRight(order: nat, n: Node, nb: Node, pn: Node, k: nat, kPrime: int)
    returns (n': Node, nb': Node, pn': Node)
    requires Sized(order, n) && Sized(order, nb) && n.isLeaf == nb.isLeaf && n.numKeys < order - 1 && k < |pn.keys|
    requires nb.numKeys > if n.isLeaf then 1 else 0
    ensures Took(n, nb, pn, k, if n.isLeaf then nb.keys[1] else nb.keys[0], order, n', nb', pn')
    ensures GaveFirst(n, nb, kPrime, n', nb')
  {
    var g := if n.isLeaf then 0 else 1;
    n' := n.(keys := n.keys[n.numKeys := if n.isLeaf then nb.keys[0] else kPrime],
             pointers := n.pointers[n.numKeys + g := nb.pointers[0]], numKeys := n.numKeys + 1);
    pn' := pn.(keys := pn.keys[k := if n.isLeaf then nb.keys[1] else nb.keys[0]]);
    var keys := ShiftLeftRemove(nb.keys, nb.numKeys, 0);
    var pointers := ShiftLeftRemove(nb.pointers, nb.numKeys + g, 0);
    nb' := nb.(keys := keys, pointers := pointers, numKeys := nb.numKeys - 1);
    if n.isLeaf { TailIndex(nb.pointers, pointers, nb.numKeys - 1, order - 1); }
  }

  lemma LeftBorrowMatches(order: nat, t: Links, t': Links, p: NodeId, i: nat, l: NodeId, r: NodeId,
                          n: Node, nb: Node, pn: Node, n': Node, nb': Node, pn': Node)
    requires MergeAt(t, p, i, l, r) && |t[l].keys| > 0 && BorrowOf(t, t', p, i, l, r, |t[l].keys| - 1)
    requires MatchNode(order, n, t[r]) && MatchNode(order, nb, t[l]) && MatchNode(order, pn, t[p]) &&
             t[l].next == (if t[l].level == 0 then ToNode(r) else t[l].next)
    requires Took(n, nb, pn, i, nb.keys[nb.numKeys - 1], order, n', nb', pn')
    requires n.numKeys < order - 1 && GaveLast(n, nb, t[p].keys[i], n', nb')
    ensures MatchNode(order, n', t'[r]) && MatchNode(order, nb', t'[l]) && MatchNode(order, pn', t'[p])
  {
    MergeFacts(t, p, i, l, r);
    LeftBorrowLists(t, t', p, i, l, r);
    hide Wf, KeysWf, KidsWf, KidWf, BorrowOf;
    var a, b := t[l], t[r];
    LastMatches(order, nb, a, nb', t'[l]);
    assert nb.keys[nb.numKeys - 1] == a.keys[|a.keys| - 1] &&
           nb.pointers[nb.numKeys - 1 + Gap(a)] == a.ptrs[|a.ptrs| - 1];
  }

  lemma LastMatches(order: nat, nb: Node, a: LNode, nb': Node, a': LNode)
    requires MatchNode(order, nb, a) && |a.keys| > 0 && Sized(order, nb')
    requires nb' == nb.(numKeys := nb.numKeys - 1, keys := nb'.keys, pointers := nb'.pointers)
    requires a' == a.(keys := a.keys[..|a.keys| - 1], ptrs := a.ptrs[..|a.ptrs| - 1], hi := a'.hi)
    requires nb'.keys[..nb.numKeys - 1] == nb.keys[..nb.numKeys - 1]
    requires nb'.pointers[..nb.numKeys - 1 + Gap(a)] == nb.pointers[..nb.numKeys - 1 + Gap(a)]
    requires nb.isLeaf ==> nb'.pointers[order - 1] == nb.pointers[order - 1]
    ensures MatchNode(order, nb', a')
  {
  }

  lemma LeftBorrowLists(t: Links, t': Links, p: NodeId, i: nat, l: NodeId, r: NodeId)
    requires MergeAt(t, p, i, l, r) && |t[l].keys| > 0 && BorrowOf(t, t', p, i, l, r, |t[l].keys| - 1)
    requires t[l].next == (if t[l].level == 0 then ToNode(r) else t[l].next)
    ensures var a, b := t[l], t[r]; var s := |a.keys| - 1;
      |a.ptrs| > 0 &&
      t'[l] == a.(keys := a.keys[..s], ptrs := a.ptrs[..|a.ptrs| - 1], hi := a.keys[s]) &&
      t'[r] ==
        b.(keys := [if a.level == 0 then a.keys[s] else t[p].keys[i]] + b.keys,
            ptrs := [a.ptrs[|a.ptrs| - 1]] + b.ptrs, lo := a.keys[s], next := t'[r].next) &&
      (a.level == 0 ==> t'[r].next == b.next) &&
      t'[p] == t[p].(keys := t[p].keys[i := a.keys[s]])
  {
    MergeFacts(t, p, i, l, r);
    JoinTail(t[l].keys, Glue(t[p], i), t[r].keys);
    JoinTail(t[l].ptrs, [], t[r].ptrs);
    assert t[l].ptrs + t[r].ptrs == t[l].ptrs + [] + t[r].ptrs;
    assert (t[l].keys + Glue(t[p], i) + t[r].keys)[|t[l].keys| - 1] == t[l].keys[|t[l].keys| - 1];
  }

  /** Splitting a join one place before the seam. */
  lemma JoinTail<T>(a: seq<T>, m: seq<T>, b: seq<T>)
    requires |a| > 0 && |m| <= 1
    ensures (a + m + b)[..|a| - 1] == a[..|a| - 1]
    ensures (a + m + b)[|a| - 1 + |m|..] == [if m == [] then a[|a| - 1] else m[0]] + b
  {
  }

  lemma RightBorrowMatches(order: nat, t: Links, t': Links, p: NodeId, i: nat, l: NodeId, r: NodeId,
                           n: Node, nb: Node, pn: Node, n': Node, nb': Node, pn': Node)
    requires MergeAt(t, p, i, l, r) && BorrowOf(t, t', p, i, l, r, |t[l].keys| + 1)
    requires MatchNode(order, n, t[l]) && MatchNode(order, nb, t[r]) && MatchNode(order, pn, t[p]) &&
             t[l].next == (if t[l].level == 0 then ToNode(r) else t[l].next)
    requires nb.numKeys > if n.isLeaf then 1 else 0
    requires Took(n, nb, pn, i, if n.isLeaf then nb.keys[1] else nb.keys[0], order, n', nb', pn')
    requires n.numKeys < order - 1 && GaveFirst(n, nb, t[p].keys[i], n', nb')
    ensures MatchNode(order, n', t'[l]) && MatchNode(order, nb', t'[r]) && MatchNode(order, pn', t'[p])
  {
    MergeFacts(t, p, i, l, r);
    RightBorrowLists(t, t', p, i, l, r);
    hide Wf, KeysWf, KidsWf, KidWf, BorrowOf;
    FirstMatches(order, nb, t[r], nb', t'[r]);
    assert nb.keys[0] == t[r].keys[0] && nb.pointers[0] == t[r].ptrs[0];
    assert n.isLeaf ==> nb.keys[1] == t[r].keys[1];
  }

  lemma FirstMatches(order: nat, nb: Node, b: LNode, nb': Node, b': LNode)
    requires MatchNode(order, nb, b) && |b.keys| > 0 && Sized(order, nb')
    requires nb' == nb.(numKeys := nb.numKeys - 1, keys := nb'.keys, pointers := nb'.pointers)
    requires b' == b.(keys := b.keys[1..], ptrs := b.ptrs[1..], lo := b'.lo, next := b'.next) &&
             (b.level == 0 ==> b'.next == b.next)
    requires nb'.keys[..nb.numKeys - 1] == nb.keys[1..nb.numKeys]
    requires nb'.pointers[..nb.numKeys - 1 + Gap(b)] == nb.pointers[1..nb.numKeys + Gap(b)]
    requires nb.isLeaf ==> nb'.pointers[order - 1] == nb.pointers[order - 1]
    ensures MatchNode(order, nb', b')
  {
  }

  lemma RightBorrowLists(t: Links, t': Links, p: NodeId, i: nat, l: NodeId, r: NodeId)
    requires MergeAt(t, p, i, l, r) && BorrowOf(t, t', p, i, l, r, |t[l].keys| + 1)
    requires t[l].next == (if t[l].level == 0 then ToNode(r) else t[l].next)
    ensures var a, b := t[l], t[r];
      |b.ptrs| > 0 && |b.keys| > (if a.level == 0 then 1 else 0) && a.level == b.level &&
      |b.ptrs| == |b.keys| + Gap(b) &&
      t'[r] == b.(keys := b.keys[1..], ptrs := b.ptrs[1..], lo := b.keys[1 - Gap(a)], next := t'[r].next) &&
      t'[l] ==
        a.(keys := a.keys + [if a.level == 0 then b.keys[0] else t[p].keys[i]], ptrs := a.ptrs + [b.ptrs[0]],
            hi := b.keys[1 - Gap(a)]) &&
      (a.level == 0 ==> t'[r].next == b.next) &&
      t'[p] == t[p].(keys := t[p].keys[i := b.keys[1 - Gap(a)]])
  {
    MergeFacts(t, p, i, l, r);
    var a, b, g := t[l], t[r], Glue(t[p], i);
    var ks := a.keys + g + b.keys;
    assert ks[|a.keys| + 1] == b.keys[1 - Gap(a)];
    assert ks[..|a.keys| + 1] == a.keys + [if a.level == 0 then b.keys[0] else t[p].keys[i]];
    assert ks[|a.keys| + 1 + Gap(a)..] == b.keys[1..];
    assert (a.ptrs + b.ptrs)[..|a.ptrs| + 1] == a.ptrs + [b.ptrs[0]] &&
           (a.ptrs + b.ptrs)[|a.ptrs| + 1..] == b.ptrs[1..];
  }

  /** The only child that changes its parent is the one that changes sides. */
  lemma BorrowedKid(t: Links, t': Links, p: NodeId, i: nat, l: NodeId, r: NodeId, s: nat, z: NodeId)
    requires BorrowOf(t, t', p, i, l, r, s) && t[l].level > 0 && z in t && z != l && z != r && z != p
    requires (|t[l].keys| > 0 && s == |t[l].keys| - 1) || s == |t[l].keys| + 1
    ensures |t[l].ptrs| > 0 && |t[r].ptrs| > 0
    ensures t'[z] ==
              t[z].(parent := if s < |t[l].keys| then
                                (if t[l].ptrs[|t[l].ptrs| - 1] == ToNode(z) then r else t[z].parent)
                                     else if t[r].ptrs[0] == ToNode(z) then l else t[z].parent)
  {
    SidesAt(t, t', p, i, l, r, s, z);
    BorrowedAt(t, t', p, i, l, r, s);
    hide BorrowOf;
    MergeFacts(t, p, i, l, r);
    var a, b := t[l].ptrs, t[r].ptrs;
    if ToNode(z) in a { KidOf(t, l, z); }
    if ToNode(z) in b { KidOf(t, r, z); }
    KidsApart(t, l, |a| - 1, z);
    KidsApart(t, r, 0, z);
    hide Wf, KeysWf, KidsWf, KidWf;
    if s < |t[l].keys| {
      LastMoves(a, b, ToNode(z), l, r, t[z].parent);
    } else {
      FirstMoves(a, b, ToNode(z), l, r, t[z].parent);
    }
  }

  lemma SidesAt(t: Links, t': Links, p: NodeId, i: nat, l: NodeId, r: NodeId, s: nat, z: NodeId)
    requires BorrowOf(t, t', p, i, l, r, s) && t[l].level > 0 && z in t && z != l && z != r && z != p
    ensures MergeAt(t, p, i, l, r) && l in t' && r in t' && z in t'
    ensures t'[z] ==
              t[z].(parent := if ToNode(z) in t'[l].ptrs then l else if ToNode(z) in t'[r].ptrs then r else t[z].parent)
  {
    hide Wf, KeysWf, KidsWf, KidWf;
  }

  lemma BorrowedAt(t: Links, t': Links, p: NodeId, i: nat, l: NodeId, r: NodeId, s: nat)
    requires BorrowOf(t, t', p, i, l, r, s) && MergeAt(t, p, i, l, r) && t[l].level > 0 && l in t' && r in t'
    requires (|t[l].keys| > 0 && s == |t[l].keys| - 1) || s == |t[l].keys| + 1
    ensures |t[l].ptrs| > 0 && |t[r].ptrs| > 0
    ensures s < |t[l].keys| ==>
              t'[l].ptrs == t[l].ptrs[..|t[l].ptrs| - 1] && t'[r].ptrs == [t[l].ptrs[|t[l].ptrs| - 1]] + t[r].ptrs
    ensures s >= |t[l].keys| ==> t'[l].ptrs == t[l].ptrs + [t[r].ptrs[0]] && t'[r].ptrs == t[r].ptrs[1..]
  {
    MergeFacts(t, p, i, l, r);
    if s < |t[l].keys| { LeftBorrowLists(t, t', p, i, l, r); } else { RightBorrowLists(t, t', p, i, l, r); }
  }

  lemma LastMoves<T>(a: seq<T>, b: seq<T>, x: T, l: int, r: int, was: int)
    requires a != [] && (x in a[..|a| - 1] ==> a[|a| - 1] != x) && (x in a ==> was == l) && (x in b ==> was == r) &&
             l != r
    ensures (if x in a[..|a| - 1] then l else if x in [a[|a| - 1]] + b then r else was) ==
              if a[|a| - 1] == x then r else was
  {
    SplitLast(a, x);
  }

  lemma FirstMoves<T>(a: seq<T>, b: seq<T>, x: T, l: int, r: int, was: int)
    requires b != [] && (x in b[1..] ==> b[0] != x) && (x in a ==> was == l) && (x in b ==> was == r) && l != r
    ensures (if x in a + [b[0]] then l else if x in b[1..] then r else was) == if b[0] == x then l else was
  {
    SplitFirst(b, x);
  }

  lemma SplitLast<T>(a: seq<T>, x: T)
    requires a != []
    ensures x in a <==> x in a[..|a| - 1] || x == a[|a| - 1]
    ensures a[|a| - 1..] == [a[|a| - 1]]
  {
    assert a == a[..|a| - 1] + [a[|a| - 1]];
  }

  lemma SplitFirst<T>(a: seq<T>, x: T)
    requires a != []
    ensures x in a <==> x == a[0] || x in a[1..]
  {
    assert a == [a[0]] + a[1..];
  }

  lemma KidsApart(t: Links, p: NodeId, k: nat, z: NodeId)
    requires p in t && t[p].level > 0 && KeysWf(t[p]) && KidsWf(t, p) && k < |t[p].ptrs|
    ensures ToNode(z) in t[p].ptrs[..k] || ToNode(z) in t[p].ptrs[k + 1..] ==> t[p].ptrs[k] != ToNode(z)
  {
    forall j | 0 <= j < |t[p].ptrs| && j != k ensures t[p].ptrs[j] != t[p].ptrs[k] {
      if j < k { KidsDistinct(t, p, j, k); } else { KidsDistinct(t, p, k, j); }
    }
  }

  ghost predicate BorrowedHeap(h: Heap, t: Links, p: NodeId, l: NodeId, r: NodeId, s: nat, h': Heap) {
    h'.Keys == h.Keys && l in t && r in t && l in h && r in h && p in h && |t[l].ptrs| > 0 && |t[r].ptrs| > 0 &&
    forall z :: z in h && z != l && z != r && z != p ==>
      h'[z] == h[z].(parent := if t[l].level == 0 then h[z].parent
                               else if s < |t[l].keys| then
                                 (if t[l].ptrs[|t[l].ptrs| - 1] == ToNode(z) then ToNode(r) else h[z].parent)
                               else if t[r].ptrs[0] == ToNode(z) then ToNode(l) else h[z].parent)
  }

  /** The assignments of a redistribution give such a heap; a is the node that gains an entry, b the other one. */
  lemma BorrowedHeapIs(h: Heap, t: Links, p: NodeId, l: NodeId, r: NodeId, s: nat, a: NodeId, b: NodeId, na: Node,
      nb: Node, np: Node, c: NodeId, h': Heap)
    requires l in t && r in t && l in h && r in h && p in h && |t[l].ptrs| > 0 && |t[r].ptrs| > 0 && l != r && l != p &&
             r != p
    requires (a == l && b == r && s >= |t[l].keys|) || (a == r && b == l && s < |t[l].keys|)
    requires t[l].level == 0 ==> h' == h[a := na][b := nb][p := np]
    requires t[l].level > 0 ==>
               c in h && c != l && c != r && c != p &&
               ToNode(c) == (if a == r then t[l].ptrs[|t[l].ptrs| - 1] else t[r].ptrs[0])
    requires t[l].level > 0 ==> h' == h[a := na][b := nb][p := np][c := h[c].(parent := ToNode(a))]
    ensures BorrowedHeap(h, t, p, l, r, s, h') && h'[a] == na && h'[b] == nb && h'[p] == np
  {
  }

  lemma BorrowMatch(order: nat, h: Heap, t: Links, t': Links, p: NodeId, i: nat, l: NodeId, r: NodeId, s: nat, h': Heap)
    requires BorrowOf(t, t', p, i, l, r, s) && Match(order, h, t, {}) && BorrowedHeap(h, t, p, l, r, s, h')
    requires (|t[l].keys| > 0 && s == |t[l].keys| - 1) || s == |t[l].keys| + 1
    requires MatchNode(order, h'[l], t'[l]) && MatchNode(order, h'[r], t'[r]) && MatchNode(order, h'[p], t'[p])
    ensures Match(order, h', t', {})
  {
    forall z | z in t' && z != TOP ensures Matches(order, h', t', z) {
      if z != l && z != r && z != p {
        assert Matches(order, h, t, z);
        if t[l].level > 0 { BorrowedKid(t, t', p, i, l, r, s, z); }
      }
    }
  }

  lemma BorrowOccupancy(order: nat, t: Links, t': Links, p: NodeId, i: nat, l: NodeId, r: NodeId, s: nat, x: NodeId)
    requires order >= 3 && BorrowOf(t, t', p, i, l, r, s) && Occupancy(order, t, {x}) && p != TOP
    requires (x == r && |t[l].keys| > 0 && s == |t[l].keys| - 1) || (x == l && s == |t[l].keys| + 1)
    requires |t[x].keys| == MinKeys(order, t[x].level) - 1
    requires |t[l].keys| + |t[r].keys| >= if t[x].level == 0 then order else order - 1
    ensures Occupancy(order, t', {})
  {
    MergeFacts(t, p, i, l, r);
    forall z | z in t' && z != TOP ensures Occupied(order, t', z) {
      if z == l || z == r {
        var o := if x == l then r else l;
        assert Occupied(order, t, o);
        assert |t'[l].keys| == s && |t'[r].keys| == |t[l].keys| + |t[r].keys| - s;
      } else {
        assert Occupied(order, t, z);
        if z != p && t[l].level > 0 {
          BorrowedKid(t, t', p, i, l, r, s, z);
          if ToNode(z) in t[l].ptrs { KidOf(t, l, z); }
          if ToNode(z) in t[r].ptrs { KidOf(t, r, z); }
        }
      }
    }
  }

  /** redistribute_nodes. */
  lemma BorrowStep(order: nat, root: Pointer, h: Heap, t: Links, t': Links, leaves: seq<NodeId>, dead: set<NodeId>,
      x: NodeId, p: NodeId, i: nat, l: NodeId, r: NodeId, s: nat, h': Heap)
    requires Short(order, root, h, t, leaves, dead, x) && p != TOP && BorrowOf(t, t', p, i, l, r, s) &&
             BorrowedHeap(h, t, p, l, r, s, h')
    requires Wf(t') && Chain(t', leaves)
    requires (x == r && |t[l].keys| > 0 && s == |t[l].keys| - 1) || (x == l && s == |t[l].keys| + 1)
    requires |t[x].keys| == MinKeys(order, t[x].level) - 1
    requires |t[l].keys| + |t[r].keys| >= if t[x].level == 0 then order else order - 1
    requires MatchNode(order, h'[l], t'[l]) && MatchNode(order, h'[r], t'[r]) && MatchNode(order, h'[p], t'[p])
    ensures Good(order, root, h', t', leaves, dead)
  {
    BorrowMatch(order, h, t, t', p, i, l, r, s, h');
    BorrowOccupancy(order, t, t', p, i, l, r, s, x);
    if t[l].level > 0 { BorrowedKid(t, t', p, i, l, r, s, TOP); }
    assert NodeWf(t, TOP) && KidWf(t, TOP, 0);
  }

  // ---- adjust_root ---------------------------------------------------------------------------

  lemma RootIs(t: Links, root: Pointer, x: NodeId)
    requires Wf(t) && Rooted(t, root) && x in t && x != TOP
    ensures t[x].parent == TOP <==> root == ToNode(x)
  {
    assert NodeWf(t, TOP) && NodeWf(t, x) && KidWf(t, TOP, 0);
  }

  lemma ShrinkMatch(order: nat, h: Heap, t: Links, t': Links, x: NodeId, c: NodeId, h': Heap)
    requires ShrinkOf(t, t', x, c) && Match(order, h, t, {}) && c in h && h' == (h - {x})[c := h[c].(parent := Null)]
    ensures Match(order, h', t', {})
  {
    forall z | z in t' && z != TOP ensures Matches(order, h', t', z) { assert Matches(order, h, t, z); }
  }

  lemma ShrinkOccupancy(order: nat, t: Links, t': Links, x: NodeId, c: NodeId)
    requires order >= 3 && ShrinkOf(t, t', x, c) && Occupancy(order, t, {x})
    ensures Occupancy(order, t', {})
  {
    assert NodeWf(t, x) && KidWf(t, x, 0);
    forall z | z in t' && z != TOP ensures Occupied(order, t', z) { assert Occupied(order, t, z); }
  }

  /** An internal root without keys gives way to its only child. */
  lemma ShrinkStep(order: nat, root: Pointer, h: Heap, t: Links, leaves: seq<NodeId>, dead: set<NodeId>, x: NodeId)
    returns (t': Links, c: NodeId)
    requires Short(order, root, h, t, leaves, dead, x) && root == ToNode(x) && t[x].level > 0 && t[x].keys == []
    ensures x in h && |h[x].pointers| > 0 && h[x].pointers[0] == ToNode(c) && c in h && c != x
    ensures Good(order, ToNode(c), (h - {x})[c := h[c].(parent := Null)], t', leaves, dead)
    ensures AllIn(t, leaves) && AllIn(t', leaves) && SameEntries(t, leaves, t', leaves)
  {
    assert NodeWf(t, TOP) && NodeWf(t, x) && KidWf(t, TOP, 0) && KidWf(t, x, 0) && Matches(order, h, t, x);
    c := t[x].ptrs[0].node;
    assert h[x].pointers[0] == h[x].pointers[..1][0];
    t' := (t - {x})[TOP := t[TOP].(level := t[TOP].level - 1, ptrs := [ToNode(c)])][c := t[c].(parent := TOP)];
    assert t[x].ptrs == [ToNode(c)];
    ShrinkWf(t, t', x, c);
    ShrinkLeaves(t, t', x, c);
    ChainFrame(t, t', leaves);
    ShrinkMatch(order, h, t, t', x, c, (h - {x})[c := h[c].(parent := Null)]);
    ShrinkOccupancy(order, t, t', x, c);
  }

  /** A leaf root without keys was the whole tree. */
  lemma EmptyStep(order: nat, root: Pointer, h: Heap, t: Links, leaves: seq<NodeId>, dead: set<NodeId>, x: NodeId)
    requires Short(order, root, h, t, leaves, dead, x) && root == ToNode(x) && t[x].level == 0 && t[x].keys == []
    ensures AllIn(t, leaves) && FlatKeys(t, leaves) == [] && FlatPtrs(t, leaves) == []
    ensures (h - {x}).Keys == dead
  {
    assert NodeWf(t, TOP) && NodeWf(t, x) && KidWf(t, TOP, 0);
    var j := LeafIndex(t, leaves, x);
    assert LeafAt(t, leaves, 0);
    if j > 0 { LeavesAscend(t, leaves, 0, j); }
    assert j + 1 < |leaves| ==> LeafAt(t, leaves, j + 1) && NodeWf(t, leaves[j + 1]);
    assert leaves == [x];
    FlatOne(t, x);
    forall z | z in t ensures z == TOP || z == x {
      assert NodeWf(t, z) && Listed(t, leaves, z);
    }
  }

  lemma FreeDead(order: nat, root: Pointer, h: Heap, t: Links, leaves: seq<NodeId>, dead: set<NodeId>, r: NodeId)
    requires Good(order, root, h, t, leaves, dead + {r}) && r !in dead
    ensures Good(order, root, h - {r}, t, leaves, dead)
  {
    forall z | z in t && z != TOP ensures Matches(order, h - {r}, t, z) { assert Matches(order, h, t, z); }
  }

  // ---- Choosing the neighbour ----------------------------------------------------------------

  /** get_neighbor_index: the position of the pointer to x among its parent's pointers; the program returns one less,
      with -1 for the leftmost child. */
  method PositionInParent(pointers: seq<Pointer>, count: nat, x: Pointer) returns (i: nat)
    requires count <= |pointers| && x in pointers[..count]
    ensures i < count && pointers[i] == x && x !in pointers[..i]
  {
    i := FirstIndex(pointers, count, x);
  }

  lemma ParentFacts(order: nat, root: Pointer, h: Heap, t: Links, leaves: seq<NodeId>, dead: set<NodeId>, x: NodeId)
    requires Short(order, root, h, t, leaves, dead, x) && root != ToNode(x)
    ensures var p := t[x].parent;
      p != TOP && p in t && Matches(order, h, t, p) && Matches(order, h, t, x) &&
      t[p].level == t[x].level + 1 < t[TOP].level &&
      h[x].parent == ToNode(p) && !h[p].isLeaf && ToNode(x) in h[p].pointers[..h[p].numKeys + 1] && h[p].numKeys > 0 &&
      TOP in t
  {
    RootIs(t, root, x);
    var p := t[x].parent;
    var _ := ParentIsInternal(t, x);
    assert NodeWf(t, x) && NodeWf(t, p) && Matches(order, h, t, p) && Matches(order, h, t, x) && Occupied(order, t, p);
  }

  /** The neighbour and x sit side by side in the parent: l at position i, r at i + 1. */
  lemma NeighbourFacts(order: nat, root: Pointer, h: Heap, t: Links, leaves: seq<NodeId>, dead: set<NodeId>, x: NodeId,
      at: nat) returns (p: NodeId, i: nat, l: NodeId, r: NodeId)
    requires Short(order, root, h, t, leaves, dead, x) && root != ToNode(x)
    requires t[x].parent in h && at <= h[t[x].parent].numKeys < |h[t[x].parent].pointers| &&
             h[t[x].parent].pointers[at] == ToNode(x)
    ensures p == t[x].parent && p != TOP && MergeAt(t, p, i, l, r)
    ensures |h[p].pointers| > 1
    ensures if at == 0 then i == 0 && l == x && h[p].pointers[1] == ToNode(r)
            else i == at - 1 && r == x && h[p].pointers[at - 1] == ToNode(l)
    ensures i < |h[p].keys| && h[p].keys[i] == t[p].keys[i] && Matches(order, h, t, l) && Matches(order, h, t, r) &&
            Matches(order, h, t, p)
  {
    ParentFacts(order, root, h, t, leaves, dead, x);
    p := t[x].parent;
    assert NodeWf(t, p);
    i := if at == 0 then 0 else at - 1;
    assert t[p].ptrs[at] == ToNode(x);
    assert KidWf(t, p, i) && KidWf(t, p, i + 1);
    l, r := t[p].ptrs[i].node, t[p].ptrs[i + 1].node;
    KidsDistinct(t, p, i, i + 1);
    assert Matches(order, h, t, l) && Matches(order, h, t, r);
  }

  // ---- coalesce_nodes on the arrays ----------------------------------------------------------

  /** Everything of n is appended to the node on its left, below k_prime when the nodes are internal. */
  method JoinArrays(order: nat, nb: Node, n: Node, kPrime: int) returns (m: Node)
    requires Sized(order, nb) && Sized(order, n) && nb.isLeaf == n.isLeaf
    requires nb.numKeys + n.numKeys + (if n.isLeaf then 0 else 1) <= order - 1
    ensures var g := if n.isLeaf then 0 else 1;
      m == nb.(numKeys := nb.numKeys + g + n.numKeys, keys := m.keys, pointers := m.pointers) && Sized(order, m) &&
      m.keys[..m.numKeys] == nb.keys[..nb.numKeys] + (if n.isLeaf then [] else [kPrime]) + n.keys[..n.numKeys] &&
      m.pointers[..m.numKeys + g] == nb.pointers[..nb.numKeys + g] + n.pointers[..n.numKeys + g] &&
      (n.isLeaf ==> m.pointers[order - 1] == n.pointers[order - 1])
  {
    var at := nb.numKeys;
    if !n.isLeaf {
      var keys := nb.keys[at := kPrime];
      var ks := CopyInto(keys, at + 1, n.keys, 0, n.numKeys);
      var ps := CopyInto(nb.pointers, at + 1, n.pointers, 0, n.numKeys + 1);
      m := nb.(keys := ks, pointers := ps, numKeys := at + 1 + n.numKeys);
    } else {
      var ks := CopyInto(nb.keys, at, n.keys, 0, n.numKeys);
      var ps := CopyInto(nb.pointers, at, n.pointers, 0, n.numKeys);
      m := nb.(keys := ks, pointers := ps[order - 1 := n.pointers[order - 1]], numKeys := at + n.numKeys);
    }
  }

  lemma JoinMatches(order: nat, t: Links, p: NodeId, i: nat, l: NodeId, r: NodeId, nb: Node, n: Node, m: Node)
    requires MergeAt(t, p, i, l, r) && MatchNode(order, nb, t[l]) && MatchNode(order, n, t[r])
    requires var g := if n.isLeaf then 0 else 1;
      m == nb.(numKeys := nb.numKeys + g + n.numKeys, keys := m.keys, pointers := m.pointers) && Sized(order, m) &&
      m.keys[..m.numKeys] == nb.keys[..nb.numKeys] + (if n.isLeaf then [] else [t[p].keys[i]]) + n.keys[..n.numKeys] &&
      m.pointers[..m.numKeys + g] == nb.pointers[..nb.numKeys + g] + n.pointers[..n.numKeys + g] &&
      (n.isLeaf ==> m.pointers[order - 1] == n.pointers[order - 1])
    ensures MatchNode(order, m, Joined(t, p, i, l, r))
  {
    MergeFacts(t, p, i, l, r);
  }

  /** The loop that points all children at the merged node changes only those that came from r. */
  lemma CoalescedIs(order: nat, root: Pointer, h: Heap, t: Links, leaves: seq<NodeId>, dead: set<NodeId>, x: NodeId,
                    p: NodeId, i: nat, l: NodeId, r: NodeId, merged: Node, h': Heap)
    requires Short(order, root, h, t, leaves, dead, x) && MergeAt(t, p, i, l, r) &&
             MatchNode(order, merged, Joined(t, p, i, l, r))
    requires h'.Keys == h.Keys && h'[l] == merged && merged.numKeys < |merged.pointers|
    requires forall z :: z in h && z != l && z != r ==>
      h'[z] ==
        if t[l].level > 0 && ToNode(z) in merged.pointers[..merged.numKeys + 1] then h[z].(parent := ToNode(l))
        else h[z]
    ensures CoalescedHeap(h, t, l, r, merged, h')
  {
    MergeFacts(t, p, i, l, r);
    forall z | z in h && z != l && z != r
      ensures h'[z] == if Moved(t, r, 0, z) then h[z].(parent := ToNode(l)) else h[z]
    {
      assert t[r].ptrs[0..] == t[r].ptrs;
      if t[l].level > 0 {
        assert merged.pointers[..merged.numKeys + 1] == t[l].ptrs + t[r].ptrs;
        if ToNode(z) in t[l].ptrs {
          KidOf(t, l, z);
          var k :| 0 <= k < |t[l].ptrs| && t[l].ptrs[k] == ToNode(z);
          assert KidWf(t, l, k) && Matches(order, h, t, z);
        }
      }
    }
  }

  lemma JoinedKids(order: nat, root: Pointer, h: Heap, t: Links, leaves: seq<NodeId>, dead: set<NodeId>, x: NodeId,
                   p: NodeId, i: nat, l: NodeId, r: NodeId, m: Node)
    requires Short(order, root, h, t, leaves, dead, x) && MergeAt(t, p, i, l, r) && t[l].level == t[r].level > 0 &&
             m.numKeys < |m.pointers|
    requires m.pointers[..m.numKeys + 1] == t[l].ptrs + t[r].ptrs
    ensures forall k ::
              0 <= k < m.numKeys + 1 ==> m.pointers[k].ToNode? && m.pointers[k].node in h && m.pointers[k].node != l
  {
    MergeFacts(t, p, i, l, r);
    forall k | 0 <= k < m.numKeys + 1
      ensures m.pointers[k].ToNode? && m.pointers[k].node in h && m.pointers[k].node != l
    {
      assert m.pointers[k] == (t[l].ptrs + t[r].ptrs)[k];
      if k < |t[l].ptrs| { assert KidWf(t, l, k); } else { assert KidWf(t, r, k - |t[l].ptrs|); }
    }
  }

  /** The neighbour of a short node has entries to give when the two do not fit into one node. */
  lemma BorrowSizes(order: nat, t: Links, p: NodeId, i: nat, l: NodeId, r: NodeId, x: NodeId)
    requires order >= 3 && MergeAt(t, p, i, l, r) && (x == l || x == r) && t[l].level == t[r].level
    requires |t[x].keys| == MinKeys(order, t[x].level) - 1
    requires |t[l].keys| + |t[r].keys| >= if t[r].level == 0 then order else order - 1
    ensures |t[x].keys| < order - 1 &&
            var o := if x == l then r else l; |t[o].keys| > 0 && (t[o].level == 0 ==> |t[o].keys| > 1)
    ensures |Joined(t, p, i, l, r).keys| == |t[l].keys| + |t[r].keys| + Gap(t[l])
  {
    MergeFacts(t, p, i, l, r);
  }

  /** The child that changes sides is an allocated node other than the three that are rewritten. */
  lemma MovedKid(order: nat, root: Pointer, h: Heap, t: Links, leaves: seq<NodeId>, dead: set<NodeId>, x: NodeId,
                 p: NodeId, i: nat, l: NodeId, r: NodeId, from: NodeId) returns (c: NodeId)
    requires Short(order, root, h, t, leaves, dead, x) && MergeAt(t, p, i, l, r) && t[l].level == t[r].level > 0 &&
             (from == l || from == r)
    ensures |t[l].ptrs| > 0 && |t[r].ptrs| > 0
    ensures ToNode(c) == (if from == l then t[l].ptrs[|t[l].ptrs| - 1] else t[r].ptrs[0])
    ensures c in h && c != l && c != r && c != p
  {
    MergeFacts(t, p, i, l, r);
    if from == l { assert KidWf(t, l, |t[l].ptrs| - 1); c := t[l].ptrs[|t[l].ptrs| - 1].node; }
    else { assert KidWf(t, r, 0); c := t[r].ptrs[0].node; }
  }

  ghost predicate GaveLast(n: Node, nb: Node, kPrime: int, n': Node, nb': Node)
    requires 0 < nb.numKeys <= |nb.keys| && nb.numKeys < |nb.pointers| && n.numKeys < |n.keys| &&
             n.numKeys < |n.pointers|
  {
    var g := if n.isLeaf then 0 else 1;
    |n'.keys| == |n.keys| && |n'.pointers| == |n.pointers| && |nb'.keys| == |nb.keys| &&
    |nb'.pointers| == |nb.pointers| && n.numKeys + 1 + g <= |n.pointers| &&
    n'.keys[..n.numKeys + 1] == [if n.isLeaf then nb.keys[nb.numKeys - 1] else kPrime] + n.keys[..n.numKeys] &&
    nb'.keys[..nb.numKeys - 1] == nb.keys[..nb.numKeys - 1] &&
    n'.pointers[..n.numKeys + 1 + g] == [nb.pointers[nb.numKeys - 1 + g]] + n.pointers[..n.numKeys + g] &&
    nb'.pointers[..nb.numKeys - 1 + g] == nb.pointers[..nb.numKeys - 1 + g]
  }

  lemma LeftBorrowStep(order: nat, root: Pointer, h: Heap, t: Links, leaves: seq<NodeId>, dead: set<NodeId>, p: NodeId,
      i: nat, l: NodeId, r: NodeId, n': Node, nb': Node, pn': Node, h': Heap) returns (t': Links)
    requires Short(order, root, h, t, leaves, dead, r) && MergeAt(t, p, i, l, r) && p != TOP && t[l].level == t[r].level
    requires Matches(order, h, t, l) && Matches(order, h, t, r) && Matches(order, h, t, p)
    requires |t[l].keys| + |t[r].keys| >= (if t[r].level == 0 then order else order - 1) &&
             |t[r].keys| == MinKeys(order, t[r].level) - 1
    requires 0 < h[l].numKeys && h[r].numKeys < order - 1 &&
             Took(h[r], h[l], h[p], i, h[l].keys[h[l].numKeys - 1], order, n', nb', pn')
    requires GaveLast(h[r], h[l], t[p].keys[i], n', nb')
    requires BorrowedHeap(h, t, p, l, r, |t[l].keys| - 1, h') && h'[l] == nb' && h'[r] == n' && h'[p] == pn'
    ensures Good(order, root, h', t', leaves, dead)
    ensures AllIn(t, leaves) && AllIn(t', leaves) && SameEntries(t, leaves, t', leaves)
  {
    hide Wf, Chain, Match, Occupancy;
    BorrowSizes(order, t, p, i, l, r, r);
    if t[l].level == 0 { NextIs(t, p, i, l, r, leaves); }
    t' := Borrowing(t, p, i, l, r, |t[l].keys| - 1, leaves);
    LeftBorrowMatches(order, t, t', p, i, l, r, h[r], h[l], h[p], n', nb', pn');
    BorrowStep(order, root, h, t, t', leaves, dead, r, p, i, l, r, |t[l].keys| - 1, h');
  }

  ghost predicate GaveFirst(n: Node, nb: Node, kPrime: int, n': Node, nb': Node)
    requires 0 < nb.numKeys <= |nb.keys| && nb.numKeys < |nb.pointers| && n.numKeys < |n.keys| &&
             n.numKeys < |n.pointers|
  {
    var g := if n.isLeaf then 0 else 1;
    |n'.keys| == |n.keys| && |n'.pointers| == |n.pointers| && |nb'.keys| == |nb.keys| &&
    |nb'.pointers| == |nb.pointers| && n.numKeys + 1 + g <= |n.pointers| &&
    n'.keys[..n.numKeys + 1] == n.keys[..n.numKeys] + [if n.isLeaf then nb.keys[0] else kPrime] &&
    nb'.keys[..nb.numKeys - 1] == nb.keys[1..nb.numKeys] &&
    n'.pointers[..n.numKeys + 1 + g] == n.pointers[..n.numKeys + g] + [nb.pointers[0]] &&
    nb'.pointers[..nb.numKeys - 1 + g] == nb.pointers[1..nb.numKeys + g]
  }

  lemma RightBorrowStep(order: nat, root: Pointer, h: Heap, t: Links, leaves: seq<NodeId>, dead: set<NodeId>, p: NodeId,
      i: nat, l: NodeId, r: NodeId, n': Node, nb': Node, pn': Node, h': Heap) returns (t': Links)
    requires Short(order, root, h, t, leaves, dead, l) && MergeAt(t, p, i, l, r) && p != TOP && t[l].level == t[r].level
    requires Matches(order, h, t, l) && Matches(order, h, t, r) && Matches(order, h, t, p)
    requires |t[l].keys| + |t[r].keys| >= (if t[r].level == 0 then order else order - 1) &&
             |t[l].keys| == MinKeys(order, t[l].level) - 1
    requires h[l].numKeys < order - 1 && h[r].numKeys > if h[l].isLeaf then 1 else 0
    requires Took(h[l], h[r], h[p], i, if h[l].isLeaf then h[r].keys[1] else h[r].keys[0], order, n', nb', pn')
    requires GaveFirst(h[l], h[r], t[p].keys[i], n', nb')
    requires BorrowedHeap(h, t, p, l, r, |t[l].keys| + 1, h') && h'[l] == n' && h'[r] == nb' && h'[p] == pn'
    ensures Good(order, root, h', t', leaves, dead)
    ensures AllIn(t, leaves) && AllIn(t', leaves) && SameEntries(t, leaves, t', leaves)
  {
    hide Wf, Chain, Match, Occupancy;
    BorrowSizes(order, t, p, i, l, r, l);
    if t[l].level == 0 { NextIs(t, p, i, l, r, leaves); }
    t' := Borrowing(t, p, i, l, r, |t[l].keys| + 1, leaves);
    RightBorrowMatches(order, t, t', p, i, l, r, h[l], h[r], h[p], n', nb', pn');
    BorrowStep(order, root, h, t, t', leaves, dead, l, p, i, l, r, |t[l].keys| + 1, h');
  }

  lemma PendingEntry(order: nat, n: Node, l: LNode, i: nat, key: int, ptr: Pointer)
    requires i <= |l.keys| && |l.ptrs| == |l.keys| + Gap(l) && MatchNode(order, n, With(l, i, key, ptr))
    ensures 0 < n.numKeys && key in n.keys[..n.numKeys] &&
            ptr in n.pointers[..if n.isLeaf then n.numKeys else n.numKeys + 1]
  {
    var w := With(l, i, key, ptr);
    assert w.keys[i] == key && w.ptrs[i + Gap(l)] == ptr;
  }

  lemma LevelBelow(order: nat, root: Pointer, h: Heap, t: Links, leaves: seq<NodeId>, dead: set<NodeId>, x: NodeId,
      i: nat, key: int, ptr: Pointer)
    requires PendingDelete(order, root, h, t, leaves, dead, x, i, key, ptr)
    ensures order >= 3 && x in t && TOP in t && t[x].level < t[TOP].level
  {
    assert NodeWf(t, x);
  }

  lemma RootFactsShort(order: nat, root: Pointer, h: Heap, t: Links, leaves: seq<NodeId>, dead: set<NodeId>, x: NodeId)
    requires Short(order, root, h, t, leaves, dead, x)
    ensures root.ToNode?
  {
    assert NodeWf(t, TOP) && KidWf(t, TOP, 0);
  }
}
