/** The B+ tree program: an arena of nodes and an arena of records, changed in place by the
    functions of btree.c. */
module BTree {
  import opened SeqEdit
  import opened ArrayLoops
  import opened BTreeModel
  import opened BTreeChain
  import opened BTreeEntries
  import opened BTreeState
  import opened BTreeDelete
  import opened BTreeRange
  import opened BTreeSteps

  class BPlusTree {
    const order: nat
    var root: Pointer
    var nodes: Heap
    var records: map<RecordId, int>
    var nextNode: NodeId
    var nextRecord: RecordId
    ghost var t: Links
    ghost var leaves: seq<NodeId>
    ghost var Model: map<int, int>

    ghost predicate Valid()
      reads this
    {
      order >= 3 && FreshAbove(nodes, nextNode) && RecordsBelow(records, nextRecord) &&
      if root.Null? then
        nodes == map[] && records == map[] && Model == map[]
      else
        Good(order, root, nodes, t, leaves, {}) && AllIn(t, leaves) &&
        Represents(Model, FlatKeys(t, leaves), FlatPtrs(t, leaves), records)
    }

    /** The keys that stand somewhere in the tree, as entries or as separators. */
    ghost function Known(): set<int>
      reads this
    {
      if root.Null? then {} else AllKeys(t)
    }

    constructor (order: nat)
      requires order >= 3
      ensures Valid() && Model == map[] && this.order == order && Known() == {}
    {
      this.order := order;
      root, nodes, records, nextNode, nextRecord := Null, map[], map[], 1, 0;
      t, leaves, Model := map[], [], map[];
    }

    method FindLeaf(key: int) returns (c: Pointer)
      requires Valid() && 0 <= key < KEY_LIMIT
      ensures root.Null? ==> c == Null
      ensures !root.Null? ==> c.ToNode? && c.node in t && c.node != TOP && t[c.node].level == 0 &&
                              t[c.node].lo <= key < t[c.node].hi && Matches(order, nodes, t, c.node)
    {
      if root.Null? { return Null; }
      RootFacts(order, root, nodes, t, leaves, {});
      c := root;
      while !nodes[c.node].isLeaf
        invariant c.ToNode? && c.node in t && c.node != TOP && Matches(order, nodes, t, c.node)
        invariant t[c.node].lo <= key < t[c.node].hi
        decreases t[c.node].level
      {
        var n := nodes[c.node];
        var i := ChooseChild(n.keys, n.numKeys, key);
        Descend(order, nodes, t, c.node, i, key);
        c := n.pointers[i];
      }
    }

    method Find(key: int) returns (rec: Pointer, leaf: Pointer)
      requires Valid() && 0 <= key < KEY_LIMIT
      ensures rec.Null? <==> key !in Model
      ensures key in Model ==> rec.ToRecord? && rec.record in records && records[rec.record] == Model[key]
      ensures root.Null? ==> leaf == Null
      ensures !root.Null? ==> leaf.ToNode? && leaf.node in t && leaf.node != TOP && t[leaf.node].level == 0 &&
                              t[leaf.node].lo <= key < t[leaf.node].hi && Matches(order, nodes, t, leaf.node)
      ensures key in Model ==> exists i :: 0 <= i < |t[leaf.node].keys| && i < |t[leaf.node].ptrs| &&
                                           t[leaf.node].keys[i] == key && t[leaf.node].ptrs[i] == rec
    {
      if root.Null? { return Null, Null; }
      leaf := FindLeaf(key);
      LeafDecides(t, leaves, Model, records, leaf.node, key);
      var n := nodes[leaf.node];
      var i := Search(n.keys, n.numKeys, key);
      if i == n.numKeys {
        rec := Null;
      } else {
        assert t[leaf.node].keys[i] == key && t[leaf.node].ptrs[i] == n.pointers[i];
        rec := n.pointers[i];
      }
    }

    /** The inner loop of find_range: the entries of one leaf from position `from` up to key b. */
    static method CollectLeaf(keys: seq<int>, pointers: seq<Pointer>, numKeys: nat, from: nat, b: int)
      returns (to: nat, ks: seq<int>, ps: seq<Pointer>)
      requires from <= numKeys <= |keys| && numKeys <= |pointers|
      ensures from <= to <= numKeys && ks == keys[from..to] && ps == pointers[from..to]
      ensures (forall q :: from <= q < to ==> keys[q] <= b) && (to < numKeys ==> b < keys[to])
    {
      to, ks, ps := from, [], [];
      while to < numKeys && keys[to] <= b
        invariant from <= to <= numKeys && ks == keys[from..to] && ps == pointers[from..to]
        invariant forall q :: from <= q < to ==> keys[q] <= b
      {
        SliceNext(keys, from, to);
        SliceNext(pointers, from, to);
        ks, ps := ks + [keys[to]], ps + [pointers[to]];
        to := to + 1;
      }
    }

    /** find_range: all bindings with keys in [a, b], in order, unless the leaf responsible for a has no key as large as
        a. */
    method FindRange(a: int, b: int) returns (rk: seq<int>, rp: seq<Pointer>)
      requires Valid() && 0 <= a < KEY_LIMIT
      ensures root.Null? || GivesUp(t, a) ==> rk == [] && rp == []
      ensures !root.Null? ==> |FlatKeys(t, leaves)| == |FlatPtrs(t, leaves)|
      ensures !root.Null? && !GivesUp(t, a) ==>
        rk == RangeKeys(FlatKeys(t, leaves), a, b) && rp == RangePtrs(FlatKeys(t, leaves), FlatPtrs(t, leaves), a, b)
      ensures a in Model ==> !root.Null? && !GivesUp(t, a)
    {
      rk, rp := [], [];
      var n := FindLeaf(a);
      if n.Null? { return; }
      LeafDecides(t, leaves, Model, records, n.node, a);
      hide Represents;
      FlatSorted(t, leaves);
      GivesUpAt(t, leaves, n.node, a);
      var i := InsertionPoint(nodes[n.node].keys, nodes[n.node].numKeys, a);
      if i == nodes[n.node].numKeys { return; }
      assert t[n.node].keys[i] >= a;
      rk, rp := CollectRange(n, i, a, b);
    }

    /** The part of find_range that walks the chain, from the first key that is not below a. */
    method CollectRange(start: Pointer, first: nat, a: int, b: int) returns (rk: seq<int>, rp: seq<Pointer>)
      requires Valid() && !root.Null? && start.ToNode? && start.node in t && t[start.node].level == 0
      requires t[start.node].lo <= a < t[start.node].hi && first < |t[start.node].keys| &&
               a <= t[start.node].keys[first] && forall q :: 0 <= q < first ==> t[start.node].keys[q] < a
      ensures |FlatKeys(t, leaves)| == |FlatPtrs(t, leaves)|
      ensures rk == RangeKeys(FlatKeys(t, leaves), a, b) &&
              rp == RangePtrs(FlatKeys(t, leaves), FlatPtrs(t, leaves), a, b)
    {
      rk, rp := [], [];
      var n := start;
      var i: nat := first;
      ghost var j := LeafIndex(t, leaves, n.node);
      ghost var m := j;
      hide Represents, GivesUp, Good, RangeKeys, RangePtrs, FreshAbove, RecordsBelow;
      RangeStarts(t, leaves, j, a, b);
      while !n.Null?
        invariant j <= m <= |leaves| && n == (if m < |leaves| then ToNode(leaves[m]) else Null)
        invariant m < |leaves| ==> i <= |t[leaves[m]].keys| && (forall q :: 0 <= q < i ==> t[leaves[m]].keys[q] < a) &&
                                   (i < |t[leaves[m]].keys| ==> a <= t[leaves[m]].keys[i])
        invariant |FlatKeys(t, leaves[..m])| == |FlatPtrs(t, leaves[..m])|
        invariant rk == RangeKeys(FlatKeys(t, leaves[..m]), a, b) &&
                  rp == RangePtrs(FlatKeys(t, leaves[..m]), FlatPtrs(t, leaves[..m]), a, b)
        decreases |leaves| - m
      {
        LeafSorted(t, leaves, m);
        LeafMatches(order, root, nodes, t, leaves, leaves[m]);
        var nd := nodes[n.node];
        var to, ks, ps := CollectLeaf(nd.keys, nd.pointers, nd.numKeys, i, b);
        RangeStep(order, nd, t, leaves, m, a, b, i, to);
        rk, rp := rk + ks, rp + ps;
        n := nd.pointers[order - 1];
        i := 0;
        m := m + 1;
        if m < |leaves| { LaterLeaf(t, leaves, j, m, a); }
      }
      assert leaves[..m] == leaves;
    }

    // ---- Insertion ---------------------------------------------------------------------

    method MakeNode() returns (x: NodeId)
      requires order >= 3 && FreshAbove(nodes, nextNode)
      modifies this`nodes, this`nextNode
      ensures x !in old(nodes) && x != TOP && nodes == old(nodes)[x := BlankNode(order)] && FreshAbove(nodes, nextNode)
      ensures x == old(nextNode)
    {
      x := nextNode;
      nodes := nodes[x := BlankNode(order)];
      nextNode := nextNode + 1;
    }

    method InsertIntoNewRoot(left: NodeId, key: int, right: NodeId, ghost i: nat)
      requires PendingInsert(order, root, nodes, t, leaves, left, key, right, TOP, i) && AllIn(t, leaves) &&
               FreshAbove(nodes, nextNode)
      modifies this`root, this`nodes, this`nextNode, this`t
      ensures Good(order, root, nodes, t, leaves, {}) && FreshAbove(nodes, nextNode)
      ensures AllIn(t, leaves) && SameEntries(old(t), leaves, t, leaves)
    {
      PendingParent(order, root, nodes, t, leaves, left, key, right, TOP, i);
      RightAllocated(order, root, nodes, t, leaves, left, key, right, TOP, i);
      hide PendingInsert;
      var y := MakeNode();
      var n := nodes[y];
      n := n.(keys := n.keys[0 := key], pointers := n.pointers[0 := ToNode(left)][1 := ToNode(right)], numKeys := 1);
      nodes := nodes[y := n];
      nodes := nodes[left := nodes[left].(parent := ToNode(y))];
      nodes := nodes[right := nodes[right].(parent := ToNode(y))];
      root := ToNode(y);
      ghost var t' := NewRootStep(order, old(root), old(nodes), t, leaves, left, key, right, y, n, nodes);
      t := t';
    }

    /** The first children of a node are told who their parent is. */
    method SetParents(x: NodeId, count: nat)
      requires x in nodes && count <= |nodes[x].pointers| && FreshAbove(nodes, nextNode)
      requires forall i ::
                 0 <= i < count ==>
                   nodes[x].pointers[i].ToNode? && nodes[x].pointers[i].node in nodes && nodes[x].pointers[i].node != x
      modifies this`nodes
      ensures nodes.Keys == old(nodes).Keys && FreshAbove(nodes, nextNode)
      ensures forall z :: z in nodes ==>
        nodes[z] ==
          if ToNode(z) in old(nodes)[x].pointers[..count] then old(nodes)[z].(parent := ToNode(x)) else old(nodes)[z]
    {
      var i := 0;
      while i < count
        invariant 0 <= i <= count && nodes.Keys == old(nodes).Keys && nodes[x] == old(nodes)[x]
        invariant forall z :: z in nodes ==>
          nodes[z] ==
            if ToNode(z) in old(nodes)[x].pointers[..i] then old(nodes)[z].(parent := ToNode(x)) else old(nodes)[z]
      {
        var child := nodes[x].pointers[i].node;
        nodes := nodes[child := nodes[child].(parent := ToNode(x))];
        assert old(nodes)[x].pointers[..i + 1] == old(nodes)[x].pointers[..i] + [ToNode(child)];
        i := i + 1;
      }
    }

    /** insert_into_node_after_splitting, from the filled temporary arrays to its call of insert_into_parent. */
    method SplitFullNode(p: NodeId, tempKeys: seq<int>, tempPointers: seq<Pointer>,
                         ghost left: NodeId, ghost key: int, ghost right: NodeId, ghost i: nat)
      returns (kPrime: int, y: NodeId, ghost q: NodeId, ghost iq: nat)
      requires PendingInsert(order, root, nodes, t, leaves, left, key, right, p, i) && AllIn(t, leaves) &&
               FreshAbove(nodes, nextNode)
      requires p != TOP && |t[p].keys| == order && t[p].level > 0 && tempKeys == t[p].keys && tempPointers == t[p].ptrs
      modifies this`nodes, this`nextNode, this`t
      ensures PendingInsert(order, root, nodes, t, leaves, p, kPrime, y, q, iq) && FreshAbove(nodes, nextNode)
      ensures t[p].level == old(t)[p].level && t[TOP].level == old(t)[TOP].level
      ensures AllIn(t, leaves) && SameEntries(old(t), leaves, t, leaves)
    {
      SizedParent(order, root, nodes, t, leaves, left, key, right, p, i);
      hide PendingInsert;
      y := MakeNode();
      var oldNode, newNode;
      oldNode, newNode, kPrime := SplitArrays(order, nodes[p], nodes[y], tempKeys, tempPointers);
      SplitReady(order, old(nodes), t, p, oldNode, newNode, kPrime);
      nodes := nodes[p := oldNode][y := newNode];
      SetParents(y, newNode.numKeys + 1);
      ghost var t';
      t', q, iq :=
          SplitFullStep(order, root, old(nodes), t, leaves, left, key, right, p, i, y, oldNode, newNode, kPrime, nodes);
      t := t';
    }

    method InsertIntoNodeAfterSplitting(left: NodeId, p: NodeId, leftIndex: nat, key: int, right: NodeId)
      requires PendingInsert(order, root, nodes, t, leaves, left, key, right, p, leftIndex) && AllIn(t, leaves) &&
               FreshAbove(nodes, nextNode)
      requires p != TOP && |t[p].keys| == order
      modifies this`root, this`nodes, this`nextNode, this`t
      ensures Good(order, root, nodes, t, leaves, {}) && FreshAbove(nodes, nextNode)
      ensures AllIn(t, leaves) && SameEntries(old(t), leaves, t, leaves)
      decreases t[TOP].level - t[left].level, 0
    {
      PendingParent(order, root, nodes, t, leaves, left, key, right, p, leftIndex);
      var n := nodes[p];
      PendingArrays(order, n, t[p], leftIndex);
      assert n.keys[..n.numKeys] == n.keys && n.pointers[..n.numKeys + 1] == n.pointers;
      var tempPointers := SpreadAround(n.pointers, n.numKeys + 1, leftIndex + 1, ToNode(right));
      var tempKeys := SpreadAround(n.keys, n.numKeys, leftIndex, key);
      var kPrime, y, q, iq := SplitFullNode(p, tempKeys, tempPointers, left, key, right, leftIndex);
      InsertIntoParent(p, kPrime, y, q, iq);
    }

    method InsertIntoParent(left: NodeId, key: int, right: NodeId, ghost p: NodeId, ghost i: nat)
      requires PendingInsert(order, root, nodes, t, leaves, left, key, right, p, i) && AllIn(t, leaves) &&
               FreshAbove(nodes, nextNode)
      modifies this`root, this`nodes, this`nextNode, this`t
      ensures Good(order, root, nodes, t, leaves, {}) && FreshAbove(nodes, nextNode)
      ensures AllIn(t, leaves) && SameEntries(old(t), leaves, t, leaves)
      decreases t[TOP].level - t[left].level, 1
    {
      hide PendingInsert;
      PendingParent(order, root, nodes, t, leaves, left, key, right, p, i);
      var parent := nodes[left].parent;
      if parent.Null? {
        InsertIntoNewRoot(left, key, right, i);
        return;
      }
      var n := nodes[parent.node];
      var leftIndex := GetLeftIndex(n.pointers, n.numKeys, ToNode(left));
      assert n.pointers[..n.numKeys + 1][..leftIndex] == n.pointers[..leftIndex];
      LeftIndexIs(order, root, nodes, t, leaves, left, key, right, p, i, leftIndex);
      if n.numKeys < order - 1 {
        var r := InsertIntoNode(order, n, leftIndex, key, ToNode(right));
        nodes := nodes[parent.node := r];
        InsertNodeStep(order, root, old(nodes), t, leaves, left, key, right, p, i, n, r);
      } else {
        InsertIntoNodeAfterSplitting(left, parent.node, leftIndex, key, right);
      }
    }

    /** insert_into_leaf_after_splitting, from the filled temporary arrays to its call of insert_into_parent. */
    method SplitFullLeaf(x: NodeId, tempKeys: seq<int>, tempPointers: seq<Pointer>, ghost t1: Links)
      returns (newKey: int, y: NodeId, ghost p: NodeId, ghost i: nat)
      requires Good(order, root, nodes, t, leaves, {}) && AllIn(t, leaves) && FreshAbove(nodes, nextNode)
      requires x in t && t[x].level == 0 && Matches(order, nodes, t, x)
      requires LeafEditOf(t, t1, x, tempKeys, tempPointers) && |tempKeys| == |tempPointers| == order
      modifies this`nodes, this`nextNode, this`t, this`leaves
      ensures PendingInsert(order, root, nodes, t, leaves, x, newKey, y, p, i) && AllIn(t, leaves) &&
              FreshAbove(nodes, nextNode)
      ensures AllIn(t1, old(leaves)) && SameEntries(t1, old(leaves), t, leaves)
    {
      hide Good, PendingInsert, Wf, KeysWf;
      y := MakeNode();
      var oldLeaf, newLeaf := SplitLeafArrays(order, nodes[x], nodes[y], y, tempKeys, tempPointers);
      nodes := nodes[x := oldLeaf][y := newLeaf];
      newKey := newLeaf.keys[0];
      ghost var t', leaves';
      t', leaves', p, i := LeafSplitStep(order, root, old(nodes), t, leaves, x, t1, y, oldLeaf, newLeaf, nodes);
      t, leaves := t', leaves';
    }

    method InsertIntoLeafAfterSplitting(x: NodeId, key: int, rec: Pointer) returns (ghost pos: nat)
      requires Good(order, root, nodes, t, leaves, {}) && AllIn(t, leaves) && FreshAbove(nodes, nextNode)
      requires x in t && t[x].level == 0 && t[x].lo <= key < t[x].hi && key !in t[x].keys && |t[x].keys| == order - 1 &&
               rec.ToRecord?
      requires Matches(order, nodes, t, x)
      modifies this`root, this`nodes, this`nextNode, this`t, this`leaves
      ensures Good(order, root, nodes, t, leaves, {}) && AllIn(t, leaves) && FreshAbove(nodes, nextNode)
      ensures SortedAt(FlatKeys(old(t), old(leaves)), pos, key) &&
              |FlatKeys(old(t), old(leaves))| == |FlatPtrs(old(t), old(leaves))|
      ensures FlatKeys(t, leaves) == InsertAt(FlatKeys(old(t), old(leaves)), pos, key)
      ensures FlatPtrs(t, leaves) == InsertAt(FlatPtrs(old(t), old(leaves)), pos, rec)
      ensures AllKeys(t) <= AllKeys(old(t)) + {key}
    {
      hide Wf, Chain, Match, Occupancy, SortedAt, PendingInsert, KeysWf, AllKeys;
      LeafPtrs(t, x);
      var n := nodes[x];
      var at := InsertionPoint(n.keys, n.numKeys, key);
      var tempKeys := SpreadAround(n.keys, n.numKeys, at, key);
      var tempPointers := SpreadAround(n.pointers, n.numKeys, at, rec);
      ghost var t1 := t[x := t[x].(keys := tempKeys, ptrs := tempPointers)];
      ghost var j := LeafIndex(t, leaves, x);
      InsertEdits(t, t1, x, at, key, rec);
      pos := InsertLeafEntry(t, leaves, j, x, at, key, rec, t1);
      InsertKnown(t, t1, x, at, key, rec);
      hide Good, InsertsEntry, InsertAt, LeafEditOf;
      var newKey, y, p, i := SplitFullLeaf(x, tempKeys, tempPointers, t1);
      InsertIntoParent(x, newKey, y, p, i);
    }

    method InsertIntoRoomyLeaf(x: NodeId, key: int, rec: Pointer) returns (ghost pos: nat)
      requires Good(order, root, nodes, t, leaves, {}) && AllIn(t, leaves) && FreshAbove(nodes, nextNode)
      requires x in t && t[x].level == 0 && t[x].lo <= key < t[x].hi && key !in t[x].keys && |t[x].keys| < order - 1 &&
               rec.ToRecord?
      requires Matches(order, nodes, t, x)
      modifies this`nodes, this`t
      ensures Good(order, root, nodes, t, leaves, {}) && AllIn(t, leaves) && FreshAbove(nodes, nextNode)
      ensures SortedAt(FlatKeys(old(t), leaves), pos, key) && |FlatKeys(old(t), leaves)| == |FlatPtrs(old(t), leaves)|
      ensures FlatKeys(t, leaves) == InsertAt(FlatKeys(old(t), leaves), pos, key)
      ensures FlatPtrs(t, leaves) == InsertAt(FlatPtrs(old(t), leaves), pos, rec)
      ensures AllKeys(t) <= AllKeys(old(t)) + {key}
    {
      hide Wf, Chain, Match, Occupancy, SortedAt, AllKeys;
      LeafPtrs(t, x);
      var r, at := InsertIntoLeaf(order, nodes[x], key, rec);
      ghost var t1 := t[x := t[x].(keys := InsertAt(t[x].keys, at, key), ptrs := InsertAt(t[x].ptrs, at, rec))];
      pos := LeafInsertStep(order, root, nodes, t, leaves, x, at, key, rec, r, t1);
      InsertKnown(t, t1, x, at, key, rec);
      nodes := nodes[x := r];
      t := t1;
    }

    method StartNewTree(key: int, rec: RecordId, ghost v: int)
      requires order >= 3 && nodes == map[] && FreshAbove(nodes, nextNode) && 0 <= key < KEY_LIMIT
      modifies this`root, this`nodes, this`nextNode, this`t, this`leaves
      ensures !root.Null? && Good(order, root, nodes, t, leaves, {}) && AllIn(t, leaves) && FreshAbove(nodes, nextNode)
      ensures Represents(map[key := v], FlatKeys(t, leaves), FlatPtrs(t, leaves), map[rec := v]) && AllKeys(t) == {key}
    {
      hide Wf, Chain, Match, Occupancy, AllKeys;
      var y := MakeNode();
      var n := nodes[y].(isLeaf := true);
      n := n.(keys := n.keys[0 := key], pointers := n.pointers[0 := ToRecord(rec)][order - 1 := Null], parent := Null,
              numKeys := 1);
      nodes := nodes[y := n];
      root := ToNode(y);
      assert nodes == map[y := n];
      ghost var t', leaves' := NewTreeStep(order, y, n, key, rec, v);
      t, leaves := t', leaves';
    }

    /** Insertion of a key that is absent, into a tree that is not empty. */
    method InsertAbsent(key: int, rec: RecordId, ghost v: int)
      requires Valid() && !root.Null? && 0 <= key < KEY_LIMIT && key !in Model && rec !in records
      modifies this`root, this`nodes, this`nextNode, this`t, this`leaves
      ensures !root.Null? && Good(order, root, nodes, t, leaves, {}) && AllIn(t, leaves) && FreshAbove(nodes, nextNode)
      ensures Represents(Model[key := v], FlatKeys(t, leaves), FlatPtrs(t, leaves), records[rec := v])
      ensures AllKeys(t) <= AllKeys(old(t)) + {key}
    {
      var leaf := FindLeaf(key);
      var x := leaf.node;
      LeafDecides(t, leaves, Model, records, x, key);
      hide Wf, Chain, Match, Occupancy, Represents, AllKeys;
      ghost var pos;
      if nodes[x].numKeys < order - 1 {
        pos := InsertIntoRoomyLeaf(x, key, ToRecord(rec));
      } else {
        pos := InsertIntoLeafAfterSplitting(x, key, ToRecord(rec));
      }
      RootFacts(order, root, nodes, t, leaves, {});
      InsertRepresents(Model, FlatKeys(old(t), old(leaves)), FlatPtrs(old(t), old(leaves)), records, pos, key, rec, v);
    }

    method Insert(key: int, value: int)
      requires Valid() && 0 <= key < KEY_LIMIT
      modifies this
      ensures Valid() && Model == old(Model)[key := value] && Known() <= old(Known()) + {key}
    {
      hide Good, Represents, AllKeys;
      var rec, leaf := Find(key);
      if !rec.Null? {
        UpdateFound(key, value, rec, leaf);
        records := records[rec.record := value];
        Model := Model[key := value];
        return;
      }
      var r := nextRecord;
      nextRecord := nextRecord + 1;
      if root.Null? {
        StartNewTree(key, r, value);
        assert records[r := value] == map[r := value] && Model[key := value] == map[key := value];
      } else {
        InsertAbsent(key, r, value);
      }
      records := records[r := value];
      Model := Model[key := value];
    }

    lemma UpdateFound(key: int, value: int, rec: Pointer, leaf: Pointer)
      requires Valid() && !root.Null? && leaf.ToNode? && leaf.node in t && t[leaf.node].level == 0 && rec.ToRecord?
      requires exists i ::
                 0 <= i < |t[leaf.node].keys| && i < |t[leaf.node].ptrs| && t[leaf.node].keys[i] == key &&
                 t[leaf.node].ptrs[i] == rec
      ensures Represents(Model[key := value], FlatKeys(t, leaves), FlatPtrs(t, leaves), records[rec.record := value])
    {
      var i :| 0 <= i < |t[leaf.node].keys| && i < |t[leaf.node].ptrs| && t[leaf.node].keys[i] == key &&
               t[leaf.node].ptrs[i] == rec;
      UpdateStep(Model, t, leaves, records, leaf.node, i, value);
    }

    // ---- Deletion ------------------------------------------------------------------------

    /** adjust_root. */
    method AdjustRoot(x: NodeId, ghost dead: set<NodeId>)
      requires Short(order, root, nodes, t, leaves, dead, x) && root == ToNode(x) && FreshAbove(nodes, nextNode)
      modifies this`root, this`nodes, this`t
      ensures FreshAbove(nodes, nextNode) && AllIn(old(t), leaves)
      ensures root.Null? ==> nodes.Keys == dead && FlatKeys(old(t), leaves) == [] && FlatPtrs(old(t), leaves) == []
      ensures !root.Null? ==>
                Good(order, root, nodes, t, leaves, dead) && AllIn(t, leaves) && SameEntries(old(t), leaves, t, leaves)
    {
      assert Matches(order, nodes, t, x) && t[x].parent == TOP by { RootIs(t, root, x); }
      ChainIn(t, leaves);
      hide Wf, Chain, Match, Occupancy;
      if nodes[x].numKeys > 0 {
        ShortEnough(order, root, nodes, t, leaves, dead, x);
      } else if !nodes[x].isLeaf {
        ghost var t', c' := ShrinkStep(order, root, nodes, t, leaves, dead, x);
        var c := nodes[x].pointers[0].node;
        nodes := nodes[c := nodes[c].(parent := Null)];
        nodes := nodes - {x};
        assert nodes == (old(nodes) - {x})[c := old(nodes)[c].(parent := Null)];
        root := ToNode(c);
        t := t';
      } else {
        EmptyStep(order, root, nodes, t, leaves, dead, x);
        nodes := nodes - {x};
        root := Null;
      }
    }

    /** coalesce_nodes up to its call of delete_entry: r is emptied into its left neighbour l. */
    method Coalesce(x: NodeId, p: NodeId, i: nat, l: NodeId, r: NodeId, kPrime: int, ghost dead: set<NodeId>)
      requires Short(order, root, nodes, t, leaves, dead, x) && (x == l || x == r) && MergeAt(t, p, i, l, r) && p != TOP
      requires Matches(order, nodes, t, l) && Matches(order, nodes, t, r) && kPrime == t[p].keys[i]
      requires nodes[l].numKeys + nodes[r].numKeys < if nodes[r].isLeaf then order else order - 1
      requires AllIn(t, leaves) && FreshAbove(nodes, nextNode) && t[l].level == t[r].level
      modifies this`nodes, this`t, this`leaves
      ensures PendingDelete(order, root, nodes, t, leaves, dead + {r}, p, i, kPrime, ToNode(r)) &&
              FreshAbove(nodes, nextNode)
      ensures AllIn(t, leaves) && SameEntries(old(t), old(leaves), t, leaves)
      ensures t[TOP].level == old(t)[TOP].level && t[p].level == old(t)[p].level
    {
      hide Wf, Chain, Match, Occupancy, PendingDelete, Short;
      var m := JoinArrays(order, nodes[l], nodes[r], kPrime);
      JoinMatches(order, t, p, i, l, r, nodes[l], nodes[r], m);
      nodes := nodes[l := m];
      if !m.isLeaf {
        nodes := nodes[r := nodes[r].(numKeys := 0)];
        JoinedKids(order, root, old(nodes), t, leaves, dead, x, p, i, l, r, m);
        SetParents(l, m.numKeys + 1);
      }
      CoalescedIs(order, root, old(nodes), t, leaves, dead, x, p, i, l, r, m, nodes);
      ghost var t', leaves' := CoalesceStep(order, root, old(nodes), t, leaves, dead, x, p, i, l, r, m, nodes);
      t, leaves := t', leaves';
    }

    /** redistribute_nodes, with a neighbour to the left. */
    method RedistributeFromLeft(p: NodeId, i: nat, l: NodeId, r: NodeId, kPrime: int, ghost dead: set<NodeId>)
      requires Short(order, root, nodes, t, leaves, dead, r) && MergeAt(t, p, i, l, r) && p != TOP
      requires Matches(order, nodes, t, l) && Matches(order, nodes, t, r) && Matches(order, nodes, t, p) &&
               kPrime == t[p].keys[i]
      requires |t[l].keys| + |t[r].keys| >= if t[r].level == 0 then order else order - 1
      requires |t[r].keys| == MinKeys(order, t[r].level) - 1
      requires AllIn(t, leaves) && FreshAbove(nodes, nextNode) && t[l].level == t[r].level
      modifies this`nodes, this`t
      ensures Good(order, root, nodes, t, leaves, dead) && FreshAbove(nodes, nextNode)
      ensures AllIn(t, leaves) && SameEntries(old(t), leaves, t, leaves)
    {
      BorrowSizes(order, t, p, i, l, r, r);
      hide Wf, Chain, Match, Occupancy, Good, Short, FreshAbove, GaveLast, BorrowedHeap;
      var n', nb', pn' := BorrowFromLeft(order, nodes[r], nodes[l], nodes[p], i, kPrime);
      ghost var h, c := nodes, r;
      nodes := nodes[r := n'][l := nb'][p := pn'];
      if !n'.isLeaf {
        c := MovedKid(order, root, h, t, leaves, dead, r, p, i, l, r, l);
        var tmp := n'.pointers[0].node;
        nodes := nodes[tmp := nodes[tmp].(parent := ToNode(r))];
      }
      BorrowedHeapIs(h, t, p, l, r, |t[l].keys| - 1, r, l, n', nb', pn', c, nodes);
      ghost var t' := LeftBorrowStep(order, root, h, t, leaves, dead, p, i, l, r, n', nb', pn', nodes);
      FreshSame(h, nodes, nextNode);
      t := t';
    }

    /** redistribute_nodes, for the leftmost child. */
    method RedistributeFromRight(p: NodeId, i: nat, l: NodeId, r: NodeId, kPrime: int, ghost dead: set<NodeId>)
      requires Short(order, root, nodes, t, leaves, dead, l) && MergeAt(t, p, i, l, r) && p != TOP
      requires Matches(order, nodes, t, l) && Matches(order, nodes, t, r) && Matches(order, nodes, t, p) &&
               kPrime == t[p].keys[i]
      requires |t[l].keys| + |t[r].keys| >= if t[r].level == 0 then order else order - 1
      requires |t[l].keys| == MinKeys(order, t[l].level) - 1
      requires AllIn(t, leaves) && FreshAbove(nodes, nextNode) && t[l].level == t[r].level
      modifies this`nodes, this`t
      ensures Good(order, root, nodes, t, leaves, dead) && FreshAbove(nodes, nextNode)
      ensures AllIn(t, leaves) && SameEntries(old(t), leaves, t, leaves)
    {
      BorrowSizes(order, t, p, i, l, r, l);
      hide Wf, Chain, Match, Occupancy, Good, Short, FreshAbove, GaveFirst, BorrowedHeap;
      var n', nb', pn' := BorrowFromRight(order, nodes[l], nodes[r], nodes[p], i, kPrime);
      ghost var c := l;
      nodes := nodes[l := n'][r := nb'][p := pn'];
      if !n'.isLeaf {
        c := MovedKid(order, root, old(nodes), t, leaves, dead, l, p, i, l, r, r);
        var tmp := n'.pointers[n'.numKeys].node;
        nodes := nodes[tmp := nodes[tmp].(parent := ToNode(l))];
      }
      BorrowedHeapIs(old(nodes), t, p, l, r, |t[l].keys| + 1, l, r, n', nb', pn', c, nodes);
      ghost var t' := RightBorrowStep(order, root, old(nodes), t, leaves, dead, p, i, l, r, n', nb', pn', nodes);
      FreshSame(old(nodes), nodes, nextNode);
      t := t';
    }

    /** delete_entry up to the decision what to do about the size of x. */
    method RemoveFromArray(x: NodeId, key: int, ptr: Pointer, ghost i: nat, ghost dead: set<NodeId>)
      requires PendingDelete(order, root, nodes, t, leaves, dead, x, i, key, ptr) && FreshAbove(nodes, nextNode)
      modifies this`nodes
      ensures Short(order, root, nodes, t, leaves, dead, x) && FreshAbove(nodes, nextNode) &&
              Matches(order, nodes, t, x)
    {
      hide Wf, Chain, Match, Occupancy, Short, FreshAbove;
      PendingEntry(order, nodes[x], t[x], i, key, ptr);
      var r, ik, ip := RemoveEntryFromNode(order, nodes[x], key, ptr);
      RemovedMatches(order, nodes[x], t[x], i, key, ptr, ik, ip, r);
      RemovedShort(order, root, nodes, t, leaves, dead, x, i, key, ptr, r);
      FreshSame(nodes, nodes[x := r], nextNode);
      nodes := nodes[x := r];
    }

    method DeleteEntry(x: NodeId, key: int, ptr: Pointer, ghost i: nat, ghost dead: set<NodeId>)
      requires PendingDelete(order, root, nodes, t, leaves, dead, x, i, key, ptr) && AllIn(t, leaves) &&
               FreshAbove(nodes, nextNode)
      modifies this`root, this`nodes, this`t, this`leaves
      ensures FreshAbove(nodes, nextNode)
      ensures root.Null? ==>
                nodes.Keys == dead && FlatKeys(old(t), old(leaves)) == [] && FlatPtrs(old(t), old(leaves)) == []
      ensures !root.Null? ==>
                Good(order, root, nodes, t, leaves, dead) && AllIn(t, leaves) &&
                SameEntries(old(t), old(leaves), t, leaves)
      decreases t[TOP].level - t[x].level, 1
    {
      hide Wf, Chain, Match, Occupancy, PendingDelete, FlatKeys, FlatPtrs;
      LevelBelow(order, root, nodes, t, leaves, dead, x, i, key, ptr);
      RemoveFromArray(x, key, ptr, i, dead);
      var n := nodes[x];
      if ToNode(x) == root {
        AdjustRoot(x, dead);
        return;
      }
      var minKeys := if n.isLeaf then Cut(order - 1) else Cut(order) - 1;
      ParentFacts(order, root, nodes, t, leaves, dead, x);
      RootFactsShort(order, root, nodes, t, leaves, dead, x);
      if n.numKeys >= minKeys {
        ShortEnough(order, root, nodes, t, leaves, dead, x);
        return;
      }
      Rebalance(x, dead);
    }

    /** The part of delete_entry for a node below the minimum: choose the neighbour, coalesce or redistribute. */
    method Rebalance(x: NodeId, ghost dead: set<NodeId>)
      requires Short(order, root, nodes, t, leaves, dead, x) && AllIn(t, leaves) && FreshAbove(nodes, nextNode)
      requires ToNode(x) != root && |t[x].keys| == MinKeys(order, t[x].level) - 1
      modifies this`root, this`nodes, this`t, this`leaves
      ensures FreshAbove(nodes, nextNode)
      ensures root.Null? ==>
                nodes.Keys == dead && FlatKeys(old(t), old(leaves)) == [] && FlatPtrs(old(t), old(leaves)) == []
      ensures !root.Null? ==>
                Good(order, root, nodes, t, leaves, dead) && AllIn(t, leaves) &&
                SameEntries(old(t), old(leaves), t, leaves)
      decreases t[TOP].level - t[x].level, 0
    {
      hide Wf, Chain, Match, Occupancy, PendingDelete, FlatKeys, FlatPtrs;
      ParentFacts(order, root, nodes, t, leaves, dead, x);
      var p := nodes[x].parent.node;
      var at := PositionInParent(nodes[p].pointers, nodes[p].numKeys + 1, ToNode(x));
      ghost var p', i', l', r' := NeighbourFacts(order, root, nodes, t, leaves, dead, x, at);
      MergeFacts(t, p', i', l', r');
      hide KeysWf, KidsWf, KidWf;
      var i := if at == 0 then 0 else at - 1;
      var kPrime := nodes[p].keys[i];
      var l := if at == 0 then x else nodes[p].pointers[at - 1].node;
      var r := if at == 0 then nodes[p].pointers[1].node else x;
      var capacity := if nodes[x].isLeaf then order else order - 1;
      if nodes[l].numKeys + nodes[r].numKeys < capacity {
        Coalesce(x, p, i, l, r, kPrime, dead);
        DeleteEntry(p, kPrime, ToNode(r), i, dead + {r});
        if !root.Null? { FreeDead(order, root, nodes, t, leaves, dead, r); }
        nodes := nodes - {r};
      } else if at == 0 {
        RootFactsShort(order, root, nodes, t, leaves, dead, x);
        RedistributeFromRight(p, i, l, r, kPrime, dead);
      } else {
        RootFactsShort(order, root, nodes, t, leaves, dead, x);
        RedistributeFromLeft(p, i, l, r, kPrime, dead);
      }
    }

    method Delete(key: int)
      requires Valid() && 0 <= key < KEY_LIMIT
      modifies this
      ensures Valid() && Model == old(Model) - {key} && Known() <= old(Known())
    {
      hide Good, Represents, AllKeys, PendingDelete, FlatKeys, FlatPtrs, FreshAbove, Matches;
      var rec, leaf := Find(key);
      if !rec.Null? && !leaf.Null? {
        ghost var x := leaf.node;
        ghost var i :| 0 <= i < |t[x].keys| && i < |t[x].ptrs| && t[x].keys[i] == key && t[x].ptrs[i] == rec;
        ghost var t1 := LeafDeleteStep(order, root, nodes, t, leaves, records, Model, x, i);
        t := t1;
        DeleteEntry(leaf.node, key, rec, i, {});
        records := records - {rec.record};
        Model := Model - {key};
        if root.Null? { RepresentsNothing(Model, records); }
      } else {
        assert Model - {key} == Model;
      }
    }
  }
}

