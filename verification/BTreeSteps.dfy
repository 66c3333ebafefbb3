/** The value side of the program's functions: what the loops on one node's arrays compute, and the proof that each
    step leads from one state of an operation to the next. */
module BTreeSteps {
  import opened SeqEdit
  import opened ArrayLoops
  import opened BTreeModel
  import opened BTreeChain
  import opened BTreeEntries
  import opened BTreeState
  import opened BTreeDelete
  import opened BTreeRange

  /** Node ids below nextNode have been handed out. */
  ghost predicate FreshAbove(h: Heap, nextNode: NodeId) {
    nextNode > TOP && forall x :: x in h ==> TOP < x < nextNode
  }

  lemma FreshSame(h: Heap, h': Heap, nextNode: NodeId)
    requires FreshAbove(h, nextNode) && h'.Keys <= h.Keys
    ensures FreshAbove(h', nextNode)
  {
  }

  ghost predicate RecordsBelow(records: map<RecordId, int>, nextRecord: RecordId) {
    forall r :: r in records ==> r < nextRecord
  }

  lemma RootFacts(order: nat, root: Pointer, h: Heap, t: Links, leaves: seq<NodeId>, dead: set<NodeId>)
    requires Good(order, root, h, t, leaves, dead)
    ensures root.ToNode? && root.node in t && root.node != TOP && t[root.node].lo == 0 && t[root.node].hi == KEY_LIMIT
    ensures t[root.node].parent == TOP && Matches(order, h, t, root.node)
  {
    assert NodeWf(t, TOP) && KidWf(t, TOP, 0);
    assert Matches(order, h, t, root.node);
  }

  /** The child that find_leaf chooses is responsible for the key. */
  lemma Descend(order: nat, h: Heap, t: Links, x: NodeId, i: nat, key: int)
    requires Wf(t) && Match(order, h, t, {}) && x in t && x != TOP && t[x].level > 0 && t[x].lo <= key < t[x].hi
    requires i <= |t[x].keys| && (forall j :: 0 <= j < i ==> t[x].keys[j] <= key) &&
             (i < |t[x].keys| ==> key < t[x].keys[i])
    ensures i < |t[x].ptrs| && t[x].ptrs[i].ToNode?
    ensures var c := t[x].ptrs[i].node;
            c in t && c != TOP && t[c].lo <= key < t[c].hi && t[c].level < t[x].level && Matches(order, h, t, c)
  {
    assert NodeWf(t, x) && KidWf(t, x, i);
    assert Matches(order, h, t, t[x].ptrs[i].node);
  }

  lemma MiddleDecides(m: map<int, int>, records: map<RecordId, int>, a: seq<int>, ks: seq<int>, b: seq<int>,
                      pa: seq<Pointer>, ps: seq<Pointer>, pb: seq<Pointer>, key: int)
    requires |a| == |pa| && |ks| == |ps| && |b| == |pb| && Valued(m, a + ks + b, pa + ps + pb, records)
    requires key !in a && key !in b
    ensures key in m <==> key in ks
    ensures forall i ::
              0 <= i < |ks| && ks[i] == key ==>
                ps[i].ToRecord? && ps[i].record in records && m[key] == records[ps[i].record]
  {
    var K, P := a + ks + b, pa + ps + pb;
    forall i | 0 <= i < |ks| ensures K[|a| + i] == ks[i] && P[|a| + i] == ps[i] {}
    if key in m {
      assert key in K;
    }
  }

  /** The leaf responsible for a key decides whether the whole tree has it. */
  lemma LeafDecides(t: Links, leaves: seq<NodeId>, m: map<int, int>, records: map<RecordId, int>, x: NodeId, key: int)
    requires Wf(t) && Chain(t, leaves) && AllIn(t, leaves) &&
             Valued(m, FlatKeys(t, leaves), FlatPtrs(t, leaves), records)
    requires x in t && t[x].level == 0 && t[x].lo <= key < t[x].hi
    ensures key in m <==> key in t[x].keys
    ensures |t[x].ptrs| == |t[x].keys|
    ensures forall i :: 0 <= i < |t[x].keys| && t[x].keys[i] == key ==>
      t[x].ptrs[i].ToRecord? && t[x].ptrs[i].record in records && m[key] == records[t[x].ptrs[i].record]
  {
    var j := LeafIndex(t, leaves, x);
    LeafInContext(t, leaves, j);
    var a, b := leaves[..j], leaves[j + 1..];
    MiddleDecides(m, records, FlatKeys(t, a), t[x].keys, FlatKeys(t, b), FlatPtrs(t, a), t[x].ptrs, FlatPtrs(t, b),
        key);
  }

  /** The child to descend to: as many keys as are at most the one looked for are passed. */
  method ChooseChild(keys: seq<int>, numKeys: nat, key: int) returns (i: nat)
    requires numKeys <= |keys|
    ensures i <= numKeys && (forall j :: 0 <= j < i ==> keys[j] <= key) && (i < numKeys ==> key < keys[i])
  {
    i := 0;
    while i < numKeys && key >= keys[i]
      invariant 0 <= i <= numKeys
      invariant forall j :: 0 <= j < i ==> keys[j] <= key
    {
      i := i + 1;
    }
  }

  /** The first position of the key, or the number of keys if it is not among them. */
  method Search(keys: seq<int>, numKeys: nat, key: int) returns (i: nat)
    requires numKeys <= |keys|
    ensures i <= numKeys && key !in keys[..i] && (i < numKeys ==> keys[i] == key)
  {
    i := 0;
    while i < numKeys && keys[i] != key
      invariant 0 <= i <= numKeys && key !in keys[..i]
    {
      i := i + 1;
    }
  }

  /** The first position whose key is not below the given one. */
  method InsertionPoint(keys: seq<int>, numKeys: nat, key: int) returns (i: nat)
    requires numKeys <= |keys|
    ensures i <= numKeys && (forall j :: 0 <= j < i ==> keys[j] < key) && (i < numKeys ==> key <= keys[i])
  {
    i := 0;
    while i < numKeys && keys[i] < key
      invariant 0 <= i <= numKeys
      invariant forall j :: 0 <= j < i ==> keys[j] < key
    {
      i := i + 1;
    }
  }

  function BlankNode(order: nat): (n: Node)
    requires order >= 3
    ensures !n.isLeaf && n.numKeys == 0 && |n.keys| == order - 1 && |n.pointers| == order && n.parent == Null
  {
    Node(false, 0, seq(order - 1, _ => 0), seq(order, _ => Null), Null)
  }

  /** insert_into_leaf. */
  method InsertIntoLeaf(order: nat, n: Node, key: int, rec: Pointer) returns (r: Node, at: nat)
    requires order >= 3 && |n.keys| == order - 1 && |n.pointers| == order && n.numKeys < order - 1
    ensures r == n.(numKeys := n.numKeys + 1, keys := r.keys, pointers := r.pointers)
    ensures |r.keys| == order - 1 && |r.pointers| == order && r.pointers[order - 1] == n.pointers[order - 1]
    ensures at <= n.numKeys && (forall j :: 0 <= j < at ==> n.keys[j] < key) && (at < n.numKeys ==> key <= n.keys[at])
    ensures r.keys[..r.numKeys] == InsertAt(n.keys[..n.numKeys], at, key)
    ensures r.pointers[..r.numKeys] == InsertAt(n.pointers[..n.numKeys], at, rec)
  {
    at := InsertionPoint(n.keys, n.numKeys, key);
    var keys := ShiftRightInsert(n.keys, n.numKeys, at, key);
    var pointers := ShiftRightInsert(n.pointers, n.numKeys, at, rec);
    r := n.(keys := keys, pointers := pointers, numKeys := n.numKeys + 1);
    assert pointers[order - 1] == pointers[n.numKeys + 1..][order - 2 - n.numKeys];
  }

  /** insert_into_node. */
  method InsertIntoNode(order: nat, n: Node, leftIndex: nat, key: int, right: Pointer) returns (r: Node)
    requires order >= 3 && |n.keys| == order - 1 && |n.pointers| == order && leftIndex <= n.numKeys < order - 1
    ensures r == n.(numKeys := n.numKeys + 1, keys := r.keys, pointers := r.pointers)
    ensures |r.keys| == order - 1 && |r.pointers| == order
    ensures r.keys[..r.numKeys] == InsertAt(n.keys[..n.numKeys], leftIndex, key)
    ensures r.pointers[..r.numKeys + 1] == InsertAt(n.pointers[..n.numKeys + 1], leftIndex + 1, right)
  {
    var pointers := ShiftRightInsert(n.pointers, n.numKeys + 1, leftIndex + 1, right);
    var keys := ShiftRightInsert(n.keys, n.numKeys, leftIndex, key);
    r := n.(keys := keys, pointers := pointers, numKeys := n.numKeys + 1);
  }

  /** get_left_index. */
  method GetLeftIndex(pointers: seq<Pointer>, numKeys: nat, left: Pointer) returns (i: nat)
    requires numKeys < |pointers|
    ensures i <= numKeys + 1 && left !in pointers[..i] && (i <= numKeys ==> pointers[i] == left)
  {
    i := 0;
    while i <= numKeys && pointers[i] != left
      invariant 0 <= i <= numKeys + 1 && left !in pointers[..i]
    {
      i := i + 1;
    }
  }

  /** Half of the temporary arrays of a split goes into a node: keys tmp[from..to], and the pointers beside them
      (one more than keys when the node is internal). */
  method FillNode(order: nat, n: Node, keys: seq<int>, pointers: seq<Pointer>, from: nat, count: nat) returns (r: Node)
    requires order >= 3 && |n.keys| == order - 1 && |n.pointers| == order && count <= order - 1
    requires from + count <= |keys| && from + count + (if n.isLeaf then 0 else 1) <= |pointers|
    ensures r == n.(numKeys := count, keys := r.keys, pointers := r.pointers)
    ensures |r.keys| == order - 1 && |r.pointers| == order
    ensures r.keys[..count] == keys[from..from + count]
    ensures var g := if n.isLeaf then 0 else 1; r.pointers[..count + g] == pointers[from..from + count + g]
    ensures n.isLeaf ==> r.pointers[order - 1] == n.pointers[order - 1]
  {
    var ks := CopyInto(n.keys, 0, keys, from, count);
    var ps := CopyInto(n.pointers, 0, pointers, from, if n.isLeaf then count else count + 1);
    if n.isLeaf { ps := Fill(ps, count, order - 1, Null); }
    r := n.(keys := ks, pointers := ps, numKeys := count);
  }

  /** insert_into_node_after_splitting: the temporary arrays are dealt to the old and the new node. */
  method SplitArrays(order: nat, n: Node, blank: Node, tempKeys: seq<int>, tempPointers: seq<Pointer>)
    returns (oldNode: Node, newNode: Node, kPrime: int)
    requires order >= 3 && |n.keys| == |blank.keys| == order - 1 && |n.pointers| == |blank.pointers| == order
    requires !n.isLeaf && !blank.isLeaf && |tempKeys| == order && |tempPointers| == order + 1
    ensures SplitFrom(order, tempKeys, tempPointers, n.parent, oldNode, newNode, kPrime)
  {
    var split := Cut(order);
    oldNode := FillNode(order, n, tempKeys, tempPointers, 0, split - 1);
    kPrime := tempKeys[split - 1];
    newNode := FillNode(order, blank, tempKeys, tempPointers, split, order - split);
    newNode := newNode.(parent := oldNode.parent);
  }

  ghost predicate SplitFrom(order: nat, ks: seq<int>, ps: seq<Pointer>, parent: Pointer, oldNode: Node, newNode: Node,
      kPrime: int)
    requires order >= 3 && |ks| == order && |ps| == order + 1
  {
    var c := Cut(order);
    oldNode == Node(false, c - 1, oldNode.keys, oldNode.pointers, parent) &&
    newNode == Node(false, order - c, newNode.keys, newNode.pointers, parent) &&
    |oldNode.keys| == |newNode.keys| == order - 1 && |oldNode.pointers| == |newNode.pointers| == order &&
    oldNode.keys[..c - 1] == ks[..c - 1] && oldNode.pointers[..c] == ps[..c] && kPrime == ks[c - 1] &&
    newNode.keys[..order - c] == ks[c..] && newNode.pointers[..order - c + 1] == ps[c..]
  }

  /** The arrays of the two halves are the two halves of the linked node. */
  lemma HalvesMatch(order: nat, l: LNode, oldNode: Node, newNode: Node, kPrime: int)
    requires order >= 3 && l.level > 0 && |l.keys| == order && |l.ptrs| == order + 1
    requires SplitFrom(order, l.keys, l.ptrs, ParentPointer(l.parent), oldNode, newNode, kPrime)
    ensures kPrime == l.keys[Cut(order) - 1] && newNode.pointers[..newNode.numKeys + 1] == l.ptrs[Cut(order)..]
    ensures var s := Cut(order) - 1;
      MatchNode(order, oldNode, l.(keys := l.keys[..s], ptrs := l.ptrs[..s + 1], hi := l.keys[s])) &&
      MatchNode(order, newNode, LNode(l.level, l.keys[s], l.hi, l.keys[s + 1..], l.ptrs[s + 1..], l.next, l.parent))
  {
  }

  lemma SplitReady(order: nat, h: Heap, t: Links, p: NodeId, oldNode: Node, newNode: Node, kPrime: int)
    requires order >= 3 && Wf(t) && Allocated(h, t, {}) && p in t && t[p].level > 0 && |t[p].keys| == order &&
             |t[p].ptrs| == order + 1
    requires SplitFrom(order, t[p].keys, t[p].ptrs, ParentPointer(t[p].parent), oldNode, newNode, kPrime)
    ensures kPrime == t[p].keys[Cut(order) - 1] && newNode.numKeys < |newNode.pointers| == order &&
            newNode.pointers[..newNode.numKeys + 1] == t[p].ptrs[Cut(order)..]
    ensures forall k ::
              0 <= k <= newNode.numKeys ==>
                newNode.pointers[k].ToNode? && newNode.pointers[k].node in h && newNode.pointers[k].node != p
    ensures var s, l := Cut(order) - 1, t[p];
      MatchNode(order, oldNode, l.(keys := l.keys[..s], ptrs := l.ptrs[..s + 1], hi := l.keys[s])) &&
      MatchNode(order, newNode, LNode(l.level, l.keys[s], l.hi, l.keys[s + 1..], l.ptrs[s + 1..], l.next, l.parent))
  {
    HalvesMatch(order, t[p], oldNode, newNode, kPrime);
    KidsAllocated(h, t, {}, p);
    forall k | 0 <= k <= newNode.numKeys ensures newNode.pointers[k] == t[p].ptrs[Cut(order) + k] {
      assert newNode.pointers[..newNode.numKeys + 1][k] == t[p].ptrs[Cut(order)..][k];
    }
  }

  /** With the pending child put back, a full array holds exactly the lists of the linked node. */
  lemma PendingArrays(order: nat, n: Node, l: LNode, i: nat)
    requires order >= 3 && l.level > 0 && |l.keys| == order && |l.ptrs| == order + 1 && i < order &&
             MatchNode(order, n, Without(l, i))
    ensures n.numKeys == order - 1 && !n.isLeaf && n.parent == ParentPointer(l.parent)
    ensures InsertAt(n.keys, i, l.keys[i]) == l.keys && InsertAt(n.pointers, i + 1, l.ptrs[i + 1]) == l.ptrs
  {
    var w := Without(l, i);
    assert |w.keys| == order - 1 && |w.ptrs| == order;
    assert w.keys == n.keys && w.ptrs == n.pointers;
    RemoveInsert(l.keys, i);
    RemoveInsert(l.ptrs, i + 1);
  }

  lemma InsertInside<T>(a: seq<T>, m: seq<T>, b: seq<T>, i: nat, x: T)
    requires i <= |m|
    ensures a + InsertAt(m, i, x) + b == InsertAt(a + m + b, |a| + i, x)
  {
  }

  lemma RemoveInside<T>(a: seq<T>, m: seq<T>, b: seq<T>, i: nat)
    requires i < |m|
    ensures a + RemoveAt(m, i) + b == RemoveAt(a + m + b, |a| + i)
  {
  }

  lemma SortedPosition(a: seq<int>, ks: seq<int>, b: seq<int>, at: nat, key: int)
    requires at <= |ks| && Ascending(ks) && key !in ks
    requires (forall i :: 0 <= i < at ==> ks[i] < key) && (at < |ks| ==> key <= ks[at])
    requires (forall i :: 0 <= i < |a| ==> a[i] < key) && (forall i :: 0 <= i < |b| ==> key < b[i])
    ensures forall i :: 0 <= i < |a + ks + b| ==> if i < |a| + at then (a + ks + b)[i] < key else key < (a + ks + b)[i]
  {
  }

  lemma InsertKeysWf(n: LNode, at: nat, key: int, rec: Pointer)
    requires KeysWf(n) && n.level == 0 && n.lo <= key < n.hi && at <= |n.keys| && key !in n.keys && rec.ToRecord?
    requires (forall i :: 0 <= i < at ==> n.keys[i] < key) && (at < |n.keys| ==> key <= n.keys[at])
    ensures KeysWf(n.(keys := InsertAt(n.keys, at, key), ptrs := InsertAt(n.ptrs, at, rec)))
  {
  }

  ghost predicate InsertsEntry(t: Links, t1: Links, x: NodeId, at: nat, key: int, rec: Pointer) {
    x in t && t[x].level == 0 && at <= |t[x].keys| == |t[x].ptrs| && t[x].lo <= key < t[x].hi && key !in t[x].keys &&
    rec.ToRecord? &&
    (forall i :: 0 <= i < at ==> t[x].keys[i] < key) && (at < |t[x].keys| ==> key <= t[x].keys[at]) &&
    t1 == t[x := t[x].(keys := InsertAt(t[x].keys, at, key), ptrs := InsertAt(t[x].ptrs, at, rec))]
  }

  lemma InsertEdits(t: Links, t1: Links, x: NodeId, at: nat, key: int, rec: Pointer)
    requires Wf(t) && InsertsEntry(t, t1, x, at, key, rec)
    ensures LeafEditOf(t, t1, x, t1[x].keys, t1[x].ptrs)
  {
    assert NodeWf(t, x);
    InsertKeysWf(t[x], at, key, rec);
  }

  /** The keys of the nodes change by the new one alone. */
  lemma InsertKnown(t: Links, t1: Links, x: NodeId, at: nat, key: int, rec: Pointer)
    requires InsertsEntry(t, t1, x, at, key, rec)
    ensures AllKeys(t1) <= AllKeys(t) + {key}
  {
    hide AllKeys;
    forall k | k in AllKeys(t1) && k != key ensures k in AllKeys(t) {
      var z, q := KeyPlace(t1, k);
      KeyKnown(t, z, if z == x && q > at then q - 1 else q);
    }
  }

  ghost predicate SortedAt(keys: seq<int>, pos: nat, key: int) {
    pos <= |keys| && forall i :: 0 <= i < |keys| ==> if i < pos then keys[i] < key else key < keys[i]
  }

  /** A new entry of a leaf is the same new entry of the whole list, at its sorted position. */
  lemma InsertLeafEntry(t: Links, leaves: seq<NodeId>, j: nat, x: NodeId, at: nat, key: int, rec: Pointer, t1: Links)
    returns (pos: nat)
    requires Wf(t) && Chain(t, leaves) && AllIn(t, leaves) && j < |leaves| && leaves[j] == x &&
             InsertsEntry(t, t1, x, at, key, rec)
    ensures AllIn(t1, leaves) && Chain(t1, leaves)
    ensures SortedAt(FlatKeys(t, leaves), pos, key) && |FlatKeys(t, leaves)| == |FlatPtrs(t, leaves)|
    ensures FlatKeys(t1, leaves) == InsertAt(FlatKeys(t, leaves), pos, key)
    ensures FlatPtrs(t1, leaves) == InsertAt(FlatPtrs(t, leaves), pos, rec)
  {
    InsertEdits(t, t1, x, at, key, rec);
    EditChain(t, t1, leaves, j, t1[x].keys, t1[x].ptrs);
    pos := InsertLeafPosition(t, leaves, j, x, at, key, rec, t1);
  }

  lemma InsertLeafPosition(t: Links, leaves: seq<NodeId>, j: nat, x: NodeId, at: nat, key: int, rec: Pointer, t1: Links)
    returns (pos: nat)
    requires Wf(t) && Chain(t, leaves) && AllIn(t, leaves) && j < |leaves| && leaves[j] == x &&
             InsertsEntry(t, t1, x, at, key, rec)
    ensures SortedAt(FlatKeys(t, leaves), pos, key) && |FlatKeys(t, leaves)| == |FlatPtrs(t, leaves)|
    ensures FlatKeys(t, leaves[..j]) + t1[x].keys + FlatKeys(t, leaves[j + 1..]) ==
              InsertAt(FlatKeys(t, leaves), pos, key)
    ensures FlatPtrs(t, leaves[..j]) + t1[x].ptrs + FlatPtrs(t, leaves[j + 1..]) ==
              InsertAt(FlatPtrs(t, leaves), pos, rec)
  {
    LeafInContext(t, leaves, j);
    var ka, kb := FlatKeys(t, leaves[..j]), FlatKeys(t, leaves[j + 1..]);
    var pa, pb := FlatPtrs(t, leaves[..j]), FlatPtrs(t, leaves[j + 1..]);
    pos := |ka| + at;
    assert Ascending(t[x].keys) by { assert NodeWf(t, x); }
    SortedPosition(ka, t[x].keys, kb, at, key);
    InsertInside(ka, t[x].keys, kb, at, key);
    InsertInside(pa, t[x].ptrs, pb, at, rec);
  }

  lemma KidsAllocated(h: Heap, t: Links, dead: set<NodeId>, p: NodeId)
    requires Wf(t) && Allocated(h, t, dead) && p in t && t[p].level > 0
    ensures forall k ::
              0 <= k < |t[p].ptrs| ==>
                t[p].ptrs[k].ToNode? && t[p].ptrs[k].node in h && t[p].ptrs[k].node in t && t[p].ptrs[k].node != p
  {
    forall k | 0 <= k < |t[p].ptrs|
      ensures t[p].ptrs[k].ToNode? && t[p].ptrs[k].node in h && t[p].ptrs[k].node in t && t[p].ptrs[k].node != p
    {
      assert NodeWf(t, p) && KidWf(t, p, k);
    }
  }

  lemma PendingParent(order: nat, root: Pointer, h: Heap, t: Links, leaves: seq<NodeId>,
                      left: NodeId, key: int, right: NodeId, p: NodeId, i: nat)
    requires PendingInsert(order, root, h, t, leaves, left, key, right, p, i)
    ensures order >= 3 && left in t && p in t && TOP in t && t[p].level == t[left].level + 1 <= t[TOP].level
    ensures left in h && h[left].parent == ParentPointer(p)
    ensures p != TOP ==>
      p in h && i <= h[p].numKeys < order && |h[p].keys| == order - 1 && |h[p].pointers| == order &&
      |t[p].keys| == h[p].numKeys + 1
  {
    assert NodeWf(t, left) && NodeWf(t, p);
    var _ := ParentIsInternal(t, left);
    assert Matches(order, h, t, left);
  }

  /** get_left_index finds the position at which t already has the new child. */
  lemma LeftIndexIs(order: nat, root: Pointer, h: Heap, t: Links, leaves: seq<NodeId>,
                    left: NodeId, key: int, right: NodeId, p: NodeId, i: nat, j: nat)
    requires PendingInsert(order, root, h, t, leaves, left, key, right, p, i) && p != TOP
    requires var ps := h[p].pointers[..h[p].numKeys + 1];
             j <= |ps| && ToNode(left) !in ps[..j] && (j < |ps| ==> ps[j] == ToNode(left))
    ensures j == i
  {
    PendingParent(order, root, h, t, leaves, left, key, right, p, i);
    var ps := RemoveAt(t[p].ptrs, i + 1);
    assert NodeWf(t, p);
    assert ps[i] == t[p].ptrs[i];
    if j < i { KidsDistinct(t, p, j, i); }
  }

  lemma InsertMatches(order: nat, n: Node, l: LNode, i: nat, r: Node)
    requires l.level > 0 && i < |l.keys| && |l.ptrs| == |l.keys| + 1 && MatchNode(order, n, Without(l, i)) &&
             n.numKeys < order - 1
    requires r == n.(numKeys := n.numKeys + 1, keys := r.keys, pointers := r.pointers) && |r.keys| == order - 1 &&
             |r.pointers| == order
    requires r.keys[..r.numKeys] == InsertAt(n.keys[..n.numKeys], i, l.keys[i])
    requires r.pointers[..r.numKeys + 1] == InsertAt(n.pointers[..n.numKeys + 1], i + 1, l.ptrs[i + 1])
    ensures MatchNode(order, r, l)
  {
    hide InsertAt, RemoveAt;
    RemoveInsert(l.keys, i);
    RemoveInsert(l.ptrs, i + 1);
  }

  /** The ghost side of insert_into_node. */
  lemma InsertNodeStep(order: nat, root: Pointer, h: Heap, t: Links, leaves: seq<NodeId>,
                       left: NodeId, key: int, right: NodeId, p: NodeId, i: nat, n: Node, r: Node)
    requires PendingInsert(order, root, h, t, leaves, left, key, right, p, i) && p != TOP && n == h[p] &&
             n.numKeys < order - 1
    requires r == n.(numKeys := n.numKeys + 1, keys := r.keys, pointers := r.pointers) && |r.keys| == order - 1 &&
             |r.pointers| == order
    requires i <= n.numKeys && r.keys[..r.numKeys] == InsertAt(n.keys[..n.numKeys], i, key)
    requires r.pointers[..r.numKeys + 1] == InsertAt(n.pointers[..n.numKeys + 1], i + 1, ToNode(right))
    ensures Good(order, root, h[p := r], t, leaves, {})
  {
    hide Wf, Chain, Match, Occupancy;
    PendingParent(order, root, h, t, leaves, left, key, right, p, i);
    InsertMatches(order, n, t[p], i, r);
    ParentCatchesUp(order, root, h, t, leaves, left, key, right, p, i, r);
  }

  lemma SizedParent(order: nat, root: Pointer, h: Heap, t: Links, leaves: seq<NodeId>,
                    left: NodeId, key: int, right: NodeId, p: NodeId, i: nat)
    requires PendingInsert(order, root, h, t, leaves, left, key, right, p, i) && p != TOP
    ensures order >= 3 && p in h && |h[p].keys| == order - 1 && |h[p].pointers| == order && !h[p].isLeaf &&
            h[p].parent == ParentPointer(t[p].parent)
    ensures Wf(t) && Allocated(h, t, {}) && |t[p].ptrs| == |t[p].keys| + 1 && AllIn(t, leaves)
  {
    var _ := ParentIsInternal(t, left);
    ChainIn(t, leaves);
  }

  lemma RightAllocated(order: nat, root: Pointer, h: Heap, t: Links, leaves: seq<NodeId>,
                       left: NodeId, key: int, right: NodeId, p: NodeId, i: nat)
    requires PendingInsert(order, root, h, t, leaves, left, key, right, p, i)
    ensures right in h
  {
  }

  /** The ghost side of insert_into_new_root. */
  lemma NewRootStep(order: nat, root: Pointer, h: Heap, t: Links, leaves: seq<NodeId>,
                    left: NodeId, key: int, right: NodeId, y: NodeId, n: Node, h': Heap) returns (t': Links)
    requires exists i :: PendingInsert(order, root, h, t, leaves, left, key, right, TOP, i)
    requires y !in h && y != TOP
    requires n == Node(false, 1, n.keys, n.pointers, Null) && |n.keys| == order - 1 && |n.pointers| == order
    requires n.keys[0] == key && n.pointers[0] == ToNode(left) && n.pointers[1] == ToNode(right)
    requires h'.Keys == h.Keys + {y} && h'[y] == n
    requires forall z :: z in h ==> h'[z] == if z == left || z == right then h[z].(parent := ToNode(y)) else h[z]
    ensures Good(order, ToNode(y), h', t', leaves, {})
    ensures AllIn(t, leaves) && AllIn(t', leaves) && SameEntries(t, leaves, t', leaves)
  {
    var i :| PendingInsert(order, root, h, t, leaves, left, key, right, TOP, i);
    assert i == 0;
    t' := Growing(t, y);
    assert t[TOP].level > 0;
    hide Wf, Chain, Match, Occupancy;
    assert t[TOP].keys == [key] && t[TOP].ptrs == [ToNode(left), ToNode(right)];
    assert n.keys[..1] == [key] && n.pointers[..2] == [ToNode(left), ToNode(right)];
    RootGrows(order, root, h, t, leaves, left, key, right, y, h', t');
  }

  /** The ghost side of insert_into_node_after_splitting. */
  lemma SplitFullStep(order: nat, root: Pointer, h: Heap, t: Links, leaves: seq<NodeId>, left: NodeId, key: int,
      right: NodeId, p: NodeId, i: nat, y: NodeId, oldNode: Node, newNode: Node, kPrime: int, h': Heap)
    returns (t': Links, q: NodeId, iq: nat)
    requires PendingInsert(order, root, h, t, leaves, left, key, right, p, i) && p != TOP && |t[p].keys| == order &&
             t[p].level > 0
    requires SplitFrom(order, t[p].keys, t[p].ptrs, ParentPointer(t[p].parent), oldNode, newNode, kPrime)
    requires y !in h && y != TOP && h'.Keys == h.Keys + {y} && h'[p] == oldNode && h'[y] == newNode &&
             newNode.numKeys < |newNode.pointers|
    requires forall z :: z in h && z != p ==>
      h'[z] == if ToNode(z) in newNode.pointers[..newNode.numKeys + 1] then h[z].(parent := ToNode(y)) else h[z]
    ensures PendingInsert(order, root, h', t', leaves, p, kPrime, y, q, iq)
    ensures t'[p].level == t[p].level && t'[TOP].level == t[TOP].level
    ensures AllIn(t, leaves) && AllIn(t', leaves) && SameEntries(t, leaves, t', leaves)
  {
    SizedParent(order, root, h, t, leaves, left, key, right, p, i);
    hide Wf, SplitFrom, PendingInsert, Chain, Match, Occupancy, SplitOf, HalvesIn, SameEntries;
    t', q, iq := SplitLinks(order, h, t, p, y, oldNode, newNode, kPrime, h');
    ParentSplits(order, root, h, t, leaves, left, key, right, p, i, q, iq, y, h', t');
    TopLevelKept(t, t', q, iq, p, y, Cut(order) - 1);
  }

  /** The split of p in the links. */
  lemma SplitLinks(order: nat, h: Heap, t: Links, p: NodeId, y: NodeId, oldNode: Node, newNode: Node, kPrime: int,
      h': Heap) returns (t': Links, q: NodeId, iq: nat)
    requires order >= 3 && Wf(t) && p in t && p != TOP && t[p].level > 0 && |t[p].keys| == order &&
             |t[p].ptrs| == order + 1
    requires SplitFrom(order, t[p].keys, t[p].ptrs, ParentPointer(t[p].parent), oldNode, newNode, kPrime)
    requires y !in h && y != TOP && Allocated(h, t, {}) && h'.Keys == h.Keys + {y} && h'[p] == oldNode &&
             h'[y] == newNode && newNode.numKeys < |newNode.pointers|
    requires forall z :: z in h && z != p ==>
      h'[z] == if ToNode(z) in newNode.pointers[..newNode.numKeys + 1] then h[z].(parent := ToNode(y)) else h[z]
    ensures SplitOf(t, t', q, iq, p, y, Cut(order) - 1) && p in t' && y in t'
    ensures kPrime == t[p].keys[Cut(order) - 1] && HalvesIn(order, h, t, p, y, h', t')
  {
    hide Wf, SplitFrom, SplitOf, HalvesIn, Cut;
    iq := ParentIsInternal(t, p);
    q := t[p].parent;
    t' := Splitting(t, q, iq, p, y, Cut(order) - 1);
    SplitHeap(order, h, t, p, q, iq, y, oldNode, newNode, kPrime, h', t');
  }

  /** The two halves in the heap are the two halves of the links, and the children moved are those in the new node. */
  lemma SplitHeap(order: nat, h: Heap, t: Links, p: NodeId, q: NodeId, iq: nat, y: NodeId, oldNode: Node,
      newNode: Node, kPrime: int, h': Heap, t': Links)
    requires order >= 3 && p in t && t[p].level > 0 && |t[p].keys| == order && |t[p].ptrs| == order + 1
    requires SplitOf(t, t', q, iq, p, y, Cut(order) - 1)
    requires SplitFrom(order, t[p].keys, t[p].ptrs, ParentPointer(t[p].parent), oldNode, newNode, kPrime)
    requires y !in h && y != TOP && h'.Keys == h.Keys + {y} && p in h && h'[p] == oldNode && h'[y] == newNode &&
             newNode.numKeys < |newNode.pointers|
    requires forall z :: z in h && z != p ==>
      h'[z] == if ToNode(z) in newNode.pointers[..newNode.numKeys + 1] then h[z].(parent := ToNode(y)) else h[z]
    ensures kPrime == t[p].keys[Cut(order) - 1] && p in t' && y in t' && HalvesIn(order, h, t, p, y, h', t')
  {
    HalvesMatch(order, t[p], oldNode, newNode, kPrime);
    hide Wf, SplitFrom, MatchNode, Cut;
    assert Gap(t[p]) == 1;
  }

  lemma TopLevelKept(t: Links, t': Links, p: NodeId, i: nat, x: NodeId, y: NodeId, s: nat)
    requires SplitOf(t, t', p, i, x, y, s)
    ensures TOP in t' && t'[TOP].level == t[TOP].level
  {
  }

  ghost predicate LeafSplitFrom(order: nat, ks: seq<int>, ps: seq<Pointer>, n: Node, y: NodeId, oldLeaf: Node,
      newLeaf: Node)
    requires order >= 3 && |n.pointers| == order && |ks| == |ps| == order
  {
    var c := Cut(order - 1);
    oldLeaf == Node(true, c, oldLeaf.keys, oldLeaf.pointers, n.parent) &&
    newLeaf == Node(true, order - c, newLeaf.keys, newLeaf.pointers, n.parent) &&
    |oldLeaf.keys| == |newLeaf.keys| == order - 1 && |oldLeaf.pointers| == |newLeaf.pointers| == order &&
    oldLeaf.keys[..c] == ks[..c] && oldLeaf.pointers[..c] == ps[..c] && oldLeaf.pointers[order - 1] == ToNode(y) &&
    newLeaf.keys[..order - c] == ks[c..] && newLeaf.pointers[..order - c] == ps[c..] &&
    newLeaf.pointers[order - 1] == n.pointers[order - 1]
  }

  lemma PrefixKept<T>(s: seq<T>, j: nat, v: T, c: nat)
    requires c <= j < |s|
    ensures s[j := v][..c] == s[..c]
  {
  }

  lemma Halves<T>(s: seq<T>, c: nat)
    requires c <= |s|
    ensures s[0..0 + c] == s[..c] && s[c..c + (|s| - c)] == s[c..]
  {
  }

  /** insert_into_leaf_after_splitting: the temporary arrays are dealt to the old and the new leaf, which is
      linked into the chain. */
  method SplitLeafArrays(order: nat, n: Node, blank: Node, y: NodeId, tempKeys: seq<int>, tempPointers: seq<Pointer>)
    returns (oldLeaf: Node, newLeaf: Node)
    requires order >= 3 && |n.keys| == |blank.keys| == order - 1 && |n.pointers| == |blank.pointers| == order &&
             n.isLeaf
    requires |tempKeys| == |tempPointers| == order
    ensures LeafSplitFrom(order, tempKeys, tempPointers, n, y, oldLeaf, newLeaf)
  {
    newLeaf := blank.(isLeaf := true);
    var split := Cut(order - 1);
    oldLeaf := FillNode(order, n, tempKeys, tempPointers, 0, split);
    newLeaf := FillNode(order, newLeaf, tempKeys, tempPointers, split, order - split);
    Halves(tempKeys, split);
    Halves(tempPointers, split);
    PrefixKept(newLeaf.pointers, order - 1, oldLeaf.pointers[order - 1], order - split);
    PrefixKept(oldLeaf.pointers, order - 1, ToNode(y), split);
    newLeaf := newLeaf.(pointers := newLeaf.pointers[order - 1 := oldLeaf.pointers[order - 1]]);
    oldLeaf := oldLeaf.(pointers := oldLeaf.pointers[order - 1 := ToNode(y)]);
    newLeaf := newLeaf.(parent := oldLeaf.parent);
  }

  lemma LeafHalvesMatch(order: nat, n: Node, l: LNode, y: NodeId, oldLeaf: Node, newLeaf: Node)
    requires order >= 3 && l.level == 0 && |l.keys| == |l.ptrs| == order && |n.pointers| == order
    requires n.parent == ParentPointer(l.parent) && n.pointers[order - 1] == l.next
    requires LeafSplitFrom(order, l.keys, l.ptrs, n, y, oldLeaf, newLeaf)
    ensures var s := Cut(order - 1);
      newLeaf.keys[0] == l.keys[s] &&
      MatchNode(order, oldLeaf, l.(keys := l.keys[..s], ptrs := l.ptrs[..s], hi := l.keys[s], next := ToNode(y))) &&
      MatchNode(order, newLeaf, LNode(0, l.keys[s], l.hi, l.keys[s..], l.ptrs[s..], l.next, l.parent))
  {
    assert newLeaf.keys[0] == newLeaf.keys[..newLeaf.numKeys][0];
  }

  /** The ghost side of insert_into_leaf_after_splitting. */
  lemma LeafSplitStep(order: nat, root: Pointer, h: Heap, t: Links, leaves: seq<NodeId>, x: NodeId, t1: Links,
      y: NodeId, oldLeaf: Node, newLeaf: Node, h': Heap) returns (t': Links, leaves': seq<NodeId>, p: NodeId, i: nat)
    requires Good(order, root, h, t, leaves, {}) && x in t && t[x].level == 0 && x in t1
    requires LeafEditOf(t, t1, x, t1[x].keys, t1[x].ptrs) && |t1[x].keys| == |t1[x].ptrs| == order
    requires y !in h && y != TOP && x in h && MatchNode(order, h[x], t[x])
    requires LeafSplitFrom(order, t1[x].keys, t1[x].ptrs, h[x], y, oldLeaf, newLeaf) &&
             h' == h[x := oldLeaf][y := newLeaf]
    ensures PendingInsert(order, root, h', t', leaves', x, newLeaf.keys[0], y, p, i)
    ensures AllIn(t1, leaves) && AllIn(t', leaves') && SameEntries(t1, leaves, t', leaves')
  {
    hide Wf, Chain, Match, Occupancy, KeysWf;
    var j := LeafIndex(t, leaves, x);
    leaves' := InsertAt(leaves, j + 1, y);
    LeafEditWf(t, t1, x, t1[x].keys, t1[x].ptrs);
    t', p, i := LeafSplitting(t1, x, y, Cut(order - 1));
    LeafHalvesMatch(order, h[x], t1[x], y, oldLeaf, newLeaf);
    LeafSplits(order, root, h, t, leaves, j, t1, p, i, x, y, h', t');
  }

  lemma LeafSplitting(t: Links, x: NodeId, y: NodeId, s: nat) returns (t': Links, p: NodeId, i: nat)
    requires Wf(t) && x in t && t[x].level == 0 && 0 < s < |t[x].keys| && y !in t
    ensures SplitOf(t, t', p, i, x, y, s) && p == t[x].parent
  {
    assert NodeWf(t, x);
    i := ParentIsInternal(t, x);
    p := t[x].parent;
    t' := Splitting(t, p, i, x, y, s);
  }

  /** An entry of a leaf is an entry of the tree. */
  lemma EntryAt(t: Links, leaves: seq<NodeId>, x: NodeId, i: nat) returns (j: nat, pos: nat)
    requires Wf(t) && Chain(t, leaves) && AllIn(t, leaves) && x in t && t[x].level == 0 && i < |t[x].keys| &&
             i < |t[x].ptrs|
    ensures j < |leaves| && leaves[j] == x && pos == |FlatKeys(t, leaves[..j])| + i &&
            |FlatKeys(t, leaves[..j])| == |FlatPtrs(t, leaves[..j])|
    ensures pos < |FlatKeys(t, leaves)| == |FlatPtrs(t, leaves)|
    ensures FlatKeys(t, leaves)[pos] == t[x].keys[i] && FlatPtrs(t, leaves)[pos] == t[x].ptrs[i]
  {
    j := LeafIndex(t, leaves, x);
    LeafInContext(t, leaves, j);
    pos := |FlatKeys(t, leaves[..j])| + i;
  }

  lemma LeafPtrs(t: Links, x: NodeId)
    requires Wf(t) && x in t && t[x].level == 0
    ensures |t[x].ptrs| == |t[x].keys|
  {
    assert NodeWf(t, x);
  }

  lemma UpdateStep(m: map<int, int>, t: Links, leaves: seq<NodeId>, records: map<RecordId, int>, x: NodeId, i: nat,
      v: int)
    requires Wf(t) && Chain(t, leaves) && AllIn(t, leaves) && x in t && t[x].level == 0 && i < |t[x].keys| &&
             i < |t[x].ptrs|
    requires Represents(m, FlatKeys(t, leaves), FlatPtrs(t, leaves), records) && t[x].ptrs[i].ToRecord?
    ensures Represents(m[t[x].keys[i] := v], FlatKeys(t, leaves), FlatPtrs(t, leaves),
                records[t[x].ptrs[i].record := v])
  {
    hide Represents, Wf, Chain;
    var j, pos := EntryAt(t, leaves, x, i);
    UpdateRepresents(m, FlatKeys(t, leaves), FlatPtrs(t, leaves), records, pos, v);
  }

  /** The ghost side of a leaf insertion without a split. */
  lemma LeafInsertStep(order: nat, root: Pointer, h: Heap, t: Links, leaves: seq<NodeId>, x: NodeId, at: nat, key: int,
      rec: Pointer, r: Node, t1: Links) returns (pos: nat)
    requires Good(order, root, h, t, leaves, {}) && AllIn(t, leaves) && InsertsEntry(t, t1, x, at, key, rec) &&
             |t[x].keys| < order - 1
    requires MatchNode(order, r, t1[x])
    ensures Good(order, root, h[x := r], t1, leaves, {}) && AllIn(t1, leaves)
    ensures SortedAt(FlatKeys(t, leaves), pos, key) && |FlatKeys(t, leaves)| == |FlatPtrs(t, leaves)|
    ensures FlatKeys(t1, leaves) == InsertAt(FlatKeys(t, leaves), pos, key)
    ensures FlatPtrs(t1, leaves) == InsertAt(FlatPtrs(t, leaves), pos, rec)
  {
    var j := LeafIndex(t, leaves, x);
    assert Occupied(order, t, x) by { assert NodeWf(t, x); }
    hide Wf, Chain, Match, Occupancy, SortedAt;
    InsertEdits(t, t1, x, at, key, rec);
    pos := InsertLeafEntry(t, leaves, j, x, at, key, rec, t1);
    LeafChanges(order, root, h, t, leaves, {}, x, r, t1);
  }

  /** The ghost side of start_new_tree. */
  lemma NewTreeStep(order: nat, y: NodeId, n: Node, key: int, r: RecordId, v: int)
    returns (t: Links, leaves: seq<NodeId>)
    requires order >= 3 && y != TOP && 0 <= key < KEY_LIMIT
    requires n == Node(true, 1, n.keys, n.pointers, Null) && |n.keys| == order - 1 && |n.pointers| == order
    requires n.keys[0] == key && n.pointers[0] == ToRecord(r) && n.pointers[order - 1] == Null
    ensures Good(order, ToNode(y), map[y := n], t, leaves, {}) && AllIn(t, leaves)
    ensures Represents(map[key := v], FlatKeys(t, leaves), FlatPtrs(t, leaves), map[r := v])
    ensures AllKeys(t) == {key}
  {
    t :=
        map[TOP := LNode(1, 0, KEY_LIMIT, [], [ToNode(y)], Null, TOP),
            y := LNode(0, 0, KEY_LIMIT, [key], [ToRecord(r)], Null, TOP)];
    leaves := [y];
    var h := map[y := n];
    assert KidWf(t, TOP, 0) && t[TOP].ptrs[0] == ToNode(y);
    assert NodeWf(t, TOP) && NodeWf(t, y);
    assert LeafAt(t, leaves, 0) && Listed(t, leaves, TOP) && Listed(t, leaves, y);
    assert n.keys[..1] == [key] && n.pointers[..1] == [ToRecord(r)];
    assert Matches(order, h, t, y) && Occupied(order, t, y);
    FlatOne(t, y);
    assert [key][0] == key && [ToRecord(r)][0] == ToRecord(r);
    KeyKnown(t, y, 0);
  }

  lemma RemoveKeysWf(n: LNode, i: nat)
    requires KeysWf(n) && n.level == 0 && i < |n.keys|
    ensures KeysWf(n.(keys := RemoveAt(n.keys, i), ptrs := RemoveAt(n.ptrs, i))) && n.keys[i] !in RemoveAt(n.keys, i)
  {
  }

  lemma DistinctInside<T>(a: seq<T>, m: seq<T>, b: seq<T>, i: nat)
    requires i < |m| && forall j, k :: 0 <= j < k < |a + m + b| ==> (a + m + b)[j] != (a + m + b)[k]
    ensures m[i] !in RemoveAt(m, i)
  {
    var s := a + m + b;
    forall j | 0 <= j < |m| && j != i ensures m[j] != m[i] {
      assert s[|a| + j] == m[j] && s[|a| + i] == m[i];
    }
  }

  lemma RemoveLeafEntry(t: Links, leaves: seq<NodeId>, x: NodeId, i: nat, t1: Links) returns (pos: nat)
    requires Wf(t) && Chain(t, leaves) && AllIn(t, leaves) && x in t && t[x].level == 0 && i < |t[x].keys| &&
             i < |t[x].ptrs|
    requires t1 == t[x := t[x].(keys := RemoveAt(t[x].keys, i), ptrs := RemoveAt(t[x].ptrs, i))]
    ensures Wf(t1) && Chain(t1, leaves) && AllIn(t1, leaves) && t[x].keys[i] !in t1[x].keys
    ensures pos < |FlatKeys(t, leaves)| == |FlatPtrs(t, leaves)| && FlatKeys(t, leaves)[pos] == t[x].keys[i] &&
            FlatPtrs(t, leaves)[pos] == t[x].ptrs[i]
    ensures FlatKeys(t1, leaves) == RemoveAt(FlatKeys(t, leaves), pos) &&
            FlatPtrs(t1, leaves) == RemoveAt(FlatPtrs(t, leaves), pos)
  {
    var keys, ptrs := RemoveAt(t[x].keys, i), RemoveAt(t[x].ptrs, i);
    assert KeysWf(t[x]) by { assert NodeWf(t, x); }
    RemoveKeysWf(t[x], i);
    hide Wf, Chain, KeysWf;
    var j;
    j, pos := EntryAt(t, leaves, x, i);
    LeafInContext(t, leaves, j);
    EditChain(t, t1, leaves, j, keys, ptrs);
    LeafEditWf(t, t1, x, keys, ptrs);
    RemoveInside(FlatKeys(t, leaves[..j]), t[x].keys, FlatKeys(t, leaves[j + 1..]), i);
    RemoveInside(FlatPtrs(t, leaves[..j]), t[x].ptrs, FlatPtrs(t, leaves[j + 1..]), i);
  }

  lemma PointerOnce(t: Links, leaves: seq<NodeId>, records: map<RecordId, int>, x: NodeId, i: nat)
    requires Wf(t) && Chain(t, leaves) && AllIn(t, leaves) && Stored(FlatPtrs(t, leaves), records)
    requires x in t && t[x].level == 0 && i < |t[x].keys| && i < |t[x].ptrs|
    ensures t[x].ptrs[i] !in RemoveAt(t[x].ptrs, i)
  {
    var j := LeafIndex(t, leaves, x);
    LeafInContext(t, leaves, j);
    DistinctInside(FlatPtrs(t, leaves[..j]), t[x].ptrs, FlatPtrs(t, leaves[j + 1..]), i);
  }

  /** The ghost side of the first step of delete: the entry disappears from the links. */
  lemma LeafDeleteStep(order: nat, root: Pointer, h: Heap, t: Links, leaves: seq<NodeId>, records: map<RecordId, int>,
      m: map<int, int>, x: NodeId, i: nat) returns (t1: Links)
    requires Good(order, root, h, t, leaves, {}) && AllIn(t, leaves) &&
             Represents(m, FlatKeys(t, leaves), FlatPtrs(t, leaves), records)
    requires x in t && x != TOP && t[x].level == 0 && i < |t[x].keys| && i < |t[x].ptrs| && t[x].ptrs[i].ToRecord?
    ensures PendingDelete(order, root, h, t1, leaves, {}, x, i, t[x].keys[i], t[x].ptrs[i]) && AllIn(t1, leaves)
    ensures Represents(m - {t[x].keys[i]}, FlatKeys(t1, leaves), FlatPtrs(t1, leaves), records - {t[x].ptrs[i].record})
    ensures AllKeys(t1) <= AllKeys(t)
  {
    PointerOnce(t, leaves, records, x, i);
    LeafPtrs(t, x);
    hide Wf, Chain, Match, Occupancy, Represents, AllKeys;
    t1 := t[x := t[x].(keys := RemoveAt(t[x].keys, i), ptrs := RemoveAt(t[x].ptrs, i))];
    RemoveKnown(t, t1, x, i);
    var pos := RemoveLeafEntry(t, leaves, x, i, t1);
    RemoveRepresents(m, FlatKeys(t, leaves), FlatPtrs(t, leaves), records, pos);
    PendingLeaf(order, root, h, t, leaves, x, i, t1);
  }

  lemma RemoveKnown(t: Links, t1: Links, x: NodeId, i: nat)
    requires x in t && i < |t[x].keys| && i < |t[x].ptrs|
    requires t1 == t[x := t[x].(keys := RemoveAt(t[x].keys, i), ptrs := RemoveAt(t[x].ptrs, i))]
    ensures AllKeys(t1) <= AllKeys(t)
  {
    hide AllKeys;
    forall z, k | z in t1 && 0 <= k < |t1[z].keys| ensures t1[z].keys[k] in AllKeys(t) {
      KeyKnown(t, z, if z == x && k >= i then k + 1 else k);
    }
    KeysKept(t, t1);
  }

  lemma PendingLeaf(order: nat, root: Pointer, h: Heap, t: Links, leaves: seq<NodeId>, x: NodeId, i: nat, t1: Links)
    requires Good(order, root, h, t, leaves, {}) && x in t && x != TOP && t[x].level == 0 &&
             i < |t[x].keys| == |t[x].ptrs|
    requires t1 == t[x := t[x].(keys := RemoveAt(t[x].keys, i), ptrs := RemoveAt(t[x].ptrs, i))] && Wf(t1) &&
             Chain(t1, leaves)
    requires t[x].keys[i] !in t1[x].keys && t[x].ptrs[i] !in t1[x].ptrs
    ensures PendingDelete(order, root, h, t1, leaves, {}, x, i, t[x].keys[i], t[x].ptrs[i])
  {
    assert Matches(order, h, t, x) && Occupied(order, t, x);
    RemoveInsert(t[x].keys, i);
    RemoveInsert(t[x].ptrs, i);
    forall z | z in t1 && z != TOP && z != x ensures Matches(order, h, t1, z) { assert Matches(order, h, t, z); }
    forall z | z in t1 && z != TOP && z != x ensures Occupied(order, t1, z) { assert Occupied(order, t, z); }
  }

  lemma RepresentsNothing(m: map<int, int>, records: map<RecordId, int>)
    requires Represents(m, [], [], records)
    ensures m == map[] && records == map[]
  {
    forall k ensures k !in m {}
    forall r ensures r !in records {}
    assert m.Keys == {} && records.Keys == {};
  }

  lemma LeafMatches(order: nat, root: Pointer, h: Heap, t: Links, leaves: seq<NodeId>, x: NodeId)
    requires Good(order, root, h, t, leaves, {}) && x in t && x != TOP
    ensures Matches(order, h, t, x)
  {
  }

  /** One round of the outer loop of find_range. */
  lemma RangeStep(order: nat, nd: Node, t: Links, leaves: seq<NodeId>, m: nat, a: int, b: int, i: nat, to: nat)
    requires Wf(t) && Chain(t, leaves) && AllIn(t, leaves) && m < |leaves| && MatchNode(order, nd, t[leaves[m]])
    requires var ks := t[leaves[m]].keys;
      i <= to <= |ks| && (forall q :: 0 <= q < i ==> ks[q] < a) && (i < |ks| ==> a <= ks[i]) &&
      (forall q :: i <= q < to ==> ks[q] <= b) && (to < |ks| ==> b < ks[to])
    ensures to <= |nd.keys| && to <= |nd.pointers|
    ensures |FlatKeys(t, leaves[..m])| == |FlatPtrs(t, leaves[..m])| &&
            |FlatKeys(t, leaves[..m + 1])| == |FlatPtrs(t, leaves[..m + 1])|
    ensures RangeKeys(FlatKeys(t, leaves[..m + 1]), a, b) == RangeKeys(FlatKeys(t, leaves[..m]), a, b) + nd.keys[i..to]
    ensures RangePtrs(FlatKeys(t, leaves[..m + 1]), FlatPtrs(t, leaves[..m + 1]), a, b) ==
            RangePtrs(FlatKeys(t, leaves[..m]), FlatPtrs(t, leaves[..m]), a, b) + nd.pointers[i..to]
  {
    hide RangeKeys, RangePtrs, Wf, Chain;
    LeafSorted(t, leaves, m);
    RangeSlice(t[leaves[m]].keys, t[leaves[m]].ptrs, a, b, i, to);
    RangeExtends(t, leaves, m, a, b);
  }
}
