/** The nodes as the program stores them, what it means that they represent linked nodes, and
    the states between the steps of an insertion or a deletion. */
module BTreeState {
  import opened SeqEdit
  import opened BTreeModel
  import opened BTreeChain

  /** struct node: `keys` has order - 1 entries and `pointers` has order entries, of which the first
      numKeys (numKeys + 1 for the pointers of an internal node) are in use. */
  datatype Node = Node(isLeaf: bool, numKeys: nat, keys: seq<int>, pointers: seq<Pointer>, parent: Pointer)
  type Heap = map<NodeId, Node>

  function Cut(length: nat): (r: nat)
    ensures r + length / 2 == length
  {
    if length % 2 == 0 then length / 2 else length / 2 + 1
  }

  ghost function ParentPointer(p: NodeId): Pointer { if p == TOP then Null else ToNode(p) }

  ghost predicate MatchNode(order: nat, n: Node, l: LNode) {
    order >= 3 && |n.keys| == order - 1 && |n.pointers| == order && n.numKeys <= order - 1 &&
    n.isLeaf == (l.level == 0) &&
    l.keys == n.keys[..n.numKeys] && l.ptrs == n.pointers[..n.numKeys + Gap(l)] &&
    (n.isLeaf ==> n.pointers[order - 1] == l.next) && n.parent == ParentPointer(l.parent)
  }

  ghost predicate Matches(order: nat, h: Heap, t: Links, x: NodeId)
    requires x in t
  {
    x in h && MatchNode(order, h[x], t[x])
  }

  ghost predicate Match(order: nat, h: Heap, t: Links, except: set<NodeId>) {
    forall x {:trigger Matches(order, h, t, x)} :: x in t && x != TOP && x !in except ==> Matches(order, h, t, x)
  }

  /** What the program keeps every node but the root at. */
  ghost function MinKeys(order: nat, level: nat): int {
    if level == 0 then Cut(if order == 0 then 0 else order - 1) else Cut(order) - 1
  }

  ghost predicate Full(order: nat, l: LNode) {
    MinKeys(order, l.level) <= |l.keys| <= order - 1
  }

  ghost function Least(order: nat, l: LNode): int {
    if l.parent == TOP then 1 else MinKeys(order, l.level)
  }

  ghost predicate Occupied(order: nat, t: Links, x: NodeId)
    requires x in t
  {
    Least(order, t[x]) <= |t[x].keys| <= order - 1
  }

  ghost predicate Occupancy(order: nat, t: Links, except: set<NodeId>) {
    forall x {:trigger Occupied(order, t, x)} :: x in t && x != TOP && x !in except ==> Occupied(order, t, x)
  }

  ghost predicate Allocated(h: Heap, t: Links, dead: set<NodeId>) {
    h.Keys == t.Keys - {TOP} + dead && dead !! t.Keys
  }

  ghost predicate Rooted(t: Links, root: Pointer) {
    TOP in t && t[TOP].keys == [] && t[TOP].ptrs == [root]
  }

  /** A nonempty B+ tree. `dead` are nodes that have left the tree and are not yet freed. */
  ghost predicate Good(order: nat, root: Pointer, h: Heap, t: Links, leaves: seq<NodeId>, dead: set<NodeId>) {
    order >= 3 && Wf(t) && Chain(t, leaves) && Rooted(t, root) &&
    Match(order, h, t, {}) && Occupancy(order, t, {}) && Allocated(h, t, dead)
  }

  ghost function Without(l: LNode, i: nat): LNode
    requires i < |l.keys| && i + 1 < |l.ptrs|
  {
    l.(keys := RemoveAt(l.keys, i), ptrs := RemoveAt(l.ptrs, i + 1))
  }

  /** Entry of insert_into_parent: `left` has been split and `right` is its other half, but the
      array of the parent p does not mention `right` yet.  In t it does, at position i. */
  ghost predicate PendingInsert(order: nat, root: Pointer, h: Heap, t: Links, leaves: seq<NodeId>,
                                left: NodeId, key: int, right: NodeId, p: NodeId, i: nat) {
    order >= 3 && Wf(t) && Chain(t, leaves) && Allocated(h, t, {}) &&
    left in t && left != TOP && right in t && right != TOP && p == t[left].parent && p in t && p != left &&
    p != right &&
    i + 1 < |t[p].ptrs| == |t[p].keys| + 1 &&
    t[p].ptrs[i] == ToNode(left) && t[p].keys[i] == key && t[p].ptrs[i + 1] == ToNode(right) &&
    Match(order, h, t, {p}) && Occupancy(order, t, {p}) && Full(order, t[left]) && Full(order, t[right]) &&
    if p == TOP then
      |t[TOP].keys| == 1
    else
      Rooted(t, root) && p in h && MatchNode(order, h[p], Without(t[p], i)) && Least(order, t[p]) < |t[p].keys| <= order
  }

  lemma InsertRemove<T>(s: seq<T>, i: nat, x: T)
    requires i <= |s|
    ensures RemoveAt(InsertAt(s, i, x), i) == s
  {
  }

  lemma RemoveInsert<T>(s: seq<T>, i: nat)
    requires i < |s|
    ensures InsertAt(RemoveAt(s, i), i, s[i]) == s
  {
  }

  /** The simple case of insert_into_parent: the array of p catches up with t. */
  lemma ParentCatchesUp(order: nat, root: Pointer, h: Heap, t: Links, leaves: seq<NodeId>,
                        left: NodeId, key: int, right: NodeId, p: NodeId, i: nat, n: Node)
    requires PendingInsert(order, root, h, t, leaves, left, key, right, p, i) && p != TOP
    requires |t[p].keys| < order && MatchNode(order, n, t[p])
    ensures Good(order, root, h[p := n], t, leaves, {})
  {
    var h' := h[p := n];
    forall x | x in t && x != TOP ensures Matches(order, h', t, x) {
      if x != p { assert Matches(order, h, t, x); }
    }
    forall x | x in t && x != TOP ensures Occupied(order, t, x) {
      if x != p { assert Occupied(order, t, x); }
    }
  }

  lemma GrownMatch(order: nat, h: Heap, t: Links, y: NodeId, h': Heap, t': Links)
    requires GrowOf(t, t', y) && Match(order, h, t, {TOP}) && y !in h && h'.Keys == h.Keys + {y} && y != TOP
    requires MatchNode(order, h'[y], t'[y])
    requires forall z :: z in h ==> h'[z] == if ToNode(z) in t[TOP].ptrs then h[z].(parent := ToNode(y)) else h[z]
    ensures Match(order, h', t', {})
  {
    forall x | x in t' && x != TOP ensures Matches(order, h', t', x) {
      if x != y { assert Matches(order, h, t, x); }
    }
  }

  lemma GrownOccupancy(order: nat, t: Links, y: NodeId, t': Links)
    requires order >= 3 && GrowOf(t, t', y) && Occupancy(order, t, {TOP}) && y != TOP && |t[TOP].keys| == 1
    requires forall z :: z in t && ToNode(z) in t[TOP].ptrs ==> Full(order, t[z])
    ensures Occupancy(order, t', {})
  {
    forall x | x in t' && x != TOP ensures Occupied(order, t', x) {
      if x != y {
        assert Occupied(order, t, x);
        assert NodeWf(t, x);
      }
    }
  }

  /** insert_into_new_root. */
  lemma RootGrows(order: nat, root: Pointer, h: Heap, t: Links, leaves: seq<NodeId>,
                  left: NodeId, key: int, right: NodeId, y: NodeId, h': Heap, t': Links)
    requires PendingInsert(order, root, h, t, leaves, left, key, right, TOP, 0)
    requires GrowOf(t, t', y) && y !in h && h'.Keys == h.Keys + {y} && y != TOP
    requires MatchNode(order, h'[y], t'[y])
    requires forall z :: z in h ==> h'[z] == if z == left || z == right then h[z].(parent := ToNode(y)) else h[z]
    ensures Good(order, ToNode(y), h', t', leaves, {})
    ensures AllIn(t, leaves) && AllIn(t', leaves) && SameEntries(t, leaves, t', leaves)
  {
    GrowWf(t, t', y);
    assert t[TOP].ptrs == [ToNode(left), ToNode(right)];
    GrowLeaves(t, t', y);
    ChainFrame(t, t', leaves);
    GrownMatch(order, h, t, y, h', t');
    GrownOccupancy(order, t, y, t');
  }

  /** The heap h' holds the two halves of p, and the children of y know y as their parent. */
  ghost predicate HalvesIn(order: nat, h: Heap, t: Links, p: NodeId, y: NodeId, h': Heap, t': Links)
    requires p in t && Cut(order) <= |t[p].ptrs| && p in t' && y in t'
  {
    y !in h && h'.Keys == h.Keys + {y} && y != TOP && p in h &&
    MatchNode(order, h'[p], t'[p]) && MatchNode(order, h'[y], t'[y]) &&
    forall z :: z in h && z != p ==>
      h'[z] == if Moved(t, p, Cut(order), z) then h[z].(parent := ToNode(y)) else h[z]
  }

  lemma SplitMatch(order: nat, h: Heap, t: Links, q: NodeId, iq: nat, p: NodeId, y: NodeId, h': Heap, t': Links)
    requires order >= 3 && SplitOf(t, t', q, iq, p, y, Cut(order) - 1) && t[p].level > 0
    requires Match(order, h, t, {p}) && HalvesIn(order, h, t, p, y, h', t')
    ensures Match(order, h', t', {q})
  {
    forall x | x in t' && x != TOP && x != q ensures Matches(order, h', t', x) {
      if x != p && x != y { assert Matches(order, h, t, x); }
    }
  }

  lemma SplitOccupancy(order: nat, t: Links, q: NodeId, iq: nat, p: NodeId, y: NodeId, t': Links)
    requires order >= 3 && SplitOf(t, t', q, iq, p, y, Cut(order) - 1) && t[p].level > 0 && |t[p].keys| == order &&
             p != TOP
    requires Occupancy(order, t, {p}) && y != TOP
    ensures Occupancy(order, t', {q}) && Full(order, t'[p]) && Full(order, t'[y])
  {
    forall x | x in t' && x != TOP && x != q ensures Occupied(order, t', x) {
      if x != p && x != y { assert Occupied(order, t, x); SplitLeast(order, t, q, iq, p, y, t', x); }
    }
  }

  lemma SplitLeast(order: nat, t: Links, q: NodeId, iq: nat, p: NodeId, y: NodeId, t': Links, x: NodeId)
    requires order >= 3 && SplitOf(t, t', q, iq, p, y, Cut(order) - 1) && p != TOP && y != TOP && x in t && x != q &&
             x != p
    ensures Least(order, t'[x]) == Least(order, t[x]) && t'[x].keys == t[x].keys
  {
    if Moved(t, p, Cut(order) - 1 + Gap(t[p]), x) { SplitMovedKid(t, q, iq, p, y, Cut(order) - 1, x); }
  }

  lemma SplitInternalKeeps(t: Links, t': Links, q: NodeId, iq: nat, p: NodeId, y: NodeId, s: nat, leaves: seq<NodeId>)
    requires SplitOf(t, t', q, iq, p, y, s) && t[p].level > 0 && Chain(t, leaves)
    ensures Wf(t') && Chain(t', leaves) && AllIn(t, leaves) && AllIn(t', leaves) && SameEntries(t, leaves, t', leaves)
  {
    SplitWf(t, t', q, iq, p, y, s);
    SplitInternalLeaves(t, t', q, iq, p, y, s);
    ChainFrame(t, t', leaves);
  }

  /** The hard case of insert_into_parent: p is split itself, and the same situation arises one level up. */
  lemma ParentSplits(order: nat, root: Pointer, h: Heap, t: Links, leaves: seq<NodeId>,
                     left: NodeId, key: int, right: NodeId, p: NodeId, i: nat,
                     q: NodeId, iq: nat, y: NodeId, h': Heap, t': Links)
    requires PendingInsert(order, root, h, t, leaves, left, key, right, p, i) && p != TOP && |t[p].keys| == order
    requires t[p].level > 0 && SplitOf(t, t', q, iq, p, y, Cut(order) - 1) && HalvesIn(order, h, t, p, y, h', t')
    ensures PendingInsert(order, root, h', t', leaves, p, t[p].keys[Cut(order) - 1], y, q, iq)
    ensures AllIn(t, leaves) && AllIn(t', leaves) && SameEntries(t, leaves, t', leaves)
  {
    hide Wf, Chain, Match, Occupancy;
    SplitInternalKeeps(t, t', q, iq, p, y, Cut(order) - 1, leaves);
    SplitMatch(order, h, t, q, iq, p, y, h', t');
    SplitOccupancy(order, t, q, iq, p, y, t');
    ParentSplitsUp(order, root, h, t, p, q, iq, y, h', t');
  }

  lemma ParentSplitsUp(order: nat, root: Pointer, h: Heap, t: Links, p: NodeId, q: NodeId, iq: nat, y: NodeId, h': Heap,
      t': Links)
    requires Wf(t) && Rooted(t, root) && Match(order, h, t, {p}) && Occupancy(order, t, {p}) && order >= 3
    requires SplitOf(t, t', q, iq, p, y, Cut(order) - 1) && p != TOP && y != TOP
    requires forall z ::
               z in h && z != p ==>
                 z in h' && h'[z] == if Moved(t, p, Cut(order), z) then h[z].(parent := ToNode(y)) else h[z]
    requires t[p].level > 0
    ensures if q == TOP then |t'[TOP].keys| == 1
            else Rooted(t', root) && q in h' && MatchNode(order, h'[q], Without(t'[q], iq)) &&
                 Least(order, t'[q]) < |t'[q].keys| <= order
  {
    var s := Cut(order) - 1;
    SplitUpward(t, t', p, q, iq, y, s);
    if q != TOP {
      assert Matches(order, h, t, q) && Occupied(order, t, q);
      hide Wf, Match, Occupancy, SplitOf, Moved;
      assert h'[q] == h[q];
      assert MatchNode(order, h'[q], Without(t'[q], iq));
    }
  }

  /** What a split of p does one level up: the parent q has one key and one pointer more, and nothing else has changed
      there. */
  lemma SplitUpward(t: Links, t': Links, p: NodeId, q: NodeId, iq: nat, y: NodeId, s: nat)
    requires SplitOf(t, t', q, iq, p, y, s) && p != TOP && t[p].level > 0
    ensures q in t && q in t' && q != p && |t'[q].keys| == |t[q].keys| + 1 && iq + 1 < |t'[q].ptrs| &&
            Without(t'[q], iq) == t[q]
    ensures t[q].level == t[p].level + 1 && t'[q].parent == t[q].parent && t'[q].level == t[q].level
    ensures TOP in t && TOP in t' && (q != TOP ==> t'[TOP] == t[TOP])
    ensures !Moved(t, p, s + 1, q)
  {
    var _ := ParentIsInternal(t, p);
    hide KeysWf, KidsWf, KidWf;
    InsertRemove(t[q].keys, iq, t[p].keys[s]);
    InsertRemove(t[q].ptrs, iq + 1, ToNode(y));
    if Moved(t, p, s + 1, q) { SplitMovedKid(t, q, iq, p, y, s, q); }
    if Moved(t, p, s + 1, TOP) { assert NodeWf(t, p); SplitMovedKid(t, q, iq, p, y, s, TOP); }
  }

  // ---- Steps that start in a leaf --------------------------------------------------------

  /** A leaf with room, or with an entry to spare, gets a new list of entries. */
  lemma LeafChanges(order: nat, root: Pointer, h: Heap, t: Links, leaves: seq<NodeId>, dead: set<NodeId>, x: NodeId,
      n: Node, t': Links)
    requires Good(order, root, h, t, leaves, dead) && x in t && x in t' && MatchNode(order, n, t'[x])
    requires LeafEditOf(t, t', x, t'[x].keys, t'[x].ptrs) && Least(order, t[x]) <= |t'[x].keys| <= order - 1
    ensures Wf(t') && Rooted(t', root) && Match(order, h[x := n], t', {}) && Occupancy(order, t', {}) &&
            Allocated(h[x := n], t', dead)
  {
    LeafEditWf(t, t', x, t'[x].keys, t'[x].ptrs);
    forall z | z in t' && z != TOP ensures Matches(order, h[x := n], t', z) {
      assert Matches(order, h, t, z);
    }
    forall z | z in t' && z != TOP ensures Occupied(order, t', z) {
      assert Occupied(order, t, z);
    }
  }

  lemma LeafSplitMatch(order: nat, h: Heap, t: Links, t1: Links, p: NodeId, i: nat, x: NodeId, y: NodeId, s: nat,
      h': Heap, t': Links)
    requires Match(order, h, t, {}) && SplitOf(t1, t', p, i, x, y, s) && t1[x].level == 0 && t1.Keys == t.Keys
    requires forall z :: z in t && z != x ==> t1[z] == t[z]
    requires y !in h && y != TOP && x in h && h'.Keys == h.Keys + {y} && forall z :: z in h && z != x ==> h'[z] == h[z]
    requires MatchNode(order, h'[x], t'[x]) && MatchNode(order, h'[y], t'[y])
    ensures Match(order, h', t', {p})
    ensures p != TOP ==> p in h' && MatchNode(order, h'[p], Without(t'[p], i))
  {
    forall z | z in t' && z != TOP && z != p ensures Matches(order, h', t', z) {
      if z != x && z != y { assert Matches(order, h, t, z); }
    }
    if p != TOP {
      assert Matches(order, h, t, p);
      InsertRemove(t1[p].keys, i, t1[x].keys[s]);
      InsertRemove(t1[p].ptrs, i + 1, ToNode(y));
    }
  }

  lemma LeafSplitOccupancy(order: nat, t: Links, t1: Links, p: NodeId, i: nat, x: NodeId, y: NodeId, t': Links)
    requires order >= 3 && Occupancy(order, t, {}) && SplitOf(t1, t', p, i, x, y, Cut(order - 1)) && t1[x].level == 0 &&
             t1.Keys == t.Keys
    requires forall z :: z in t && z != x ==> t1[z] == t[z]
    requires |t1[x].keys| == order && y != TOP
    ensures Occupancy(order, t', {p}) && Full(order, t'[x]) && Full(order, t'[y])
    ensures p != TOP ==> Least(order, t'[p]) < |t'[p].keys| <= order
  {
    forall z | z in t' && z != TOP && z != p ensures Occupied(order, t', z) {
      if z != x && z != y { assert Occupied(order, t, z); }
    }
    if p != TOP { assert Occupied(order, t, p); }
  }

  /** The links and the chain after the new entry and the split. */
  lemma LeafSplitLinks(t: Links, t1: Links, leaves: seq<NodeId>, j: nat, p: NodeId, i: nat, x: NodeId, y: NodeId,
      s: nat, t': Links)
    requires Wf(t) && Chain(t, leaves) && j < |leaves| && leaves[j] == x && x in t1
    requires LeafEditOf(t, t1, x, t1[x].keys, t1[x].ptrs) && SplitOf(t1, t', p, i, x, y, s)
    ensures Wf(t1) && Wf(t') && Chain(t', InsertAt(leaves, j + 1, y)) && t1[x].level == 0 && t1.Keys == t.Keys
    ensures AllIn(t1, leaves) && AllIn(t', InsertAt(leaves, j + 1, y)) &&
            SameEntries(t1, leaves, t', InsertAt(leaves, j + 1, y))
  {
    LeafEditWf(t, t1, x, t1[x].keys, t1[x].ptrs);
    EditChain(t, t1, leaves, j, t1[x].keys, t1[x].ptrs);
    hide Wf, Chain, SameEntries, InsertAt;
    SplitWf(t1, t', p, i, x, y, s);
    SplitLeafChain(t1, t', p, i, x, y, s, leaves, j);
    SplitLeafEntries(t1, t', p, i, x, y, s, leaves, j);
  }

  /** The parent names both halves, with the key between them. */
  lemma LeafSplitParent(t1: Links, p: NodeId, i: nat, x: NodeId, y: NodeId, s: nat, t': Links)
    requires Wf(t1) && SplitOf(t1, t', p, i, x, y, s) && t1[x].level == 0
    ensures p in t' && p != x && p != y && x in t' && y in t' && p == t'[x].parent && y != x
    ensures i + 1 < |t'[p].ptrs| == |t'[p].keys| + 1 && t'[p].ptrs[i] == ToNode(x) && t'[p].keys[i] == t'[y].lo &&
            t'[p].ptrs[i + 1] == ToNode(y)
    ensures p != TOP ==> TOP in t' && t'[TOP] == t1[TOP]
    ensures p == TOP ==> |t'[TOP].keys| == |t1[TOP].keys| + 1
  {
    var _ := ParentIsInternal(t1, x);
    hide Wf;
  }

  /** insert_into_leaf_after_splitting up to its call of insert_into_parent. */
  lemma LeafSplits(order: nat, root: Pointer, h: Heap, t: Links, leaves: seq<NodeId>, j: nat, t1: Links,
                   p: NodeId, i: nat, x: NodeId, y: NodeId, h': Heap, t': Links)
    requires Good(order, root, h, t, leaves, {}) && j < |leaves| && leaves[j] == x && x in t1
    requires LeafEditOf(t, t1, x, t1[x].keys, t1[x].ptrs) && |t1[x].keys| == order
    requires SplitOf(t1, t', p, i, x, y, Cut(order - 1))
    requires y !in h && y != TOP && h'.Keys == h.Keys + {y} && x in h && forall z :: z in h && z != x ==> h'[z] == h[z]
    requires MatchNode(order, h'[x], t'[x]) && MatchNode(order, h'[y], t'[y])
    ensures PendingInsert(order, root, h', t', InsertAt(leaves, j + 1, y), x, t'[y].lo, y, p, i)
    ensures AllIn(t1, leaves) && AllIn(t', InsertAt(leaves, j + 1, y)) &&
            SameEntries(t1, leaves, t', InsertAt(leaves, j + 1, y))
  {
    hide Chain, Match, Occupancy, SameEntries;
    LeafSplitLinks(t, t1, leaves, j, p, i, x, y, Cut(order - 1), t');
    LeafSplitMatch(order, h, t, t1, p, i, x, y, Cut(order - 1), h', t');
    LeafSplitOccupancy(order, t, t1, p, i, x, y, t');
    LeafSplitParent(t1, p, i, x, y, Cut(order - 1), t');
  }
}
