/** The B+ tree seen as a linked collection of nodes: which node points to which,
    which key interval every node is responsible for, and the left-to-right chain
    of leaves.  Everything here is specification; the arrays live in BTree.dfy. */
module BTreeModel {
  import opened SeqEdit

  const KEY_LIMIT: int := 0x1_0000_0000_0000_0000

  type NodeId = int
  type RecordId = int
  datatype Pointer = Null | ToNode(node: NodeId) | ToRecord(record: RecordId)

  /** The parent of the root.  It is not a node of the program: a program node whose
      `parent` is NULL hangs under TOP. */
  const TOP: NodeId := 0

  /** `level` is the distance to the leaves; the node is responsible for the keys of
      the half-open interval [lo, hi). `next` is the leaf chain. */
  datatype LNode = LNode(level: nat, lo: int, hi: int, keys: seq<int>, ptrs: seq<Pointer>,
                         next: Pointer, parent: NodeId)
  type Links = map<NodeId, LNode>

  ghost predicate Ascending(s: seq<int>) {
    forall i, j :: 0 <= i < j < |s| ==> s[i] < s[j]
  }

  /** The left end of the interval of child `i`; Fence(n, i + 1) is its right end. */
  ghost function Fence(n: LNode, i: nat): int {
    if i == 0 then n.lo else if i <= |n.keys| then n.keys[i - 1] else n.hi
  }

  ghost predicate KidWf(t: Links, x: NodeId, i: nat)
    requires x in t && i < |t[x].ptrs|
  {
    t[x].ptrs[i].ToNode? &&
    var c := t[x].ptrs[i].node;
    c in t && c != TOP && t[c].parent == x && t[c].level + 1 == t[x].level &&
    t[c].lo == Fence(t[x], i) && t[c].hi == Fence(t[x], i + 1)
  }

  ghost predicate KeysWf(n: LNode) {
    n.lo < n.hi <= KEY_LIMIT && Ascending(n.keys) &&
    (forall i :: 0 <= i < |n.keys| ==> n.lo <= n.keys[i] < n.hi) &&
    if n.level == 0 then
      |n.ptrs| == |n.keys| && forall i :: 0 <= i < |n.ptrs| ==> n.ptrs[i].ToRecord?
    else
      |n.ptrs| == |n.keys| + 1 && (|n.keys| > 0 ==> n.lo < n.keys[0])
  }

  ghost predicate KidsWf(t: Links, x: NodeId)
    requires x in t
  {
    t[x].level > 0 ==> forall i {:trigger KidWf(t, x, i)} :: 0 <= i < |t[x].ptrs| ==> KidWf(t, x, i)
  }

  ghost predicate UpWf(t: Links, x: NodeId)
    requires x in t && TOP in t
  {
    x != TOP ==> t[x].parent in t && ToNode(x) in t[t[x].parent].ptrs && t[x].level < t[TOP].level
  }

  ghost predicate NodeWf(t: Links, x: NodeId)
    requires x in t && TOP in t
  {
    KeysWf(t[x]) && KidsWf(t, x) && UpWf(t, x)
  }

  ghost predicate Wf(t: Links) {
    TOP in t && t[TOP].lo == 0 && t[TOP].hi == KEY_LIMIT && t[TOP].level > 0 &&
    forall x {:trigger NodeWf(t, x)} :: x in t ==> NodeWf(t, x)
  }

  lemma ParentIsInternal(t: Links, x: NodeId) returns (i: nat)
    requires Wf(t) && x in t && x != TOP
    ensures var p := t[x].parent;
            p in t && p != x && t[p].level == t[x].level + 1 && i < |t[p].ptrs| && t[p].ptrs[i] == ToNode(x) &&
            KeysWf(t[p]) && KidWf(t, p, i)
  {
    var p := t[x].parent;
    assert NodeWf(t, x);
    i :| 0 <= i < |t[p].ptrs| && t[p].ptrs[i] == ToNode(x);
    assert NodeWf(t, p);
    assert t[p].level > 0;
    assert KidWf(t, p, i);
  }

  lemma KidOf(t: Links, p: NodeId, c: NodeId)
    requires p in t && t[p].level > 0 && KidsWf(t, p) && ToNode(c) in t[p].ptrs
    ensures c in t && t[c].parent == p && t[c].level + 1 == t[p].level
  {
    var k :| 0 <= k < |t[p].ptrs| && t[p].ptrs[k] == ToNode(c);
    assert KidWf(t, p, k);
  }

  lemma FencesAscend(n: LNode, i: nat, j: nat)
    requires KeysWf(n) && n.level > 0 && i < j <= |n.ptrs|
    ensures Fence(n, i) < Fence(n, j)
  {
  }

  /** Two children of one node are two different nodes. */
  lemma KidsDistinct(t: Links, p: NodeId, i: nat, j: nat)
    requires p in t && t[p].level > 0 && i < j < |t[p].ptrs| && KeysWf(t[p]) && KidsWf(t, p)
    ensures t[p].ptrs[i] != t[p].ptrs[j]
  {
    assert KidWf(t, p, i) && KidWf(t, p, j);
    FencesAscend(t[p], i, j);
  }

  /** A link survives when neither end changes what the link speaks about. */
  lemma KidFrame(t: Links, t': Links, x: NodeId, i: nat, x': NodeId, i': nat)
    requires x in t && i < |t[x].ptrs| && KidWf(t, x, i)
    requires x' in t' && i' < |t'[x'].ptrs| && t'[x'].ptrs[i'] == t[x].ptrs[i] && t'[x'].level == t[x].level
    requires Fence(t'[x'], i') == Fence(t[x], i) && Fence(t'[x'], i' + 1) == Fence(t[x], i + 1)
    requires var c := t[x].ptrs[i].node;
             c in t' && t'[c].parent == x' && t'[c].level == t[c].level && t'[c].lo == t[c].lo && t'[c].hi == t[c].hi
    ensures KidWf(t', x', i')
  {
  }

  // ---- Splitting a node and its inverse ---------------------------------------

  ghost predicate Moved(t: Links, x: NodeId, a: nat, z: NodeId)
    requires x in t && a <= |t[x].ptrs|
  {
    t[x].level > 0 && ToNode(z) in t[x].ptrs[a..]
  }

  ghost function Gap(n: LNode): nat { if n.level == 0 then 0 else 1 }

  ghost predicate SplitAt(t: Links, p: NodeId, i: nat, x: NodeId, y: NodeId, s: nat) {
    Wf(t) && x in t && x != TOP && y !in t && p == t[x].parent && p in t && p != x &&
    i < |t[p].ptrs| && |t[p].ptrs| == |t[p].keys| + 1 && t[p].ptrs[i] == ToNode(x) &&
    s < |t[x].keys| && |t[x].ptrs| == |t[x].keys| + Gap(t[x]) && (t[x].level == 0 ==> s > 0)
  }

  /** x keeps its first s keys, the new node y takes the rest; of an internal node the key
      between them moves up.  The parent p holds x at position i. */
  ghost predicate SplitOf(t: Links, t': Links, p: NodeId, i: nat, x: NodeId, y: NodeId, s: nat) {
    SplitAt(t, p, i, x, y, s) && t'.Keys == t.Keys + {y} &&
    var n, q, a := t[x], t[p], s + Gap(t[x]);
    t'[x] == n.(keys := n.keys[..s], ptrs := n.ptrs[..a], hi := n.keys[s],
                next := if n.level == 0 then ToNode(y) else n.next) &&
    t'[y] == LNode(n.level, n.keys[s], n.hi, n.keys[a..], n.ptrs[a..], n.next, p) &&
    t'[p] == q.(keys := InsertAt(q.keys, i, n.keys[s]), ptrs := InsertAt(q.ptrs, i + 1, ToNode(y))) &&
    forall z :: z in t && z != x && z != p ==> t'[z] == if Moved(t, x, a, z) then t[z].(parent := y) else t[z]
  }

  lemma SplitMovedKid(t: Links, p: NodeId, i: nat, x: NodeId, y: NodeId, s: nat, c: NodeId)
    requires SplitAt(t, p, i, x, y, s) && c in t && Moved(t, x, s + Gap(t[x]), c)
    ensures t[c].parent == x && t[c].level + 1 == t[x].level
  {
    assert NodeWf(t, x);
    KidOf(t, x, c);
  }

  lemma SplitKeys(n: LNode, s: nat)
    requires KeysWf(n) && s < |n.keys| && (n.level == 0 ==> s > 0)
    ensures var a := s + Gap(n);
            KeysWf(n.(keys := n.keys[..s], ptrs := n.ptrs[..a], hi := n.keys[s])) &&
            KeysWf(n.(keys := n.keys[a..], ptrs := n.ptrs[a..], lo := n.keys[s]))
  {
  }

  lemma SplitStays(t: Links, p: NodeId, i: nat, x: NodeId, y: NodeId, s: nat, j: nat)
    requires SplitAt(t, p, i, x, y, s) && t[x].level > 0 && j <= s
    ensures t[x].ptrs[j].ToNode? && !Moved(t, x, s + 1, t[x].ptrs[j].node)
  {
    assert NodeWf(t, x) && KidWf(t, x, j);
    forall k | s + 1 <= k < |t[x].ptrs| ensures t[x].ptrs[k] != t[x].ptrs[j] { KidsDistinct(t, x, j, k); }
  }

  lemma SplitKid(t: Links, t': Links, p: NodeId, i: nat, x: NodeId, y: NodeId, s: nat, j: nat)
    requires SplitOf(t, t', p, i, x, y, s) && t[x].level > 0 && j < |t[x].ptrs|
    ensures if j <= s then KidWf(t', x, j) else KidWf(t', y, j - s - 1)
  {
    assert NodeWf(t, x) && KidWf(t, x, j);
    hide KeysWf, KidsWf, UpWf, NodeWf;
    var c := t[x].ptrs[j].node;
    var _ := ParentIsInternal(t, x);
    if j <= s {
      SplitStays(t, p, i, x, y, s, j);
      KidFrame(t, t', x, j, x, j);
    } else {
      assert t[x].ptrs[j] == t[x].ptrs[s + 1..][j - s - 1];
      assert Moved(t, x, s + 1, c);
      KidFrame(t, t', x, j, y, j - s - 1);
    }
  }

  lemma SplitHalves(t: Links, t': Links, p: NodeId, i: nat, x: NodeId, y: NodeId, s: nat)
    requires SplitOf(t, t', p, i, x, y, s)
    ensures KeysWf(t'[x]) && KidsWf(t', x) && KeysWf(t'[y]) && KidsWf(t', y)
  {
    assert NodeWf(t, x);
    SplitKeys(t[x], s);
    if t[x].level > 0 {
      forall j | 0 <= j < |t'[x].ptrs| ensures KidWf(t', x, j) { SplitKid(t, t', p, i, x, y, s, j); }
      forall j | 0 <= j < |t'[y].ptrs| ensures KidWf(t', y, j) { SplitKid(t, t', p, i, x, y, s, s + 1 + j); }
    }
  }

  lemma SplitParentKeys(q: LNode, i: nat, k: int, y: Pointer)
    requires KeysWf(q) && q.level > 0 && i < |q.ptrs| && Fence(q, i) < k < Fence(q, i + 1)
    ensures KeysWf(q.(keys := InsertAt(q.keys, i, k), ptrs := InsertAt(q.ptrs, i + 1, y)))
  {
  }

  lemma SplitParent(t: Links, t': Links, p: NodeId, i: nat, x: NodeId, y: NodeId, s: nat)
    requires SplitOf(t, t', p, i, x, y, s)
    ensures KeysWf(t'[p]) && KidsWf(t', p)
  {
    assert NodeWf(t, x) && NodeWf(t, p);
    var _ := ParentIsInternal(t, x);
    assert KidWf(t, p, i);
    assert Fence(t[p], i) < t[x].keys[s] < Fence(t[p], i + 1);
    SplitParentKeys(t[p], i, t[x].keys[s], ToNode(y));
    forall j | 0 <= j < |t'[p].ptrs| ensures KidWf(t', p, j) {
      if j != i && j != i + 1 {
        var k := if j < i then j else j - 1;
        assert KidWf(t, p, k);
        var c := t[p].ptrs[k].node;
        if k < i { KidsDistinct(t, p, k, i); } else { KidsDistinct(t, p, i, k); }
        if Moved(t, x, s + Gap(t[x]), c) { SplitMovedKid(t, p, i, x, y, s, c); }
        KidFrame(t, t', p, k, p, j);
      }
    }
  }

  lemma SplitOther(t: Links, t': Links, p: NodeId, i: nat, x: NodeId, y: NodeId, s: nat, z: NodeId)
    requires SplitOf(t, t', p, i, x, y, s) && z in t && z != x && z != p
    ensures KeysWf(t'[z]) && KidsWf(t', z)
  {
    assert NodeWf(t, z);
    if t[z].level > 0 {
      forall j | 0 <= j < |t'[z].ptrs| ensures KidWf(t', z, j) {
        assert KidWf(t, z, j);
        var c := t[z].ptrs[j].node;
        if Moved(t, x, s + Gap(t[x]), c) { SplitMovedKid(t, p, i, x, y, s, c); }
        KidFrame(t, t', z, j, z, j);
      }
    }
  }

  lemma SplitUp(t: Links, t': Links, p: NodeId, i: nat, x: NodeId, y: NodeId, s: nat, z: NodeId)
    requires SplitOf(t, t', p, i, x, y, s) && z in t'
    ensures UpWf(t', z)
  {
    hide KeysWf, KidsWf, KidWf;
    var _ := ParentIsInternal(t, x);
    assert NodeWf(t, x);
    if z == x {
      assert t'[p].ptrs[i] == ToNode(x);
    } else if z == y {
      assert t'[p].ptrs[i + 1] == ToNode(y);
    } else if z != TOP {
      var k := ParentIsInternal(t, z);
      var u, a := t[z].parent, s + Gap(t[x]);
      assert NodeWf(t, z);
      if u == x {
        if k >= a { assert t[x].ptrs[a..][k - a] == ToNode(z); } else { assert t'[x].ptrs[k] == ToNode(z); }
      } else if Moved(t, x, a, z) {
        SplitMovedKid(t, p, i, x, y, s, z);
      } else if u == p {
        assert t'[p].ptrs[if k <= i then k else k + 1] == ToNode(z);
      }
    }
  }

  lemma SplitWf(t: Links, t': Links, p: NodeId, i: nat, x: NodeId, y: NodeId, s: nat)
    requires SplitOf(t, t', p, i, x, y, s)
    ensures Wf(t')
  {
    forall z | z in t' ensures NodeWf(t', z) {
      SplitUp(t, t', p, i, x, y, s, z);
      if z == x || z == y { SplitHalves(t, t', p, i, x, y, s); }
      else if z == p { SplitParent(t, t', p, i, x, y, s); }
      else { SplitOther(t, t', p, i, x, y, s, z); }
    }
    if TOP != p && Moved(t, x, s + Gap(t[x]), TOP) { SplitMovedKid(t, p, i, x, y, s, TOP); }
  }

  ghost predicate MergeAt(t: Links, p: NodeId, i: nat, l: NodeId, r: NodeId) {
    Wf(t) && p in t && t[p].level > 0 && i + 1 < |t[p].ptrs| && |t[p].ptrs| == |t[p].keys| + 1 &&
    t[p].ptrs[i] == ToNode(l) && t[p].ptrs[i + 1] == ToNode(r) &&
    l in t && r in t && l != r && l != p && r != p && l != TOP && r != TOP
  }

  ghost function Glue(q: LNode, i: nat): seq<int>
    requires i < |q.keys|
  {
    if q.level == 1 then [] else [q.keys[i]]
  }

  /** The neighbours l and r, at positions i and i + 1 of p, become one node l. */
  ghost predicate MergeOf(t: Links, t': Links, p: NodeId, i: nat, l: NodeId, r: NodeId) {
    MergeAt(t, p, i, l, r) && t'.Keys == t.Keys - {r} &&
    var n, m, q := t[l], t[r], t[p];
    t'[l] == n.(keys := n.keys + Glue(q, i) + m.keys, ptrs := n.ptrs + m.ptrs, hi := m.hi,
                next := if n.level == 0 then m.next else n.next) &&
    t'[p] == q.(keys := RemoveAt(q.keys, i), ptrs := RemoveAt(q.ptrs, i + 1)) &&
    forall z :: z in t && z != l && z != p && z != r ==> t'[z] == if Moved(t, r, 0, z) then t[z].(parent := l) else t[z]
  }

  lemma MergeFacts(t: Links, p: NodeId, i: nat, l: NodeId, r: NodeId)
    requires MergeAt(t, p, i, l, r)
    ensures KeysWf(t[l]) && KeysWf(t[r]) && KeysWf(t[p]) && KidsWf(t, l) && KidsWf(t, r) && KidsWf(t, p)
    ensures KidWf(t, p, i) && KidWf(t, p, i + 1)
    ensures t[l].hi == t[p].keys[i] == t[r].lo && t[l].level == t[r].level == t[p].level - 1
  {
    assert NodeWf(t, l) && NodeWf(t, r) && NodeWf(t, p);
    assert KidWf(t, p, i) && KidWf(t, p, i + 1);
  }

  lemma MergeMovedKid(t: Links, p: NodeId, i: nat, l: NodeId, r: NodeId, c: NodeId)
    requires MergeAt(t, p, i, l, r) && c in t && Moved(t, r, 0, c)
    ensures t[c].parent == r && t[c].level + 1 == t[r].level
  {
    MergeFacts(t, p, i, l, r);
    KidOf(t, r, c);
  }

  lemma MergeKeys(n: LNode, m: LNode, k: int)
    requires KeysWf(n) && KeysWf(m) && n.hi == k == m.lo && n.level == m.level
    ensures KeysWf(n.(keys := n.keys + (if n.level == 0 then [] else [k]) + m.keys,
                        ptrs := n.ptrs + m.ptrs, hi := m.hi))
  {
  }

  lemma MergeParentKeys(q: LNode, i: nat)
    requires KeysWf(q) && q.level > 0 && i < |q.keys|
    ensures KeysWf(q.(keys := RemoveAt(q.keys, i), ptrs := RemoveAt(q.ptrs, i + 1)))
  {
  }

  lemma MergeKid(t: Links, t': Links, p: NodeId, i: nat, l: NodeId, r: NodeId, j: nat)
    requires MergeOf(t, t', p, i, l, r) && t[l].level > 0 && j < |t'[l].ptrs|
    ensures KidWf(t', l, j)
  {
    MergeFacts(t, p, i, l, r);
    var m := |t[l].ptrs|;
    if j < m {
      assert KidWf(t, l, j);
      var c := t[l].ptrs[j].node;
      if Moved(t, r, 0, c) { MergeMovedKid(t, p, i, l, r, c); }
      KidFrame(t, t', l, j, l, j);
    } else {
      assert KidWf(t, r, j - m);
      assert t[r].ptrs[0..][j - m] == t[r].ptrs[j - m];
      assert Moved(t, r, 0, t[r].ptrs[j - m].node);
      KidFrame(t, t', r, j - m, l, j);
    }
  }

  lemma RemoveFences(q: LNode, i: nat, j: nat)
    requires KeysWf(q) && q.level > 0 && i < |q.keys| && j < |q.ptrs|
    ensures Fence(q.(keys := RemoveAt(q.keys, i), ptrs := RemoveAt(q.ptrs, i + 1)), j) ==
              Fence(q, if j <= i then j else j + 1)
  {
  }

  lemma MergeParentKid(t: Links, t': Links, p: NodeId, i: nat, l: NodeId, r: NodeId, j: nat)
    requires MergeOf(t, t', p, i, l, r) && j < |t'[p].ptrs|
    ensures KidWf(t', p, j)
  {
    MergeFacts(t, p, i, l, r);
    RemoveFences(t[p], i, j);
    RemoveFences(t[p], i, j + 1);
    hide KeysWf, Fence, Wf;
    if j != i {
      var k := if j < i then j else j + 1;
      assert KidWf(t, p, k);
      var c := t[p].ptrs[k].node;
      if k < i { KidsDistinct(t, p, k, i); } else { KidsDistinct(t, p, i, k); }
      if k < i + 1 { KidsDistinct(t, p, k, i + 1); } else { KidsDistinct(t, p, i + 1, k); }
      if Moved(t, r, 0, c) { MergeMovedKid(t, p, i, l, r, c); }
      KidFrame(t, t', p, k, p, j);
    }
  }

  lemma MergeParent(t: Links, t': Links, p: NodeId, i: nat, l: NodeId, r: NodeId)
    requires MergeOf(t, t', p, i, l, r)
    ensures KeysWf(t'[p]) && KidsWf(t', p)
  {
    MergeFacts(t, p, i, l, r);
    MergeParentKeys(t[p], i);
    forall j | 0 <= j < |t'[p].ptrs| ensures KidWf(t', p, j) { MergeParentKid(t, t', p, i, l, r, j); }
  }

  lemma MergeOther(t: Links, t': Links, p: NodeId, i: nat, l: NodeId, r: NodeId, z: NodeId)
    requires MergeOf(t, t', p, i, l, r) && z in t && z != l && z != p && z != r
    ensures KeysWf(t'[z]) && KidsWf(t', z)
  {
    assert NodeWf(t, z);
    MergeFacts(t, p, i, l, r);
    if t[z].level > 0 {
      forall j | 0 <= j < |t'[z].ptrs| ensures KidWf(t', z, j) {
        assert KidWf(t, z, j);
        var c := t[z].ptrs[j].node;
        if Moved(t, r, 0, c) { MergeMovedKid(t, p, i, l, r, c); }
        KidFrame(t, t', z, j, z, j);
      }
    }
  }

  lemma MergeUp(t: Links, t': Links, p: NodeId, i: nat, l: NodeId, r: NodeId, z: NodeId)
    requires MergeOf(t, t', p, i, l, r) && z in t'
    ensures UpWf(t', z)
  {
    hide KeysWf, KidsWf, KidWf;
    MergeFacts(t, p, i, l, r);
    if z == l {
      assert NodeWf(t, l);
      assert t'[p].ptrs[i] == ToNode(l);
    } else if z != TOP {
      assert NodeWf(t, z);
      var k := ParentIsInternal(t, z);
      var u := t[z].parent;
      if u == r {
        assert t'[l].ptrs[|t[l].ptrs| + k] == ToNode(z);
        assert t[r].ptrs[0..][k] == ToNode(z);
      } else if Moved(t, r, 0, z) {
        MergeMovedKid(t, p, i, l, r, z);
      } else if u == p {
        assert t'[p].ptrs[if k <= i then k else k - 1] == ToNode(z);
      } else if u == l {
        assert t'[l].ptrs[k] == ToNode(z);
      }
    }
  }

  lemma MergeWf(t: Links, t': Links, p: NodeId, i: nat, l: NodeId, r: NodeId)
    requires MergeOf(t, t', p, i, l, r)
    ensures Wf(t')
  {
    MergeFacts(t, p, i, l, r);
    if Moved(t, r, 0, TOP) { MergeMovedKid(t, p, i, l, r, TOP); }
    forall z | z in t' ensures NodeWf(t', z) {
      MergeUp(t, t', p, i, l, r, z);
      if z == l {
        MergeKeys(t[l], t[r], t[p].keys[i]);
        if t[l].level > 0 {
          forall j | 0 <= j < |t'[l].ptrs| ensures KidWf(t', l, j) { MergeKid(t, t', p, i, l, r, j); }
        }
      } else if z == p { MergeParent(t, t', p, i, l, r); }
      else { MergeOther(t, t', p, i, l, r, z); }
    }
  }

  lemma Splitting(t: Links, p: NodeId, i: nat, x: NodeId, y: NodeId, s: nat) returns (t': Links)
    requires SplitAt(t, p, i, x, y, s)
    ensures SplitOf(t, t', p, i, x, y, s)
  {
    var n, q, a := t[x], t[p], s + Gap(t[x]);
    t' := (map z | z in t :: if Moved(t, x, a, z) then t[z].(parent := y) else t[z])
      [x := n.(keys := n.keys[..s], ptrs := n.ptrs[..a], hi := n.keys[s],
               next := if n.level == 0 then ToNode(y) else n.next)]
      [y := LNode(n.level, n.keys[s], n.hi, n.keys[a..], n.ptrs[a..], n.next, p)]
      [p := q.(keys := InsertAt(q.keys, i, n.keys[s]), ptrs := InsertAt(q.ptrs, i + 1, ToNode(y)))];
  }

  lemma Merging(t: Links, p: NodeId, i: nat, l: NodeId, r: NodeId) returns (t': Links)
    requires MergeAt(t, p, i, l, r)
    ensures MergeOf(t, t', p, i, l, r)
  {
    var n, m, q := t[l], t[r], t[p];
    t' := (map z | z in t && z != r :: if Moved(t, r, 0, z) then t[z].(parent := l) else t[z])
      [l := n.(keys := n.keys + Glue(q, i) + m.keys, ptrs := n.ptrs + m.ptrs, hi := m.hi,
               next := if n.level == 0 then m.next else n.next)]
      [p := q.(keys := RemoveAt(q.keys, i), ptrs := RemoveAt(q.ptrs, i + 1))];
  }

  // ---- The root grows, the root goes away, a leaf changes its entries --------------

  /** The new node y takes over everything TOP points to and becomes the only node under TOP. */
  ghost predicate GrowOf(t: Links, t': Links, y: NodeId) {
    Wf(t) && y !in t && t'.Keys == t.Keys + {y} &&
    t'[y] == t[TOP].(parent := TOP) &&
    t'[TOP] == t[TOP].(level := t[TOP].level + 1, keys := [], ptrs := [ToNode(y)]) &&
    forall z :: z in t && z != TOP ==> t'[z] == if ToNode(z) in t[TOP].ptrs then t[z].(parent := y) else t[z]
  }

  lemma GrowWf(t: Links, t': Links, y: NodeId)
    requires GrowOf(t, t', y)
    ensures Wf(t')
  {
    assert NodeWf(t, TOP);
    forall z | z in t' ensures NodeWf(t', z) {
      if z == TOP {
        assert KidWf(t', TOP, 0);
      } else if z == y {
        forall j | 0 <= j < |t'[y].ptrs| ensures KidWf(t', y, j) {
          assert KidWf(t, TOP, j);
          KidFrame(t, t', TOP, j, y, j);
        }
        assert t'[TOP].ptrs[0] == ToNode(y);
      } else {
        assert NodeWf(t, z);
        if t[z].level > 0 {
          forall j | 0 <= j < |t'[z].ptrs| ensures KidWf(t', z, j) {
            assert KidWf(t, z, j);
            var c := t[z].ptrs[j].node;
            if ToNode(c) in t[TOP].ptrs { KidOf(t, TOP, c); }
            KidFrame(t, t', z, j, z, j);
          }
        }
        var k := ParentIsInternal(t, z);
        if t[z].parent == TOP {
          assert t'[y].ptrs[k] == ToNode(z);
        }
      }
    }
  }

  lemma Growing(t: Links, y: NodeId) returns (t': Links)
    requires Wf(t) && y !in t
    ensures GrowOf(t, t', y)
  {
    t' := (map z | z in t :: if ToNode(z) in t[TOP].ptrs then t[z].(parent := y) else t[z])
      [y := t[TOP].(parent := TOP)]
      [TOP := t[TOP].(level := t[TOP].level + 1, keys := [], ptrs := [ToNode(y)])];
  }

  /** The root x has lost its last key: its only child c takes its place under TOP. */
  ghost predicate ShrinkOf(t: Links, t': Links, x: NodeId, c: NodeId) {
    Wf(t) && t[TOP].keys == [] && t[TOP].ptrs == [ToNode(x)] && x in t && x != TOP &&
    t[x].level > 0 && t[x].keys == [] && t[x].ptrs == [ToNode(c)] && c in t && c != TOP && c != x &&
    t'.Keys == t.Keys - {x} &&
    t'[TOP] == t[TOP].(level := t[TOP].level - 1, ptrs := [ToNode(c)]) &&
    t'[c] == t[c].(parent := TOP) &&
    forall z :: z in t && z != TOP && z != x && z != c ==> t'[z] == t[z]
  }

  lemma UnderTop(t: Links, z: NodeId)
    requires Wf(t) && z in t && z != TOP && t[z].level + 1 == t[TOP].level
    ensures t[z].parent == TOP
  {
    var _ := ParentIsInternal(t, z);
    assert NodeWf(t, t[z].parent);
  }

  lemma ShrinkWf(t: Links, t': Links, x: NodeId, c: NodeId)
    requires ShrinkOf(t, t', x, c)
    ensures Wf(t')
  {
    assert NodeWf(t, TOP) && NodeWf(t, x) && KidWf(t, TOP, 0) && KidWf(t, x, 0);
    forall z | z in t' ensures NodeWf(t', z) {
      assert NodeWf(t, z);
      if z == TOP {
        assert KidWf(t', TOP, 0);
      } else {
        if t[z].level > 0 {
          forall j | 0 <= j < |t'[z].ptrs| ensures KidWf(t', z, j) {
            assert KidWf(t, z, j);
            KidFrame(t, t', z, j, z, j);
          }
        }
        var k := ParentIsInternal(t, z);
        if t[z].level + 1 == t[TOP].level { UnderTop(t, z); }
        assert z == c ==> t'[TOP].ptrs[0] == ToNode(c);
      }
    }
  }

  ghost predicate LeafEditOf(t: Links, t': Links, x: NodeId, keys: seq<int>, ptrs: seq<Pointer>) {
    Wf(t) && x in t && t[x].level == 0 && t' == t[x := t[x].(keys := keys, ptrs := ptrs)] && KeysWf(t'[x])
  }

  lemma LeafEditWf(t: Links, t': Links, x: NodeId, keys: seq<int>, ptrs: seq<Pointer>)
    requires LeafEditOf(t, t', x, keys, ptrs)
    ensures Wf(t')
  {
    forall z | z in t' ensures NodeWf(t', z) {
      assert NodeWf(t, z);
      if z != x && t[z].level > 0 {
        forall j | 0 <= j < |t'[z].ptrs| ensures KidWf(t', z, j) {
          assert KidWf(t, z, j);
          KidFrame(t, t', z, j, z, j);
        }
      }
      if z != TOP { var _ := ParentIsInternal(t, z); }
    }
  }
}
