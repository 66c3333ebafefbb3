/** The tree that the linked nodes form, and what makes it a B+ tree, said without parent pointers,
    intervals or a leaf chain. */
module BTreeShape {
  import opened BTreeModel
  import opened BTreeChain
  import opened BTreeState

  datatype Tree = Leaf(keys: seq<int>, ptrs: seq<Pointer>) | Inner(keys: seq<int>, kids: seq<Tree>)

  ghost function TreeKeys(tree: Tree): seq<int>
    decreases tree, 1
  {
    if tree.Leaf? then tree.keys else ForestKeys(tree.kids)
  }

  ghost function ForestKeys(kids: seq<Tree>): seq<int>
    decreases kids, 0
  {
    if kids == [] then [] else TreeKeys(kids[0]) + ForestKeys(kids[1..])
  }

  ghost function TreePtrs(tree: Tree): seq<Pointer>
    decreases tree, 1
  {
    if tree.Leaf? then tree.ptrs else ForestPtrs(tree.kids)
  }

  ghost function ForestPtrs(kids: seq<Tree>): seq<Pointer>
    decreases kids, 0
  {
    if kids == [] then [] else TreePtrs(kids[0]) + ForestPtrs(kids[1..])
  }

  /** All leaves are `depth` edges below. */
  ghost predicate Level(tree: Tree, depth: nat) {
    if tree.Leaf? then depth == 0 else depth > 0 && forall i :: 0 <= i < |tree.kids| ==> Level(tree.kids[i], depth - 1)
  }

  /** Every separator is above all keys to its left and at most all keys to its right, in the whole subtrees. */
  ghost predicate Ordered(tree: Tree) {
    Ascending(tree.keys) &&
    if tree.Leaf? then |tree.ptrs| == |tree.keys|
    else
      |tree.kids| == |tree.keys| + 1 &&
      (forall i :: 0 <= i < |tree.kids| ==> Ordered(tree.kids[i])) &&
      (forall i, k :: 0 <= i < |tree.keys| && k in TreeKeys(tree.kids[i]) ==> k < tree.keys[i]) &&
      (forall i, k :: 0 < i < |tree.kids| && k in TreeKeys(tree.kids[i]) ==> tree.keys[i - 1] <= k)
  }

  ghost predicate Filled(order: nat, tree: Tree, least: int) {
    order >= 3 && least <= |tree.keys| <= order - 1 &&
    (tree.Inner? ==> forall i :: 0 <= i < |tree.kids| ==>
      Filled(order, tree.kids[i], if tree.kids[i].Leaf? then Cut(order - 1) else Cut(order) - 1))
  }

  ghost function Shape(t: Links, x: NodeId): (s: Tree)
    requires Wf(t) && x in t
    ensures s.keys == t[x].keys && s.Leaf? == (t[x].level == 0)
    decreases t[x].level
  {
    assert NodeWf(t, x);
    if t[x].level == 0 then
      Leaf(t[x].keys, t[x].ptrs)
    else
      assert forall i :: 0 <= i < |t[x].ptrs| ==> KidWf(t, x, i);
      Inner(t[x].keys,
          seq(|t[x].ptrs|, i requires 0 <= i < |t[x].ptrs| => assert KidWf(t, x, i); Shape(t, t[x].ptrs[i].node)))
  }

  lemma {:induction false} ForestMember(kids: seq<Tree>, k: int)
    ensures k in ForestKeys(kids) <==> exists i :: 0 <= i < |kids| && k in TreeKeys(kids[i])
  {
    if kids != [] {
      ForestMember(kids[1..], k);
      if k in ForestKeys(kids[1..]) {
        var i :| 0 <= i < |kids[1..]| && k in TreeKeys(kids[1..][i]);
        assert kids[i + 1] == kids[1..][i];
      }
      forall i | 0 < i < |kids| && k in TreeKeys(kids[i]) ensures k in ForestKeys(kids[1..]) {
        assert kids[1..][i - 1] == kids[i];
      }
    }
  }

  /** The keys of a subtree lie in the interval of its root. */
  lemma {:induction false} ShapeBounds(t: Links, x: NodeId, k: int)
    requires Wf(t) && x in t && k in TreeKeys(Shape(t, x))
    ensures t[x].lo <= k < t[x].hi
    decreases t[x].level
  {
    assert NodeWf(t, x);
    if t[x].level > 0 {
      var s := Shape(t, x);
      ForestMember(s.kids, k);
      var i :| 0 <= i < |s.kids| && k in TreeKeys(s.kids[i]);
      assert KidWf(t, x, i);
      ShapeBounds(t, t[x].ptrs[i].node, k);
      FencesWithin(t[x], i);
    }
  }

  lemma FencesWithin(n: LNode, i: nat)
    requires KeysWf(n) && n.level > 0 && i < |n.ptrs|
    ensures n.lo <= Fence(n, i) < Fence(n, i + 1) <= n.hi
  {
  }

  lemma {:induction false} ShapeLevel(t: Links, x: NodeId)
    requires Wf(t) && x in t
    ensures Level(Shape(t, x), t[x].level)
    decreases t[x].level
  {
    assert NodeWf(t, x);
    if t[x].level > 0 {
      forall i | 0 <= i < |t[x].ptrs| ensures Level(Shape(t, x).kids[i], t[x].level - 1) {
        assert KidWf(t, x, i);
        ShapeLevel(t, t[x].ptrs[i].node);
      }
    }
  }

  lemma {:induction false} ShapeOrdered(t: Links, x: NodeId)
    requires Wf(t) && x in t
    ensures Ordered(Shape(t, x))
    decreases t[x].level
  {
    assert NodeWf(t, x);
    if t[x].level > 0 {
      var s := Shape(t, x);
      forall i | 0 <= i < |s.kids| ensures Ordered(s.kids[i]) {
        assert KidWf(t, x, i);
        ShapeOrdered(t, t[x].ptrs[i].node);
      }
      forall i, k | 0 <= i < |s.keys| && k in TreeKeys(s.kids[i]) ensures k < s.keys[i] {
        assert KidWf(t, x, i);
        ShapeBounds(t, t[x].ptrs[i].node, k);
      }
      forall i, k | 0 < i < |s.kids| && k in TreeKeys(s.kids[i]) ensures s.keys[i - 1] <= k {
        assert KidWf(t, x, i);
        ShapeBounds(t, t[x].ptrs[i].node, k);
      }
    }
  }

  lemma {:induction false} ShapeFilled(order: nat, t: Links, x: NodeId)
    requires order >= 3 && Wf(t) && Occupancy(order, t, {}) && x in t && x != TOP
    ensures Filled(order, Shape(t, x), Least(order, t[x]))
    decreases t[x].level
  {
    assert NodeWf(t, x) && Occupied(order, t, x);
    if t[x].level > 0 {
      forall i | 0 <= i < |t[x].ptrs|
        ensures var k := Shape(t, x).kids[i]; Filled(order, k, if k.Leaf? then Cut(order - 1) else Cut(order) - 1)
      {
        assert KidWf(t, x, i);
        ShapeFilled(order, t, t[x].ptrs[i].node);
      }
    }
  }

  // ---- The leaf chain reads the tree from left to right ---------------------------------------

  lemma ForestConcat(a: seq<Tree>, b: seq<Tree>)
    ensures ForestKeys(a + b) == ForestKeys(a) + ForestKeys(b) && ForestPtrs(a + b) == ForestPtrs(a) + ForestPtrs(b)
  {
    ForestKeysConcat(a, b);
    ForestPtrsConcat(a, b);
  }

  lemma {:induction false} ForestKeysConcat(a: seq<Tree>, b: seq<Tree>)
    ensures ForestKeys(a + b) == ForestKeys(a) + ForestKeys(b)
  {
    if a == [] {
      assert a + b == b;
    } else {
      hide TreeKeys, TreePtrs, ForestPtrs;
      assert (a + b)[1..] == a[1..] + b && (a + b)[0] == a[0];
      ForestKeysConcat(a[1..], b);
      assert ForestKeys(a + b) == TreeKeys(a[0]) + ForestKeys(a[1..] + b);
    }
  }

  lemma {:induction false} ForestPtrsConcat(a: seq<Tree>, b: seq<Tree>)
    ensures ForestPtrs(a + b) == ForestPtrs(a) + ForestPtrs(b)
  {
    if a == [] {
      assert a + b == b;
    } else {
      hide TreeKeys, TreePtrs, ForestKeys;
      assert (a + b)[1..] == a[1..] + b && (a + b)[0] == a[0];
      ForestPtrsConcat(a[1..], b);
      assert ForestPtrs(a + b) == TreePtrs(a[0]) + ForestPtrs(a[1..] + b);
    }
  }

  ghost predicate Spans(t: Links, leaves: seq<NodeId>, a: nat, b: nat, lo: int, hi: int, ks: seq<int>, ps: seq<Pointer>)
    requires AllIn(t, leaves)
  {
    a < b <= |leaves| && t[leaves[a]].lo == lo && t[leaves[b - 1]].hi == hi &&
    ks == FlatKeys(t, leaves[a..b]) && ps == FlatPtrs(t, leaves[a..b])
  }

  lemma SpansJoin(t: Links, leaves: seq<NodeId>, a: nat, b: nat, b': nat, c: nat, lo: int, mid: int, hi: int,
                  ks: seq<int>, ps: seq<Pointer>, ks': seq<int>, ps': seq<Pointer>)
    requires Wf(t) && Chain(t, leaves) && AllIn(t, leaves)
    requires Spans(t, leaves, a, b, lo, mid, ks, ps) && Spans(t, leaves, b', c, mid, hi, ks', ps')
    ensures Spans(t, leaves, a, c, lo, hi, ks + ks', ps + ps')
  {
    assert LeafAt(t, leaves, b - 1) && LeafAt(t, leaves, b');
    var j := Adjacent(t, leaves, leaves[b - 1], leaves[b']);
    LeavesDistinct(t, leaves, j, b - 1);
    LeavesDistinct(t, leaves, j + 1, b');
    assert leaves[a..c] == leaves[a..b] + leaves[b..c];
    FlatConcat(t, leaves[a..b], leaves[b..c]);
  }

  /** The leaves below x are one stretch of the chain. */
  lemma {:induction false} Span(t: Links, leaves: seq<NodeId>, x: NodeId) returns (a: nat, b: nat)
    requires Wf(t) && Chain(t, leaves) && AllIn(t, leaves) && x in t
    ensures Spans(t, leaves, a, b, t[x].lo, t[x].hi, TreeKeys(Shape(t, x)), TreePtrs(Shape(t, x)))
    decreases t[x].level, 0
  {
    if t[x].level == 0 {
      a := LeafIndex(t, leaves, x);
      b := a + 1;
      assert leaves[a..b] == [x];
      FlatOne(t, x);
    } else {
      assert NodeWf(t, x);
      a, b := SpanKids(t, leaves, x, |t[x].ptrs|);
      assert Shape(t, x).kids[..|t[x].ptrs|] == Shape(t, x).kids;
    }
  }

  lemma {:induction false} SpanKids(t: Links, leaves: seq<NodeId>, x: NodeId, n: nat) returns (a: nat, b: nat)
    requires Wf(t) && Chain(t, leaves) && AllIn(t, leaves) && x in t && t[x].level > 0 && 0 < n <= |t[x].ptrs|
    ensures var s := Shape(t, x);
      n <= |s.kids| && Spans(t, leaves, a, b, t[x].lo, Fence(t[x], n), ForestKeys(s.kids[..n]), ForestPtrs(s.kids[..n]))
    decreases t[x].level - 1, n
  {
    assert NodeWf(t, x) && KidWf(t, x, n - 1);
    var s, c := Shape(t, x), t[x].ptrs[n - 1].node;
    var a', b' := Span(t, leaves, c);
    assert s.kids[..n] == s.kids[..n - 1] + [s.kids[n - 1]];
    ForestConcat(s.kids[..n - 1], [s.kids[n - 1]]);
    ForestOne(s.kids[n - 1]);
    if n == 1 {
      a, b := a', b';
      assert s.kids[..1] == [s.kids[0]];
    } else {
      var m;
      a, m := SpanKids(t, leaves, x, n - 1);
      b := b';
      SpansJoin(t, leaves, a, m, a', b', t[x].lo, Fence(t[x], n - 1), Fence(t[x], n),
                ForestKeys(s.kids[..n - 1]), ForestPtrs(s.kids[..n - 1]), TreeKeys(Shape(t, c)), TreePtrs(Shape(t, c)));
    }
  }

  lemma ForestOne(k: Tree)
    ensures ForestKeys([k]) == TreeKeys(k) && ForestPtrs([k]) == TreePtrs(k)
  {
    assert [k][1..] == [];
  }

  /** What the program maintains is a B+ tree of its order, and the chain of next pointers reads its entries from left
      to right. */
  lemma ShapeIsBPlus(order: nat, root: Pointer, h: Heap, t: Links, leaves: seq<NodeId>)
    requires Good(order, root, h, t, leaves, {})
    ensures root.ToNode? && root.node in t && AllIn(t, leaves)
    ensures var s := Shape(t, root.node);
      Level(s, t[root.node].level) && Ordered(s) && Filled(order, s, 1) &&
      TreeKeys(s) == FlatKeys(t, leaves) && TreePtrs(s) == FlatPtrs(t, leaves) && Ascending(TreeKeys(s))
  {
    assert NodeWf(t, TOP) && KidWf(t, TOP, 0);
    var x := root.node;
    ShapeLevel(t, x);
    ShapeOrdered(t, x);
    ShapeFilled(order, t, x);
    FlatSorted(t, leaves);
    var a, b := Span(t, leaves, x);
    assert LeafAt(t, leaves, 0) && LeafAt(t, leaves, |leaves| - 1) && NodeWf(t, leaves[0]) &&
           NodeWf(t, leaves[|leaves| - 1]);
    if a > 0 { LeavesAscend(t, leaves, 0, a); }
    if b < |leaves| { LeavesAscend(t, leaves, b - 1, |leaves| - 1); }
    assert leaves[a..b] == leaves;
  }

  /** The same said of the arrays themselves: parent pointers are the inverse of child pointers, and the last pointers
      of the leaves form one chain through exactly the leaves. */
  lemma PointersAgree(order: nat, root: Pointer, h: Heap, t: Links, leaves: seq<NodeId>)
    requires Good(order, root, h, t, leaves, {})
    ensures root.ToNode? && root.node in h && h[root.node].parent == Null
    ensures forall x, i :: x in h && !h[x].isLeaf && 0 <= i <= h[x].numKeys < |h[x].pointers| ==>
      h[x].pointers[i].ToNode? && h[x].pointers[i].node in h && h[h[x].pointers[i].node].parent == ToNode(x)
    ensures forall j :: 0 <= j < |leaves| ==>
      leaves[j] in h && h[leaves[j]].isLeaf && |h[leaves[j]].pointers| == order &&
      h[leaves[j]].pointers[order - 1] == if j + 1 < |leaves| then ToNode(leaves[j + 1]) else Null
    ensures forall x :: x in h && h[x].isLeaf ==> x in leaves
  {
    assert NodeWf(t, TOP) && KidWf(t, TOP, 0) && Matches(order, h, t, root.node);
    forall x, i | x in h && !h[x].isLeaf && 0 <= i <= h[x].numKeys < |h[x].pointers|
      ensures h[x].pointers[i].ToNode? && h[x].pointers[i].node in h && h[h[x].pointers[i].node].parent == ToNode(x)
    {
      assert Matches(order, h, t, x) && NodeWf(t, x);
      assert t[x].ptrs[i] == h[x].pointers[i];
      assert KidWf(t, x, i);
      assert Matches(order, h, t, t[x].ptrs[i].node);
    }
    forall j | 0 <= j < |leaves|
      ensures leaves[j] in h && h[leaves[j]].isLeaf && |h[leaves[j]].pointers| == order &&
              h[leaves[j]].pointers[order - 1] == if j + 1 < |leaves| then ToNode(leaves[j + 1]) else Null
    {
      assert LeafAt(t, leaves, j) && Matches(order, h, t, leaves[j]);
    }
    forall x | x in h && h[x].isLeaf ensures x in leaves {
      assert Matches(order, h, t, x) && Listed(t, leaves, x);
    }
  }
}
