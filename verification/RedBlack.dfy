/** The red-black tree that aggregates rows in a bounded pool of nodes. */
module RedBlack {
  import opened RedBlackModel
  import opened RedBlackPool
  import opened RedBlackSteps
  import opened CubeRows
  import opened Arith

  const MAX_TREE_HEIGHT: int := 64
  const BLANK := TreeNode(NIL, NIL, Black, Row([], []))

  /** The size of a tree node in bytes: two pointers, a colour padded to eight bytes, the measures and the dimensions,
      rounded up to a multiple of eight. */
  function NodeSize(nd: nat, nm: nat): (s: nat)
    ensures s >= 32 && s % 8 == 0 && 0 <= s - (32 + 4 * (nd - 1) + 8 * nm) < 8
  {
    var s := 32 + 4 * (nd - 1) + 8 * nm;
    if s % 8 != 0 then s + 4 else s
  }

  function NodesLimit(memoryLimit: nat, nd: nat, nm: nat): int {
    memoryLimit / NodeSize(nd, nm)
  }

  /** The limit is the largest number of nodes that fit into the memory. */
  lemma LimitIs(memoryLimit: nat, nd: nat, nm: nat, k: nat)
    ensures k <= NodesLimit(memoryLimit, nd, nm) <==> k * NodeSize(nd, nm) <= memoryLimit
  {
    var size := NodeSize(nd, nm);
    hide NodeSize;
    QuotientIs(memoryLimit, size, k);
  }

  class RBTree {
    var pool: seq<TreeNode>
    var count: nat
    var memoryIsFull: bool
    var freeNodeCounter: nat
    var nNodesLimit: nat
    const memoryLimit: nat
    var nd: nat
    var nm: nat
    const nodes: array<int>
    const drcts: array<int>
    ghost var shape: Tree
    ghost var height: nat

    ghost predicate Valid()
      reads this
    {
      Sound(pool, shape, height, nd, nm) && |pool| == count + 1 && count + freeNodeCounter == nNodesLimit &&
      nNodesLimit <= Pow2(27) &&
      (memoryIsFull <==> count > 0 && freeNodeCounter == 0) && nodes.Length == drcts.Length == MAX_TREE_HEIGHT &&
      nodes != drcts
    }

    /** The rows of the tree in order. */
    ghost function Contents(): seq<Row>
      reads this
    {
      RowsOf(pool, Ids(shape))
    }

    constructor (memoryLimit: nat, nd: nat, nm: nat)
      requires memoryLimit < 0x1_0000_0000
      ensures Valid() && fresh(nodes) && fresh(drcts) && this.memoryLimit == memoryLimit && this.nd == nd &&
              this.nm == nm
      ensures Contents() == [] && count == 0 && nNodesLimit == NodesLimit(memoryLimit, nd, nm)
    {
      this.memoryLimit := memoryLimit;
      nodes := new int[MAX_TREE_HEIGHT];
      drcts := new int[MAX_TREE_HEIGHT];
      new;
      InitializeTree(nd, nm);
    }

    /** Forgets all nodes and sets the tree up for rows of another shape. */
    method InitializeTree(nd: nat, nm: nat)
      requires nodes.Length == drcts.Length == MAX_TREE_HEIGHT && nodes != drcts && memoryLimit < 0x1_0000_0000
      modifies this
      ensures Valid() && this.nd == nd && this.nm == nm && Contents() == [] && count == 0 && !memoryIsFull
      ensures nNodesLimit == NodesLimit(memoryLimit, nd, nm)
    {
      hide NodesLimit, Pow2;
      LimitFits(memoryLimit, nd, nm);
      pool := [BLANK];
      count := 0;
      memoryIsFull := false;
      nNodesLimit := NodesLimit(memoryLimit, nd, nm);
      freeNodeCounter := nNodesLimit;
      this.nd := nd;
      this.nm := nm;
      shape := E;
      height := 0;
    }

    /** Adds a row: its measures are added to those of the node with the same dimensions, or it gets a node of its own,
        which must be free then. */
    method TreeInsert(row: Row)
      requires Valid() && Shaped(row, nd, nm) && (freeNodeCounter > 0 || HasDims(Contents(), row.dims))
      modifies this, nodes, drcts
      ensures Valid() && Contents() == AddRow(old(Contents()), row)
      ensures nd == old(nd) && nm == old(nm) && nNodesLimit == old(nNodesLimit)
      ensures count == |Contents()| && (memoryIsFull <==> count == nNodesLimit)
    {
      hide Sound, RowsOf, AddRow, Walking, Shaped, Pow2, HasDims;
      SoundCount(pool, shape, height, nd, nm);
      if pool[HEADER].left == NIL {
        NothingStored(pool, shape, height, row.dims, nd, nm);
        InsertFirst(row);
      } else {
        var sl, x, hit, path, t, h := Descend(row);
        if hit {
          FoundStep(pool, shape, path, t, h, height, row, nd, nm);
          assert |row.meas| == nm by { ShapedMeasures(row, nd, nm); }
          AddMeasuresTo(x, row.meas);
        } else {
          NotFound(pool, shape, path, row.dims);
          InsertAtHole(sl, path, row);
        }
      }
      SoundCount(pool, shape, height, nd, nm);
    }

    /** The first node is a black root. */
    method InsertFirst(row: Row)
      requires Valid() && Shaped(row, nd, nm) && freeNodeCounter > 0 && pool[HEADER].left == NIL
      modifies this
      ensures Valid() && Contents() == AddRow(old(Contents()), row)
      ensures nd == old(nd) && nm == old(nm) && nNodesLimit == old(nNodesLimit)
    {
      hide Sound, RowsOf, AddRow, Shaped, Pow2;
      ghost var was := pool;
      RootShape(pool, shape, height, nd, nm);
      count := count + 1;
      var mp := NewTreeNode();
      pool := SetChild(pool, HEADER, false, mp);
      pool := pool[mp := TreeNode(NIL, NIL, Black, row)];
      FirstNode(was, height, nd, nm, row, pool);
      shape, height := N(1, Black, E, E), 1;
    }

    /** Hangs a new node into the missing child that the stacks lead to, and repairs the colours. */
    method InsertAtHole(sl: nat, ghost path: Path, row: Row)
      requires Valid() && Shaped(row, nd, nm) && freeNodeCounter > 0
      requires Walking(pool, shape, path, NIL, E, 0, row.dims) && PathArrays(path, nodes[..], drcts[..], sl)
      modifies this
      ensures Valid() && Contents() == AddRow(old(Contents()), row)
      ensures nd == old(nd) && nm == old(nm) && nNodesLimit == old(nNodesLimit)
    {
      hide Sound, RowsOf, AddRow, Walking, Shaped, Pow2, Grown, At, Fixed, SameNodes, RB, PathRB, Plug, Painted,
           SetColor;
      ghost var was, shape0, h0 := pool, shape, height;
      Hang(pool, shape, path, height, nd, nm, row, BLANK);
      var mp := NewTreeNode();
      pool := SetChild(pool, nodes[sl - 1], drcts[sl - 1] == 1, mp);
      count := count + 1;
      pool := pool[mp := TreeNode(NIL, NIL, Red, row)];
      ghost var hung := pool;
      ghost var t := N(mp, Red, E, E);
      ghost var t' := FixUp(sl, path, t);
      ghost var h' :| Fixed(pool, t', h');
      RootBlack(pool, t', h');
      pool := SetColor(pool, pool[HEADER].left, Black);
      shape := Painted(t', Black);
      ghost var h2 :| Fixed(pool, shape, h2);
      height := h2;
      Finished(was, shape0, h0, row, hung, Plug(path, t), t', pool, h2, nd, nm);
    }

    /** Takes the next node of the pool. */
    method NewTreeNode() returns (mp: nat)
      requires freeNodeCounter > 0
      modifies this`pool, this`freeNodeCounter, this`memoryIsFull
      ensures pool == old(pool) + [BLANK] && mp == |old(pool)| && freeNodeCounter == old(freeNodeCounter) - 1
      ensures memoryIsFull == (old(memoryIsFull) || freeNodeCounter == 0)
    {
      mp := |pool|;
      pool := pool + [BLANK];
      freeNodeCounter := freeNodeCounter - 1;
      if freeNodeCounter == 0 { memoryIsFull := true; }
    }

    /** Walks from the root to the node with the row's dimensions or to the missing child where it belongs, and keeps
        the nodes passed and the turns taken on the stacks. */
    method Descend(row: Row) returns (sl: nat, x: int, hit: bool, ghost path: Path, ghost t: Tree, ghost h: nat)
      requires Valid() && Shaped(row, nd, nm) && pool[HEADER].left != NIL
      modifies nodes, drcts
      ensures Walking(pool, shape, path, x, t, h, row.dims) && PathArrays(path, nodes[..], drcts[..], sl) &&
              1 <= sl < MAX_TREE_HEIGHT
      ensures hit ==> t.N? && x == t.id && 0 < x < |pool| && pool[x].row.dims == row.dims
      ensures !hit ==> t == E && x == NIL && h == 0
    {
      hide Sound, Walking, Shaped, Less, Pow2;
      sl := 1;
      SoundSorted(pool, shape, height, nd, nm);
      ShapedMeasures(row, nd, nm);
      x := pool[HEADER].left;
      hit := false;
      drcts[0] := 0;
      nodes[0] := HEADER;
      path, t, h := Top, shape, height;
      WalkStarts(pool, shape, height, nd, nm, row.dims);
      while x != NIL
        invariant Walking(pool, shape, path, x, t, h, row.dims) && PathArrays(path, nodes[..], drcts[..], sl) &&
                  1 <= sl < MAX_TREE_HEIGHT
        decreases t
      {
        NodeHere(pool, shape, path, x, t, h, row.dims, nd, nm, height);
        var cmpres := KeyComp(row.dims, pool[x].row.dims);
        if cmpres == 0 {
          hit := true;
          return;
        }
        ghost var nodes0, drcts0, path0 := nodes[..], drcts[..], path;
        nodes[sl] := x;
        if cmpres < 0 {
          drcts[sl] := 0;
          WalkLeft(pool, shape, path, t, h, row.dims);
          path, t, h := GoLeft(path, t.id, t.clr, t.r), t.l, LowerHeight(t, h);
          x := pool[x].left;
        } else {
          drcts[sl] := 1;
          WalkRight(pool, shape, path, t, h, row.dims);
          path, t, h := GoRight(path, t.id, t.clr, t.l), t.r, LowerHeight(t, h);
          x := pool[x].right;
        }
        PathArraysFrame(path0, nodes0, drcts0, nodes[..], drcts[..], sl);
        sl := sl + 1;
        StackFits(pool, shape, path, x, t, h, row.dims, nodes[..], drcts[..], sl);
      }
      NoNodeHere(pool, shape, path, t, h, row.dims);
    }

    /** Adds measures to those of a node, one by one. */
    method AddMeasuresTo(x: int, meas: seq<int>)
      requires 0 <= x < |pool| && |pool[x].row.meas| == |meas| == nm
      modifies this`pool
      ensures pool ==
                old(pool)[x := old(pool)[x].(row := Row(old(pool)[x].row.dims,
                          AddMeasures(old(pool)[x].row.meas, meas)))]
    {
      ghost var was := pool[x];
      for i := 0 to nm
        invariant |pool| == |old(pool)| && pool == old(pool)[x := was.(row := Row(was.row.dims, pool[x].row.meas))]
        invariant |pool[x].row.meas| == nm &&
                  forall k ::
                    0 <= k < nm ==>
                      pool[x].row.meas[k] == (if k < i then Wrap64(was.row.meas[k] + meas[k]) else was.row.meas[k])
      {
        var m := pool[x].row.meas;
        pool := pool[x := pool[x].(row := Row(pool[x].row.dims, m[i := Wrap64(m[i] + meas[i])]))];
      }
      assert pool[x].row.meas == AddMeasures(was.row.meas, meas);
    }

    /** From the new red node upwards: recolours while parent and uncle are red, and ends with one or two rotations when
        the uncle is not. */
    method FixUp(sl0: nat, ghost path0: Path, ghost t0: Tree) returns (ghost whole: Tree)
      requires nodes.Length == drcts.Length == MAX_TREE_HEIGHT && PathArrays(path0, nodes[..], drcts[..], sl0) &&
               RedAt(pool, path0, t0, 0)
      modifies this`pool
      ensures (exists h :: Fixed(pool, whole, h)) && SameNodes(Plug(path0, t0), whole)
      ensures |pool| == |old(pool)| && forall i :: 0 <= i < |pool| ==> pool[i].row == old(pool)[i].row
    {
      hide RedAt, Fixed, SameNodes, Plug;
      var sl := sl0;
      ghost var path, t, h := path0, t0, 0;
      RedAtSame(pool, path, t, h);
      while true
        invariant PathArrays(path, nodes[..], drcts[..], sl) && RedAt(pool, path, t, h) &&
                  SameNodes(Plug(path0, t0), Plug(path, t))
        invariant |pool| == |old(pool)| && forall i :: 0 <= i < |pool| ==> pool[i].row == old(pool)[i].row
        decreases sl
      {
        StackFacts(pool, path, t, h, nodes[..], drcts[..], sl);
        if pool[nodes[sl - 1]].clr != Red || sl < 3 {
          AlreadyFixed(pool, path, t, h);
          whole := Plug(path, t);
          return;
        }
        RedUnderRed(pool, path, t, h, nodes[..], drcts[..], sl);
        var g, p := nodes[sl - 2], nodes[sl - 1];
        if drcts[sl - 2] == 0 {
          var y := pool[g].right;
          if y != NIL && pool[y].clr == Red {
            RecolorStep(pool, path, t, h);
            pool := Recolored(pool, p, y, g);
            SameStep(Plug(path0, t0), Plug(path, t), Plug(path.up.up, RecoloredTree(path, t)));
            path, t, h := path.up.up, RecoloredTree(path, t), h + 1;
            sl := sl - 2;
          } else {
            whole := RotateLeftSide(sl, path, t, h);
            SameStep(Plug(path0, t0), Plug(path, t), whole);
            return;
          }
        } else {
          var y := pool[g].left;
          if y != NIL && pool[y].clr == Red {
            RecolorStep(pool, path, t, h);
            pool := Recolored(pool, p, y, g);
            SameStep(Plug(path0, t0), Plug(path, t), Plug(path.up.up, RecoloredTree(path, t)));
            path, t, h := path.up.up, RecoloredTree(path, t), h + 1;
            sl := sl - 2;
          } else {
            whole := RotateRightSide(sl, path, t, h);
            SameStep(Plug(path0, t0), Plug(path, t), whole);
            return;
          }
        }
      }
    }

    /** A red node under a red left child whose sibling is not red: one or two rotations. */
    method RotateLeftSide(sl: nat, ghost path: Path, ghost t: Tree, ghost h: nat) returns (ghost whole: Tree)
      requires nodes.Length == drcts.Length == MAX_TREE_HEIGHT && PathArrays(path, nodes[..], drcts[..], sl) &&
               RedAt(pool, path, t, h)
      requires RedHead(path) && path.up.GoLeft? && !IsRed(path.up.r)
      modifies this`pool
      ensures (exists h :: Fixed(pool, whole, h)) && SameNodes(Plug(path, t), whole)
      ensures |pool| == |old(pool)| && forall i :: 0 <= i < |pool| ==> pool[i].row == old(pool)[i].row
    {
      hide RedAt, Fixed, SameNodes, Plug, TurnLeft, OuterLeft, At;
      RedUnderRed(pool, path, t, h, nodes[..], drcts[..], sl);
      var g, y := nodes[sl - 2], nodes[sl - 1];
      ghost var top := Closed(path, t);
      if drcts[sl - 1] == 1 {
        var p := y;
        y := pool[p].right;
        RotateLeft(pool, path.up, top);
        pool := TurnLeft(pool, p, y, g, false);
        top := RotatedLeft(top);
      }
      OuterLeftStep(pool, path.up, top, h);
      pool := OuterLeft(pool, g, y, nodes[sl - 3], drcts[sl - 3] == 1);
      whole := Plug(path.up.up, N(y, Black, top.l, N(g, Red, top.r, path.up.r)));
      if path.GoRight? { SameStep(Plug(path, t), Plug(path.up, top), whole); }
    }

    method RotateRightSide(sl: nat, ghost path: Path, ghost t: Tree, ghost h: nat) returns (ghost whole: Tree)
      requires nodes.Length == drcts.Length == MAX_TREE_HEIGHT && PathArrays(path, nodes[..], drcts[..], sl) &&
               RedAt(pool, path, t, h)
      requires RedHead(path) && path.up.GoRight? && !IsRed(path.up.l)
      modifies this`pool
      ensures (exists h :: Fixed(pool, whole, h)) && SameNodes(Plug(path, t), whole)
      ensures |pool| == |old(pool)| && forall i :: 0 <= i < |pool| ==> pool[i].row == old(pool)[i].row
    {
      hide RedAt, Fixed, SameNodes, Plug, TurnRight, OuterRight, At;
      RedUnderRed(pool, path, t, h, nodes[..], drcts[..], sl);
      var g, y := nodes[sl - 2], nodes[sl - 1];
      ghost var top := Closed(path, t);
      if drcts[sl - 1] == 0 {
        var p := y;
        y := pool[p].left;
        RotateRight(pool, path.up, top);
        pool := TurnRight(pool, p, y, g, true);
        top := RotatedRight(top);
      }
      OuterRightStep(pool, path.up, top, h);
      pool := OuterRight(pool, g, y, nodes[sl - 3], drcts[sl - 3] == 1);
      whole := Plug(path.up.up, N(y, Black, N(g, Red, path.up.l, top.l), top.r));
      if path.GoLeft? { SameStep(Plug(path, t), Plug(path.up, top), whole); }
    }
  }

  lemma LimitFits(memoryLimit: nat, nd: nat, nm: nat)
    requires memoryLimit < 0x1_0000_0000
    ensures 0 <= NodesLimit(memoryLimit, nd, nm) <= Pow2(27)
  {
    Pow2Is27();
    QuotientBound(memoryLimit, NodeSize(nd, nm), 32);
  }

  lemma Pow2Is27()
    ensures Pow2(27) == 0x800_0000 && Pow2(28) == 0x1000_0000
  {
    assert Pow2(9) == 512;
    assert Pow2(18) == 0x4_0000;
  }

  lemma RootShape(pool: seq<TreeNode>, shape: Tree, h: nat, nd: nat, nm: nat)
    requires Sound(pool, shape, h, nd, nm) && pool[HEADER].left == NIL
    ensures shape == E && |pool| == 1
  {
  }

  lemma NothingStored(pool: seq<TreeNode>, shape: Tree, h: nat, d: seq<int>, nd: nat, nm: nat)
    requires Sound(pool, shape, h, nd, nm) && pool[HEADER].left == NIL
    ensures !HasDims(RowsOf(pool, Ids(shape)), d)
  {
    RootShape(pool, shape, h, nd, nm);
  }

  lemma NodeHere(pool: seq<TreeNode>, shape: Tree, path: Path, x: int, t: Tree, h: nat, d: seq<int>, nd: nat, nm: nat,
      h0: nat)
    requires x != NIL && Walking(pool, shape, path, x, t, h, d) && Sound(pool, shape, h0, nd, nm)
    ensures t.N? && x == t.id && 0 < x < |pool| && |pool[x].row.dims| == nd
  {
    HereIs(pool, path, t);
  }

  lemma NoNodeHere(pool: seq<TreeNode>, shape: Tree, path: Path, t: Tree, h: nat, d: seq<int>)
    requires Walking(pool, shape, path, NIL, t, h, d)
    ensures t == E && h == 0
  {
  }

  /** The pool bounds the number of nodes, so that the stacks never overflow. */
  lemma StackFits(pool: seq<TreeNode>, shape: Tree, path: Path, x: int, t: Tree, h: nat, d: seq<int>, nodes: seq<int>,
      drcts: seq<int>, sl: int)
    requires Walking(pool, shape, path, x, t, h, d) && PathArrays(path, nodes, drcts, sl) && |Ids(shape)| <= Pow2(27)
    ensures sl <= 55
  {
    Pow2Is27();
    PathArraysLength(path, nodes, drcts, sl);
    PathShort(path, t, h);
  }

  lemma RedAtSame(pool: seq<TreeNode>, path: Path, t: Tree, h: nat)
    requires RedAt(pool, path, t, h)
    ensures SameNodes(Plug(path, t), Plug(path, t))
  {
  }

  lemma SameStep(a: Tree, b: Tree, c: Tree)
    requires SameNodes(a, b) && SameNodes(b, c)
    ensures SameNodes(a, c)
  {
  }

  lemma StackFacts(pool: seq<TreeNode>, path: Path, t: Tree, h: nat, nodes: seq<int>, drcts: seq<int>, sl: int)
    requires RedAt(pool, path, t, h) && PathArrays(path, nodes, drcts, sl)
    ensures 1 <= sl && 0 <= nodes[sl - 1] < |pool| && (path.Top? <==> sl == 1)
    ensures RedHead(path) <==> pool[nodes[sl - 1]].clr == Red && sl >= 3
  {
    if !path.Top? {
      assert PathArrays(path.up, nodes, drcts, sl - 1);
      if path.clr == Red { assert PathArrays(path.up.up, nodes, drcts, sl - 2); }
    }
  }

  /** Parent, grandparent and uncle, as the stacks and the links show them. */
  lemma RedUnderRed(pool: seq<TreeNode>, path: Path, t: Tree, h: nat, nodes: seq<int>, drcts: seq<int>, sl: int)
    requires RedAt(pool, path, t, h) && PathArrays(path, nodes, drcts, sl) && RedHead(path)
    ensures sl >= 3 && nodes[sl - 1] == path.id && (drcts[sl - 1] == 1 <==> path.GoRight?) &&
            (drcts[sl - 1] == 0 <==> path.GoLeft?)
    ensures !path.up.Top? && path.up.clr == Black && nodes[sl - 2] == path.up.id &&
            (drcts[sl - 2] == 0 <==> path.up.GoLeft?)
    ensures nodes[sl - 3] == Head(path.up.up) && (drcts[sl - 3] == 1 <==> Rightward(path.up.up)) &&
            PathArrays(path.up.up, nodes, drcts, sl - 2)
    ensures At(pool, path.up, Closed(path, t)) && Plug(path.up, Closed(path, t)) == Plug(path, t)
    ensures PathRB(path.up.up, h + 1) && RB(Side(path), h) && RB(Side(path.up), h) && !IsRed(Side(path)) && IsRed(t) &&
            RB(t, h) && RB(t.l, h) && RB(t.r, h) && !IsRed(t.l) && !IsRed(t.r)
    ensures 0 < path.id < |pool| && 0 < path.up.id < |pool| && pool[path.id].clr == Red
    ensures pool[path.id].left == (if path.GoLeft? then t.id else pool[path.id].left) &&
            pool[path.id].right == (if path.GoRight? then t.id else pool[path.id].right)
    ensures var y := if path.up.GoLeft? then pool[path.up.id].right else pool[path.up.id].left;
      (y == NIL <==> Side(path.up).E?) &&
      (y != NIL ==> Side(path.up).N? && y == Side(path.up).id && 0 < y < |pool| && pool[y].clr == Side(path.up).clr)
  {
    hide Unique, Plug;
    Grandparent(path, h);
    StepUp(pool, path, t);
    assert PathArrays(path.up, nodes, drcts, sl - 1);
    assert PathArrays(path.up.up, nodes, drcts, sl - 2);
    assert RepPath(pool, path.up, path.id);
  }

  lemma Finished(was: seq<TreeNode>, shape0: Tree, h0: nat, row: Row, hung: seq<TreeNode>, grown: Tree, t': Tree,
      pool: seq<TreeNode>, h: nat, nd: nat, nm: nat)
    requires Sound(was, shape0, h0, nd, nm) && Shaped(row, nd, nm) && Grown(was, shape0, hung, grown, row)
    requires t'.N? && SameNodes(grown, t') && SameNodes(t', Painted(t', Black)) && Fixed(pool, Painted(t', Black), h)
    requires |pool| == |hung| && forall i :: 0 <= i < |pool| ==> pool[i].row == hung[i].row
    ensures var shape := Painted(t', Black);
      Sound(pool, shape, h, nd, nm) && RowsOf(pool, Ids(shape)) == AddRow(RowsOf(was, Ids(shape0)), row) &&
      |pool| == |was| + 1
  {
    hide RB, SortedRows, AllShaped, Rep, AddRow;
    assert RowsOf(pool, Ids(Painted(t', Black))) == RowsOf(hung, Ids(grown));
    AddRowSorted(RowsOf(was, Ids(shape0)), row, nd, nm);
  }

  lemma ShapedMeasures(row: Row, nd: nat, nm: nat)
    requires Shaped(row, nd, nm)
    ensures |row.meas| == nm && |row.dims| == nd
  {
  }

  lemma SoundSorted(pool: seq<TreeNode>, shape: Tree, h: nat, nd: nat, nm: nat)
    requires Sound(pool, shape, h, nd, nm)
    ensures |pool| > 0 && |Ids(shape)| + 1 == |pool| && SortedRows(RowsOf(pool, Ids(shape)))
  {
  }

  lemma SoundCount(pool: seq<TreeNode>, shape: Tree, h: nat, nd: nat, nm: nat)
    requires Sound(pool, shape, h, nd, nm)
    ensures |pool| > 0 && |RowsOf(pool, Ids(shape))| + 1 == |pool|
  {
  }
}
