/** The steps of an insertion on values: walking down, hanging in the new node, recolouring and rotating upwards. */
module RedBlackSteps {
  import opened RedBlackModel
  import opened RedBlackPool
  import opened CubeRows
  import opened SeqEdit

  /** The rows of the named nodes, in order. */
  ghost function RowsOf(pool: seq<TreeNode>, ids: seq<nat>): (r: seq<Row>)
    ensures |r| == |ids|
  {
    seq(|ids|, i requires 0 <= i < |ids| => if ids[i] < |pool| then pool[ids[i]].row else Row([], []))
  }

  ghost predicate Sound(pool: seq<TreeNode>, shape: Tree, h: nat, nd: nat, nm: nat) {
    |pool| > 0 && Rep(pool, pool[HEADER].left, shape) && Unique(shape) && |Ids(shape)| + 1 == |pool| &&
    RB(shape, h) && !IsRed(shape) &&
    SortedRows(RowsOf(pool, Ids(shape))) && AllShaped(RowsOf(pool, Ids(shape)), nd, nm)
  }

  lemma {:induction false} IdsInSet(t: Tree, i: nat)
    requires i < |Ids(t)|
    ensures Ids(t)[i] in IdSet(t)
  {
    var k := |Ids(t.l)|;
    if i < k { IdsInSet(t.l, i); } else if i > k { IdsInSet(t.r, i - k - 1); }
  }

  lemma {:induction false} IdsDistinct(t: Tree, i: nat, j: nat)
    requires Unique(t) && i < j < |Ids(t)|
    ensures Ids(t)[i] != Ids(t)[j]
  {
    var k := |Ids(t.l)|;
    if j < k { IdsDistinct(t.l, i, j); }
    else if i > k { IdsDistinct(t.r, i - k - 1, j - k - 1); }
    else {
      if i < k { IdsInSet(t.l, i); }
      if j > k { IdsInSet(t.r, j - k - 1); }
    }
  }

  // ---- Walking down -----------------------------------------------------------------------------

  /** The first lo rows are below d and the rows from hi on above it. */
  ghost predicate Within(rows: seq<Row>, d: seq<int>, lo: int, hi: int) {
    0 <= lo <= hi <= |rows| && (forall i :: 0 <= i < |rows| ==> |rows[i].dims| == |d|) &&
    (forall i :: 0 <= i < lo ==> Less(rows[i].dims, d)) && (forall i :: hi <= i < |rows| ==> Less(d, rows[i].dims))
  }

  lemma NarrowDown(rows: seq<Row>, d: seq<int>, lo: nat, hi: nat, k: nat)
    requires SortedRows(rows) && Within(rows, d, lo, hi) && lo <= k < hi
    ensures Less(d, rows[k].dims) ==> Within(rows, d, lo, k)
    ensures Less(rows[k].dims, d) ==> Within(rows, d, k + 1, hi)
  {
    if Less(d, rows[k].dims) {
      forall i | k < i < |rows|
        ensures Less(d, rows[i].dims)
      {
        assert Before(rows[k], rows[i]);
        LessTransitive(d, rows[k].dims, rows[i].dims);
      }
    }
    if Less(rows[k].dims, d) {
      forall i | 0 <= i < k
        ensures Less(rows[i].dims, d)
      {
        assert Before(rows[i], rows[k]);
        LessTransitive(rows[i].dims, rows[k].dims, d);
      }
    }
  }

  lemma NarrowedOut(rows: seq<Row>, r: Row, lo: nat)
    requires SortedRows(rows) && Within(rows, r.dims, lo, lo)
    ensures AddRow(rows, r) == InsertAt(rows, lo, r)
  {
    PlaceIs(rows, r.dims);
    var p := Place(rows, r.dims);
    if lo < |rows| { LessTotal(rows[lo].dims, r.dims); }
    if p < |rows| { LessTotal(rows[p].dims, r.dims); }
    assert p == lo;
  }

  lemma NarrowedAway(rows: seq<Row>, d: seq<int>, lo: nat)
    requires Within(rows, d, lo, lo)
    ensures !HasDims(rows, d)
  {
    forall i | 0 <= i < |rows| ensures rows[i].dims != d { LessTotal(rows[i].dims, d); }
  }

  lemma Found(rows: seq<Row>, r: Row, k: nat)
    requires SortedRows(rows) && k < |rows| && rows[k].dims == r.dims && |rows[k].meas| == |r.meas|
    requires forall i :: 0 <= i < |rows| ==> |rows[i].dims| == |r.dims|
    ensures AddRow(rows, r) == rows[k := Row(r.dims, AddMeasures(rows[k].meas, r.meas))]
  {
    PlaceIs(rows, r.dims);
    SortedPositions(rows, k, Place(rows, r.dims));
  }

  /** The walk stands in a red-black tree at the hole of `path`, below which t hangs. */
  ghost predicate Descent(shape: Tree, path: Path, t: Tree, h: nat) {
    Plug(path, t) == shape && RB(t, h) && PathRB(path, h) && (path.Top? || path.clr == Red ==> !IsRed(t))
  }

  ghost predicate Between(rows: seq<Row>, d: seq<int>, path: Path) {
    Within(rows, d, |LeftOf(path)|, |rows| - |RightOf(path)|)
  }

  /** The link at the hole is x, and d belongs into t. */
  ghost predicate Walking(pool: seq<TreeNode>, shape: Tree, path: Path, x: int, t: Tree, h: nat, d: seq<int>) {
    Descent(shape, path, t, h) && RepPath(pool, path, x) && Rep(pool, x, t) &&
    Between(RowsOf(pool, Ids(shape)), d, path)
  }

  lemma WalkStarts(pool: seq<TreeNode>, shape: Tree, h: nat, nd: nat, nm: nat, d: seq<int>)
    requires Sound(pool, shape, h, nd, nm) && |d| == nd
    ensures Walking(pool, shape, Top, pool[HEADER].left, shape, h, d)
  {
  }

  ghost function LowerHeight(t: Tree, h: nat): nat {
    if t.N? && t.clr == Black && h > 0 then h - 1 else h
  }

  lemma DescentLeft(shape: Tree, path: Path, t: Tree, h: nat)
    requires Descent(shape, path, t, h) && t.N?
    ensures Descent(shape, GoLeft(path, t.id, t.clr, t.r), t.l, LowerHeight(t, h))
  {
    assert Plug(GoLeft(path, t.id, t.clr, t.r), t.l) == Plug(path, N(t.id, t.clr, t.l, t.r));
  }

  lemma DescentRight(shape: Tree, path: Path, t: Tree, h: nat)
    requires Descent(shape, path, t, h) && t.N?
    ensures Descent(shape, GoRight(path, t.id, t.clr, t.l), t.r, LowerHeight(t, h))
  {
    assert Plug(GoRight(path, t.id, t.clr, t.l), t.r) == Plug(path, N(t.id, t.clr, t.l, t.r));
  }

  lemma HereIs(pool: seq<TreeNode>, path: Path, t: Tree)
    requires t.N? && t.id < |pool|
    ensures var ids, k := Ids(Plug(path, t)), |LeftOf(path)| + |Ids(t.l)|;
      |ids| == k + 1 + |Ids(t.r)| + |RightOf(path)| && RowsOf(pool, ids)[k] == pool[t.id].row && ids[k] == t.id
  {
    PlugIds(path, t);
  }

  lemma StepLinks(pool: seq<TreeNode>, path: Path, t: Tree)
    requires t.N? && RepPath(pool, path, t.id) && Rep(pool, t.id, t)
    ensures t.id < |pool| && Rep(pool, pool[t.id].left, t.l) && Rep(pool, pool[t.id].right, t.r)
    ensures RepPath(pool, GoLeft(path, t.id, t.clr, t.r), pool[t.id].left) &&
            RepPath(pool, GoRight(path, t.id, t.clr, t.l), pool[t.id].right)
  {
    assert Rep(pool, pool[t.id].left, t.l) && Rep(pool, pool[t.id].right, t.r);
  }

  lemma BetweenStep(rows: seq<Row>, d: seq<int>, path: Path, t: Tree, k: nat)
    requires t.N? && k == |LeftOf(path)| + |Ids(t.l)| && |rows| == k + 1 + |Ids(t.r)| + |RightOf(path)|
    ensures Within(rows, d, |LeftOf(path)|, k) ==> Between(rows, d, GoLeft(path, t.id, t.clr, t.r))
    ensures Within(rows, d, k + 1, |rows| - |RightOf(path)|) ==> Between(rows, d, GoRight(path, t.id, t.clr, t.l))
  {
    hide Within;
  }

  /** What is known at a node of the walk. */
  lemma WalkFacts(pool: seq<TreeNode>, shape: Tree, path: Path, x: int, t: Tree, h: nat, d: seq<int>)
    requires Walking(pool, shape, path, x, t, h, d)
    ensures Plug(path, t) == shape && Descent(shape, path, t, h) && RepPath(pool, path, x) && Rep(pool, x, t)
    ensures Within(RowsOf(pool, Ids(shape)), d, |LeftOf(path)|, |Ids(shape)| - |RightOf(path)|)
  {
    hide Rep, RepPath, Within, RowsOf;
  }

  lemma WalkIs(pool: seq<TreeNode>, shape: Tree, path: Path, x: int, t: Tree, h: nat, d: seq<int>)
    requires Descent(shape, path, t, h) && RepPath(pool, path, x) && Rep(pool, x, t) &&
             Between(RowsOf(pool, Ids(shape)), d, path)
    ensures Walking(pool, shape, path, x, t, h, d)
  {
    hide Rep, RepPath, Between, RowsOf, Descent;
  }

  lemma WalkLeft(pool: seq<TreeNode>, shape: Tree, path: Path, t: Tree, h: nat, d: seq<int>)
    requires t.N? && Walking(pool, shape, path, t.id, t, h, d) && SortedRows(RowsOf(pool, Ids(shape)))
    requires |pool[t.id].row.dims| == |d| && Less(d, pool[t.id].row.dims)
    ensures Walking(pool, shape, GoLeft(path, t.id, t.clr, t.r), pool[t.id].left, t.l, LowerHeight(t, h), d)
  {
    hide Walking, Descent, RowsOf, SortedRows, Within, Less, Plug, Rep, RepPath, Ids, LeftOf, RightOf;
    WalkFacts(pool, shape, path, t.id, t, h, d);
    StepLinks(pool, path, t);
    HereIs(pool, path, t);
    DescentLeft(shape, path, t, h);
    NarrowDown(RowsOf(pool, Ids(shape)), d, |LeftOf(path)|, |Ids(shape)| - |RightOf(path)|,
        |LeftOf(path)| + |Ids(t.l)|);
    BetweenStep(RowsOf(pool, Ids(shape)), d, path, t, |LeftOf(path)| + |Ids(t.l)|);
    WalkIs(pool, shape, GoLeft(path, t.id, t.clr, t.r), pool[t.id].left, t.l, LowerHeight(t, h), d);
  }

  lemma WalkRight(pool: seq<TreeNode>, shape: Tree, path: Path, t: Tree, h: nat, d: seq<int>)
    requires t.N? && Walking(pool, shape, path, t.id, t, h, d) && SortedRows(RowsOf(pool, Ids(shape)))
    requires |pool[t.id].row.dims| == |d| && Less(pool[t.id].row.dims, d)
    ensures Walking(pool, shape, GoRight(path, t.id, t.clr, t.l), pool[t.id].right, t.r, LowerHeight(t, h), d)
  {
    hide Walking, Descent, RowsOf, SortedRows, Within, Less, Plug, Rep, RepPath, Ids, LeftOf, RightOf;
    WalkFacts(pool, shape, path, t.id, t, h, d);
    StepLinks(pool, path, t);
    HereIs(pool, path, t);
    DescentRight(shape, path, t, h);
    NarrowDown(RowsOf(pool, Ids(shape)), d, |LeftOf(path)|, |Ids(shape)| - |RightOf(path)|,
        |LeftOf(path)| + |Ids(t.l)|);
    BetweenStep(RowsOf(pool, Ids(shape)), d, path, t, |LeftOf(path)| + |Ids(t.l)|);
    WalkIs(pool, shape, GoRight(path, t.id, t.clr, t.l), pool[t.id].right, t.r, LowerHeight(t, h), d);
  }

  /** Adding to the measures of the node that was found adds to exactly one row. */
  lemma FoundStep(pool: seq<TreeNode>, shape: Tree, path: Path, t: Tree, h: nat, h0: nat, r: Row, nd: nat, nm: nat)
    requires t.N? && Walking(pool, shape, path, t.id, t, h, r.dims) && Sound(pool, shape, h0, nd, nm) &&
             Shaped(r, nd, nm)
    requires pool[t.id].row.dims == r.dims
    ensures t.id < |pool| && |pool[t.id].row.meas| == nm
    ensures var pool' := pool[t.id := pool[t.id].(row := Row(r.dims, AddMeasures(pool[t.id].row.meas, r.meas)))];
      Sound(pool', shape, h0, nd, nm) && RowsOf(pool', Ids(shape)) == AddRow(RowsOf(pool, Ids(shape)), r)
  {
    hide PathRB, RB, Less;
    var ids, k := Ids(shape), |LeftOf(path)| + |Ids(t.l)|;
    HereIs(pool, path, t);
    var pool' := pool[t.id := pool[t.id].(row := Row(r.dims, AddMeasures(pool[t.id].row.meas, r.meas)))];
    RowsAfter(pool, shape, t.id, k, pool'[t.id].row);
    Found(RowsOf(pool, ids), r, k);
    AddRowSorted(RowsOf(pool, ids), r, nd, nm);
    RepFrame(pool, pool', pool[HEADER].left, shape);
  }

  lemma RowsAfter(pool: seq<TreeNode>, shape: Tree, x: nat, k: nat, r: Row)
    requires x < |pool| && Unique(shape) && k < |Ids(shape)| && Ids(shape)[k] == x
    ensures RowsOf(pool[x := pool[x].(row := r)], Ids(shape)) == RowsOf(pool, Ids(shape))[k := r]
  {
    var ids := Ids(shape);
    forall i | 0 <= i < |ids| && i != k
      ensures ids[i] != x
    {
      if i < k { IdsDistinct(shape, i, k); } else { IdsDistinct(shape, k, i); }
    }
  }

  // ---- Hanging in the new node --------------------------------------------------------------------

  ghost predicate Grown(pool: seq<TreeNode>, shape: Tree, pool': seq<TreeNode>, shape': Tree, r: Row) {
    |pool'| == |pool| + 1 && |Ids(shape')| == |Ids(shape)| + 1 &&
    RowsOf(pool', Ids(shape')) == AddRow(RowsOf(pool, Ids(shape)), r)
  }

  lemma IdsFit(pool: seq<TreeNode>, shape: Tree, link: int, i: nat)
    requires Rep(pool, link, shape) && i < |Ids(shape)|
    ensures Ids(shape)[i] < |pool|
  {
    IdsInSet(shape, i);
    TreeIds(pool, link, shape);
  }

  lemma RowsWith(pool: seq<TreeNode>, pool': seq<TreeNode>, ids: seq<nat>, k: nat, x: nat)
    requires k <= |ids| && x == |pool| && |pool'| == |pool| + 1 && (forall i :: 0 <= i < |ids| ==> ids[i] < |pool|)
    requires forall i :: 0 <= i < |pool| ==> pool'[i].row == pool[i].row
    ensures RowsOf(pool', InsertAt(ids, k, x)) == InsertAt(RowsOf(pool, ids), k, pool'[x].row)
  {
  }

  lemma GrownIs(pool: seq<TreeNode>, shape: Tree, path: Path, h: nat, nd: nat, nm: nat, r: Row, pool': seq<TreeNode>)
    requires Sound(pool, shape, h, nd, nm) && Shaped(r, nd, nm) && Walking(pool, shape, path, NIL, E, 0, r.dims)
    requires |pool'| == |pool| + 1 && pool'[|pool|].row == r &&
             forall i :: 0 <= i < |pool| ==> pool'[i].row == pool[i].row
    ensures Grown(pool, shape, pool', Plug(path, N(|pool|, Red, E, E)), r)
  {
    hide Less, Walking, Within, AllShaped, AddRow, RowsOf, Rep, RepPath, Plug, Unique, LeftOf, RightOf;
    var x := |pool|;
    var s' := Plug(path, N(x, Red, E, E));
    WalkFacts(pool, shape, path, NIL, E, 0, r.dims);
    PlugIds(path, E);
    PlugIds(path, N(x, Red, E, E));
    assert Ids(shape) == LeftOf(path) + RightOf(path);
    NarrowedOut(RowsOf(pool, Ids(shape)), r, |LeftOf(path)|);
    assert Ids(N(x, Red, E, E)) == [x];
    assert Ids(s') == InsertAt(Ids(shape), |LeftOf(path)|, x);
    forall i | 0 <= i < |Ids(shape)| ensures Ids(shape)[i] < |pool| { IdsFit(pool, shape, pool[HEADER].left, i); }
    RowsWith(pool, pool', Ids(shape), |LeftOf(path)|, x);
  }

  /** A walk that ends at a missing child has found no row with the dimensions. */
  lemma NotFound(pool: seq<TreeNode>, shape: Tree, path: Path, d: seq<int>)
    requires Walking(pool, shape, path, NIL, E, 0, d)
    ensures !HasDims(RowsOf(pool, Ids(shape)), d)
  {
    hide Less, Within, RowsOf, Rep, RepPath, Plug, LeftOf, RightOf, HasDims;
    PlugIds(path, E);
    NarrowedAway(RowsOf(pool, Ids(shape)), d, |LeftOf(path)|);
  }

  /** The new node hangs in the hole: red, without children, its colour perhaps in conflict with its parent's. */
  lemma Hang(pool: seq<TreeNode>, shape: Tree, path: Path, h: nat, nd: nat, nm: nat, r: Row, blank: TreeNode)
    requires Sound(pool, shape, h, nd, nm) && Shaped(r, nd, nm) && Walking(pool, shape, path, NIL, E, 0, r.dims)
    ensures Head(path) < |pool|
    ensures var t, pool' := N(|pool|, Red, E, E),
                SetChild(pool + [blank], Head(path), Rightward(path), |pool|)[|pool| := TreeNode(NIL, NIL, Red, r)];
            
      At(pool', path, t) && RB(t, 0) && PathRB(path, 0) && Grown(pool, shape, pool', Plug(path, t), r)
  {
    var x := |pool|;
    var t := N(x, Red, E, E);
    PathIds(pool, path, NIL);
    var pool1 := pool + [blank];
    PathFrame(pool, pool1, path, NIL);
    PathRedirect(pool1, path, NIL, x, E);
    var pool2 := SetChild(pool1, Head(path), Rightward(path), x);
    var pool' := pool2[x := TreeNode(NIL, NIL, Red, r)];
    PathFrame(pool2, pool', path, x);
    assert IdSet(t) == {x};
    PlugUnique(path, E, t);
    GrownIs(pool, shape, path, h, nd, nm, r, pool');
  }

  /** The first node becomes a black root. */
  lemma FirstNode(pool: seq<TreeNode>, h: nat, nd: nat, nm: nat, r: Row, pool': seq<TreeNode>)
    requires Sound(pool, E, h, nd, nm) && Shaped(r, nd, nm) && |pool'| == 2 && pool'[HEADER].left == 1 &&
             pool'[1] == TreeNode(NIL, NIL, Black, r)
    ensures Sound(pool', N(1, Black, E, E), 1, nd, nm) &&
            RowsOf(pool', Ids(N(1, Black, E, E))) == AddRow(RowsOf(pool, Ids(E)), r)
  {
    assert Ids(N(1, Black, E, E)) == [1];
    assert RowsOf(pool, Ids(E)) == [];
  }

  // ---- Fixing red under red -------------------------------------------------------------------------

  /** t is red; the only thing that may be wrong is that its parent is red too. */
  ghost predicate RedAt(pool: seq<TreeNode>, path: Path, t: Tree, h: nat) {
    At(pool, path, t) && IsRed(t) && RB(t, h) && PathRB(path, h)
  }

  /** The pool holds a red-black tree; only its root may have to be painted black. */
  ghost predicate Fixed(pool: seq<TreeNode>, t: Tree, h: nat) {
    At(pool, Top, t) && RB(t, h)
  }

  lemma AtWhole(pool: seq<TreeNode>, path: Path, t: Tree)
    requires At(pool, path, t)
    ensures At(pool, Top, Plug(path, t))
  {
    RepPlug(pool, path, t.id, t);
    PlugIds(path, t);
  }

  lemma WholeFixed(pool: seq<TreeNode>, path: Path, t: Tree, h: nat)
    requires At(pool, path, t) && RB(t, h) && !IsRed(t) && PathRB(path, h)
    ensures Fixed(pool, Plug(path, t), h + Blacks(path))
  {
    PlugRB(path, t, h);
    AtWhole(pool, path, t);
  }

  lemma AlreadyFixed(pool: seq<TreeNode>, path: Path, t: Tree, h: nat)
    requires RedAt(pool, path, t, h) && !RedHead(path)
    ensures Fixed(pool, Plug(path, t), h + Blacks(path))
  {
    PlugRB(path, t, h);
    AtWhole(pool, path, t);
  }

  /** A red node under a red node has a black grandparent. */
  lemma Grandparent(path: Path, h: nat)
    requires PathRB(path, h) && RedHead(path)
    ensures !path.up.Top? && path.up.clr == Black && PathRB(path.up.up, h + 1) && RB(Side(path), h) &&
            RB(Side(path.up), h) && !IsRed(Side(path))
  {
    assert PathRB(path.up, h);
  }

  function Recolored(pool: seq<TreeNode>, p: int, u: int, g: int): (r: seq<TreeNode>)
    requires 0 <= p < |pool| && 0 <= u < |pool| && 0 <= g < |pool|
    ensures |r| == |pool| && forall i :: 0 <= i < |r| ==> r[i].row == pool[i].row
  {
    SetColor(SetColor(SetColor(pool, p, Black), u, Black), g, Red)
  }

  ghost function RecoloredTree(path: Path, t: Tree): (r: Tree)
    requires !path.Top? && !path.up.Top? && Side(path.up).N?
    ensures r.N? && r.id == path.up.id
  {
    var p, u := Painted(Closed(path, t), Black), Painted(Side(path.up), Black);
    if path.up.GoLeft? then N(path.up.id, Red, p, u) else N(path.up.id, Red, u, p)
  }

  lemma RecolorStep(pool: seq<TreeNode>, path: Path, t: Tree, h: nat)
    requires RedAt(pool, path, t, h) && RedHead(path) && !path.up.Top? && IsRed(Side(path.up))
    ensures 0 < path.id < |pool| && 0 < path.up.id < |pool| && 0 < Side(path.up).id < |pool|
    ensures RedAt(Recolored(pool, path.id, Side(path.up).id, path.up.id), path.up.up, RecoloredTree(path, t), h + 1)
    ensures SameNodes(Plug(path, t), Plug(path.up.up, RecoloredTree(path, t)))
  {
    hide SetColor, SameNodes, At;
    Grandparent(path, h);
    var g := path.up;
    StepUp(pool, path, t);
    var p := Closed(path, t);
    Paint(pool, g, p, Black);
    var pool1, p' := SetColor(pool, p.id, Black), Painted(p, Black);
    StepUp(pool1, g, p');
    var gt := Closed(g, p');
    ghost var u := Side(g);
    var down := if g.GoLeft? then GoRight(g.up, g.id, g.clr, p') else GoLeft(g.up, g.id, g.clr, p');
    if g.GoLeft? { StepRight(pool1, g.up, gt); } else { StepLeft(pool1, g.up, gt); }
    Paint(pool1, down, u, Black);
    var pool2, u' := SetColor(pool1, u.id, Black), Painted(u, Black);
    StepUp(pool2, down, u');
    Paint(pool2, g.up, Closed(down, u'), Red);
    assert Painted(Closed(down, u'), Red) == RecoloredTree(path, t);
    SameChain4(Plug(path, t), Plug(g, p'), Plug(down, u'), Plug(g.up, RecoloredTree(path, t)));
    assert RB(p', h + 1) && RB(u', h + 1);
  }

  lemma SameChain4(a: Tree, b: Tree, c: Tree, d: Tree)
    requires SameNodes(a, b) && SameNodes(b, c) && SameNodes(c, d)
    ensures SameNodes(a, c) && SameNodes(a, d)
  {
  }

  function OuterLeft(pool: seq<TreeNode>, g: int, y: int, p: int, right: bool): (r: seq<TreeNode>)
    requires 0 <= g < |pool| && 0 <= y < |pool| && 0 <= p < |pool|
    ensures |r| == |pool| && forall i :: 0 <= i < |r| ==> r[i].row == pool[i].row
  {
    TurnRight(SetColor(SetColor(pool, g, Red), y, Black), g, y, p, right)
  }

  function OuterRight(pool: seq<TreeNode>, g: int, y: int, p: int, right: bool): (r: seq<TreeNode>)
    requires 0 <= g < |pool| && 0 <= y < |pool| && 0 <= p < |pool|
    ensures |r| == |pool| && forall i :: 0 <= i < |r| ==> r[i].row == pool[i].row
  {
    TurnLeft(SetColor(SetColor(pool, g, Red), y, Black), g, y, p, right)
  }

  lemma OuterLeftStep(pool: seq<TreeNode>, g: Path, y: Tree, h: nat)
    requires g.GoLeft? && g.clr == Black && At(pool, g, y) && IsRed(y) && RB(y.l, h) && RB(y.r, h) && !IsRed(y.r) &&
             RB(g.r, h) && !IsRed(g.r) && PathRB(g.up, h + 1)
    ensures 0 < g.id < |pool| && 0 < y.id < |pool| && Head(g.up) < |pool|
    ensures var t' := N(y.id, Black, y.l, N(g.id, Red, y.r, g.r));
      Fixed(OuterLeft(pool, g.id, y.id, Head(g.up), Rightward(g.up)), Plug(g.up, t'), h + 1 + Blacks(g.up)) &&
      SameNodes(Plug(g, y), Plug(g.up, t'))
  {
    hide SetColor, SameNodes, At, TurnRight, Fixed, Plug, PathRB;
    StepUp(pool, g, y);
    Paint(pool, g.up, Closed(g, y), Red);
    var pool1, g1 := SetColor(pool, g.id, Red), Painted(Closed(g, y), Red);
    StepLeft(pool1, g.up, g1);
    var down := GoLeft(g.up, g.id, Red, g.r);
    Paint(pool1, down, y, Black);
    var pool2, y' := SetColor(pool1, y.id, Black), Painted(y, Black);
    StepUp(pool2, down, y');
    RotateRight(pool2, g.up, Closed(down, y'));
    var t' := RotatedRight(Closed(down, y'));
    assert t' == N(y.id, Black, y.l, N(g.id, Red, y.r, g.r));
    SameChain4(Plug(g, y), Plug(g.up, g1), Plug(down, y'), Plug(g.up, t'));
    assert RB(t', h + 1);
    WholeFixed(OuterLeft(pool, g.id, y.id, Head(g.up), Rightward(g.up)), g.up, t', h + 1);
  }

  lemma OuterRightStep(pool: seq<TreeNode>, g: Path, y: Tree, h: nat)
    requires g.GoRight? && g.clr == Black && At(pool, g, y) && IsRed(y) && RB(y.l, h) && RB(y.r, h) && !IsRed(y.l) &&
             RB(g.l, h) && !IsRed(g.l) && PathRB(g.up, h + 1)
    ensures 0 < g.id < |pool| && 0 < y.id < |pool| && Head(g.up) < |pool|
    ensures var t' := N(y.id, Black, N(g.id, Red, g.l, y.l), y.r);
      Fixed(OuterRight(pool, g.id, y.id, Head(g.up), Rightward(g.up)), Plug(g.up, t'), h + 1 + Blacks(g.up)) &&
      SameNodes(Plug(g, y), Plug(g.up, t'))
  {
    hide SetColor, SameNodes, At, TurnLeft, Fixed, Plug, PathRB;
    StepUp(pool, g, y);
    Paint(pool, g.up, Closed(g, y), Red);
    var pool1, g1 := SetColor(pool, g.id, Red), Painted(Closed(g, y), Red);
    StepRight(pool1, g.up, g1);
    var down := GoRight(g.up, g.id, Red, g.l);
    Paint(pool1, down, y, Black);
    var pool2, y' := SetColor(pool1, y.id, Black), Painted(y, Black);
    StepUp(pool2, down, y');
    RotateLeft(pool2, g.up, Closed(down, y'));
    var t' := RotatedLeft(Closed(down, y'));
    assert t' == N(y.id, Black, N(g.id, Red, g.l, y.l), y.r);
    SameChain4(Plug(g, y), Plug(g.up, g1), Plug(down, y'), Plug(g.up, t'));
    assert RB(t', h + 1);
    WholeFixed(OuterRight(pool, g.id, y.id, Head(g.up), Rightward(g.up)), g.up, t', h + 1);
  }

  /** Painting the root black ends the insertion. */
  lemma RootBlack(pool: seq<TreeNode>, t: Tree, h: nat)
    requires Fixed(pool, t, h)
    ensures t.N? && 0 < t.id < |pool| && pool[HEADER].left == t.id
    ensures exists h' :: Fixed(SetColor(pool, t.id, Black), Painted(t, Black), h') && SameNodes(t, Painted(t, Black))
  {
    Paint(pool, Top, t, Black);
    var h' := if t.clr == Black then h else h + 1;
    assert RB(Painted(t, Black), h');
    assert Fixed(SetColor(pool, t.id, Black), Painted(t, Black), h');
  }
}
