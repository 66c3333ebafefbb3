/** How a pool of tree nodes with child links holds a red-black tree, and what the pointer assignments of an insertion
    do to the tree. Node 0 is the header embedded in the tree object; its left link is the root. */
module RedBlackPool {
  import opened RedBlackModel
  import opened CubeRows

  const NIL: int := -1
  const HEADER: int := 0

  datatype TreeNode = TreeNode(left: int, right: int, clr: Color, row: Row)

  ghost predicate Rep(pool: seq<TreeNode>, link: int, t: Tree)
    decreases t
  {
    match t
    case E => link == NIL
    case N(id, clr, l, r) =>
      link == id && 0 < id < |pool| && pool[id].clr == clr && Rep(pool, pool[id].left, l) &&
      Rep(pool, pool[id].right, r)
  }

  ghost function Head(path: Path): nat { if path.Top? then HEADER else path.id }
  ghost predicate Rightward(path: Path) { path.GoRight? }

  /** The pool holds everything around the hole of `path`, and the link at the hole is x. */
  ghost predicate RepPath(pool: seq<TreeNode>, path: Path, x: int) {
    if path.Top? then |pool| > 0 && pool[HEADER].left == x
    else
      0 < path.id < |pool| && pool[path.id].clr == path.clr && RepPath(pool, path.up, path.id) &&
      if path.GoLeft? then pool[path.id].left == x && Rep(pool, pool[path.id].right, path.r)
      else pool[path.id].right == x && Rep(pool, pool[path.id].left, path.l)
  }

  ghost predicate SameLinks(pool: seq<TreeNode>, pool': seq<TreeNode>, id: int)
    requires 0 <= id
  {
    id < |pool| ==>
      id < |pool'| && pool[id].left == pool'[id].left && pool[id].right == pool'[id].right &&
      pool[id].clr == pool'[id].clr
  }

  lemma {:induction false} RepFrame(pool: seq<TreeNode>, pool': seq<TreeNode>, link: int, t: Tree)
    requires Rep(pool, link, t) &&
             forall id {:trigger SameLinks(pool, pool', id)} :: id in IdSet(t) ==> SameLinks(pool, pool', id)
    ensures Rep(pool', link, t)
    decreases t
  {
    if t.N? {
      assert SameLinks(pool, pool', t.id);
      RepFrame(pool, pool', pool[t.id].left, t.l);
      RepFrame(pool, pool', pool[t.id].right, t.r);
    }
  }

  lemma {:induction false} PathFrame(pool: seq<TreeNode>, pool': seq<TreeNode>, path: Path, x: int)
    requires RepPath(pool, path, x) && |pool'| > 0 && pool[HEADER].left == pool'[HEADER].left
    requires forall id {:trigger SameLinks(pool, pool', id)} :: id in PathSet(path) ==> SameLinks(pool, pool', id)
    ensures RepPath(pool', path, x)
  {
    if !path.Top? {
      assert SameLinks(pool, pool', path.id);
      PathFrame(pool, pool', path.up, path.id);
      if path.GoLeft? { RepFrame(pool, pool', pool[path.id].right, path.r); }
      else { RepFrame(pool, pool', pool[path.id].left, path.l); }
    }
  }

  function SetChild(pool: seq<TreeNode>, p: int, right: bool, y: int): (r: seq<TreeNode>)
    requires 0 <= p < |pool|
    ensures |r| == |pool| && forall i :: 0 <= i < |r| ==> r[i].row == pool[i].row
  {
    if right then pool[p := pool[p].(right := y)] else pool[p := pool[p].(left := y)]
  }

  function SetColor(pool: seq<TreeNode>, p: int, c: Color): (r: seq<TreeNode>)
    requires 0 <= p < |pool|
    ensures |r| == |pool| && forall i :: 0 <= i < |r| ==> r[i].row == pool[i].row
  {
    pool[p := pool[p].(clr := c)]
  }

  lemma {:induction false} PathIds(pool: seq<TreeNode>, path: Path, x: int)
    requires RepPath(pool, path, x)
    ensures Head(path) < |pool| && 0 !in PathSet(path) && forall id :: id in PathSet(path) ==> id < |pool|
  {
    if !path.Top? {
      PathIds(pool, path.up, path.id);
      if path.GoLeft? {
        TreeIds(pool, pool[path.id].right, path.r);
      } else {
        TreeIds(pool, pool[path.id].left, path.l);
      }
    }
  }

  lemma {:induction false} TreeIds(pool: seq<TreeNode>, link: int, t: Tree)
    requires Rep(pool, link, t)
    ensures 0 !in IdSet(t) && forall id :: id in IdSet(t) ==> id < |pool|
    decreases t
  {
    if t.N? {
      TreeIds(pool, pool[t.id].left, t.l);
      TreeIds(pool, pool[t.id].right, t.r);
    }
  }

  /** The head's link at the hole may be redirected. */
  lemma PathRedirect(pool: seq<TreeNode>, path: Path, x: int, y: int, t: Tree)
    requires RepPath(pool, path, x) && Unique(Plug(path, t))
    ensures Head(path) < |pool| && RepPath(SetChild(pool, Head(path), Rightward(path), y), path, y)
  {
    PathIds(pool, path, x);
    PlugApart(path, t);
    var pool' := SetChild(pool, Head(path), Rightward(path), y);
    if !path.Top? {
      PathFrame(pool, pool', path.up, path.id);
      if path.GoLeft? { RepFrame(pool, pool', pool[path.id].right, path.r); }
      else { RepFrame(pool, pool', pool[path.id].left, path.l); }
    }
  }

  /** Cutting a subtree out and putting it back. */
  lemma {:induction false} RepPlug(pool: seq<TreeNode>, path: Path, x: int, t: Tree)
    requires RepPath(pool, path, x) && Rep(pool, x, t)
    ensures |pool| > 0 && Rep(pool, pool[HEADER].left, Plug(path, t))
    decreases path
  {
    match path
    case Top =>
    case GoLeft(up, id, clr, r) => RepPlug(pool, up, id, N(id, clr, t, r));
    case GoRight(up, id, clr, l) => RepPlug(pool, up, id, N(id, clr, l, t));
  }

  // ---- The path stack -------------------------------------------------------------------------

  /** The first sl entries of the two stacks are the nodes from the header down to the hole, and the turns taken. */
  ghost predicate PathArrays(path: Path, nodes: seq<int>, drcts: seq<int>, sl: int)
    decreases path
  {
    1 <= sl <= |nodes| && sl <= |drcts| && nodes[sl - 1] == Head(path) &&
    drcts[sl - 1] == (if Rightward(path) then 1 else 0) &&
    if path.Top? then sl == 1 else PathArrays(path.up, nodes, drcts, sl - 1)
  }

  lemma {:induction false} PathArraysFrame(path: Path, nodes: seq<int>, drcts: seq<int>, nodes': seq<int>,
      drcts': seq<int>, sl: int)
    requires PathArrays(path, nodes, drcts, sl) && sl <= |nodes'| && sl <= |drcts'| && nodes'[..sl] == nodes[..sl] &&
             drcts'[..sl] == drcts[..sl]
    ensures PathArrays(path, nodes', drcts', sl)
    decreases path
  {
    assert nodes'[sl - 1] == nodes'[..sl][sl - 1] == nodes[sl - 1];
    assert drcts'[sl - 1] == drcts'[..sl][sl - 1] == drcts[sl - 1];
    if !path.Top? {
      assert nodes'[..sl - 1] == nodes'[..sl][..sl - 1] == nodes[..sl - 1];
      assert drcts'[..sl - 1] == drcts'[..sl][..sl - 1] == drcts[..sl - 1];
      PathArraysFrame(path.up, nodes, drcts, nodes', drcts', sl - 1);
    }
  }

  lemma {:induction false} PathArraysLength(path: Path, nodes: seq<int>, drcts: seq<int>, sl: int)
    requires PathArrays(path, nodes, drcts, sl)
    ensures sl == Length(path) + 1
    decreases path
  {
    if !path.Top? { PathArraysLength(path.up, nodes, drcts, sl - 1); }
  }

  // ---- Elementary changes of the tree at a hole ---------------------------------------------------

  /** The pool holds the tree Plug(path, t), with t hanging in the hole of the path. */
  ghost predicate At(pool: seq<TreeNode>, path: Path, t: Tree) {
    t.N? && RepPath(pool, path, t.id) && Rep(pool, t.id, t) && Unique(Plug(path, t))
  }

  /** The same nodes in the same order. */
  ghost predicate SameNodes(t: Tree, t': Tree) {
    Ids(t') == Ids(t) && IdSet(t') == IdSet(t) && Unique(t')
  }

  ghost function Closed(path: Path, t: Tree): (r: Tree)
    requires !path.Top?
    ensures r.N? && r.id == path.id && r.clr == path.clr
  {
    if path.GoLeft? then N(path.id, path.clr, t, path.r) else N(path.id, path.clr, path.l, t)
  }

  /** Walking up and down a path changes nothing. */
  lemma StepUp(pool: seq<TreeNode>, path: Path, t: Tree)
    requires !path.Top? && At(pool, path, t)
    ensures At(pool, path.up, Closed(path, t)) && Plug(path.up, Closed(path, t)) == Plug(path, t)
  {
  }

  lemma StepLeft(pool: seq<TreeNode>, path: Path, t: Tree)
    requires At(pool, path, t) && t.l.N?
    ensures At(pool, GoLeft(path, t.id, t.clr, t.r), t.l) && Plug(GoLeft(path, t.id, t.clr, t.r), t.l) == Plug(path, t)
  {
    assert Rep(pool, pool[t.id].left, t.l) && Rep(pool, pool[t.id].right, t.r);
    assert Plug(GoLeft(path, t.id, t.clr, t.r), t.l) == Plug(path, N(t.id, t.clr, t.l, t.r));
  }

  lemma StepRight(pool: seq<TreeNode>, path: Path, t: Tree)
    requires At(pool, path, t) && t.r.N?
    ensures At(pool, GoRight(path, t.id, t.clr, t.l), t.r) &&
            Plug(GoRight(path, t.id, t.clr, t.l), t.r) == Plug(path, t)
  {
    assert Rep(pool, pool[t.id].left, t.l) && Rep(pool, pool[t.id].right, t.r);
    assert Plug(GoRight(path, t.id, t.clr, t.l), t.r) == Plug(path, N(t.id, t.clr, t.l, t.r));
  }

  /** Where only nodes of the subtree change, the path keeps its form. */
  lemma PathStays(pool: seq<TreeNode>, pool': seq<TreeNode>, path: Path, x: int, ids: set<nat>)
    requires RepPath(pool, path, x) && |pool'| == |pool| && PathSet(path) !! ids && 0 !in ids
    requires forall i :: 0 <= i < |pool| && i !in ids ==> pool'[i] == pool[i]
    ensures RepPath(pool', path, x)
  {
    PathIds(pool, path, x);
    PathFrame(pool, pool', path, x);
  }

  lemma SubtreeStays(pool: seq<TreeNode>, pool': seq<TreeNode>, x: int, t: Tree, ids: set<nat>)
    requires Rep(pool, x, t) && |pool'| == |pool| && IdSet(t) !! ids
    requires forall i :: 0 <= i < |pool| && i !in ids ==> pool'[i] == pool[i]
    ensures Rep(pool', x, t)
  {
    TreeIds(pool, x, t);
    RepFrame(pool, pool', x, t);
  }

  lemma SameNodesPlug(path: Path, t: Tree, t': Tree)
    requires Unique(Plug(path, t)) && SameNodes(t, t')
    ensures SameNodes(Plug(path, t), Plug(path, t'))
  {
    PlugApart(path, t);
    PlugUnique(path, t, t');
    PlugIds(path, t);
    PlugIds(path, t');
    PlugSet(path, t);
    PlugSet(path, t');
  }

  ghost function Painted(t: Tree, c: Color): Tree
    requires t.N?
  {
    N(t.id, c, t.l, t.r)
  }

  lemma Paint(pool: seq<TreeNode>, path: Path, t: Tree, c: Color)
    requires At(pool, path, t)
    ensures 0 < t.id < |pool| && At(SetColor(pool, t.id, c), path, Painted(t, c)) &&
            SameNodes(Plug(path, t), Plug(path, Painted(t, c)))
  {
    var pool' := SetColor(pool, t.id, c);
    PlugApart(path, t);
    SubtreeStays(pool, pool', pool[t.id].left, t.l, {t.id});
    SubtreeStays(pool, pool', pool[t.id].right, t.r, {t.id});
    PathStays(pool, pool', path, t.id, {t.id});
    assert SameNodes(t, Painted(t, c));
    SameNodesPlug(path, t, Painted(t, c));
  }

  ghost function RotatedLeft(t: Tree): (r: Tree)
    requires t.N? && t.r.N?
    ensures r.N? && r.id == t.r.id
  {
    N(t.r.id, t.r.clr, N(t.id, t.clr, t.l, t.r.l), t.r.r)
  }

  ghost function RotatedRight(t: Tree): (r: Tree)
    requires t.N? && t.l.N?
    ensures r.N? && r.id == t.l.id
  {
    N(t.l.id, t.l.clr, t.l.l, N(t.id, t.clr, t.l.r, t.r))
  }

  /** The pointer assignments of a rotation of the edge from x down to y, where p points to x. */
  function TurnLeft(pool: seq<TreeNode>, x: int, y: int, p: int, right: bool): (r: seq<TreeNode>)
    requires 0 <= x < |pool| && 0 <= y < |pool| && 0 <= p < |pool|
    ensures |r| == |pool| && forall i :: 0 <= i < |r| ==> r[i].row == pool[i].row
  {
    SetChild(SetChild(SetChild(pool, x, true, pool[y].left), y, false, x), p, right, y)
  }

  function TurnRight(pool: seq<TreeNode>, x: int, y: int, p: int, right: bool): (r: seq<TreeNode>)
    requires 0 <= x < |pool| && 0 <= y < |pool| && 0 <= p < |pool|
    ensures |r| == |pool| && forall i :: 0 <= i < |r| ==> r[i].row == pool[i].row
  {
    SetChild(SetChild(SetChild(pool, x, false, pool[y].right), y, true, x), p, right, y)
  }

  lemma RotatedNodes(x: nat, y: nat, c: Color, d: Color, p: Tree, q: Tree, r: Tree)
    requires Unique(N(x, c, p, N(y, d, q, r))) || Unique(N(y, d, N(x, c, p, q), r))
    ensures SameNodes(N(x, c, p, N(y, d, q, r)), N(y, d, N(x, c, p, q), r))
    ensures SameNodes(N(y, d, N(x, c, p, q), r), N(x, c, p, N(y, d, q, r)))
  {
    var a, b := N(x, c, p, q), N(y, d, q, r);
    assert Ids(a) == Ids(p) + [x] + Ids(q) && Ids(b) == Ids(q) + [y] + Ids(r);
    assert Ids(N(x, c, p, b)) == Ids(p) + [x] + Ids(q) + [y] + Ids(r);
    assert IdSet(a) == IdSet(p) + {x} + IdSet(q) && IdSet(b) == IdSet(q) + {y} + IdSet(r);
    assert IdSet(N(x, c, p, b)) == IdSet(N(y, d, a, r));
    if Unique(N(x, c, p, b)) { assert Unique(p) && Unique(b); } else { assert Unique(a) && Unique(r); }
    assert Unique(p) && Unique(q) && Unique(r) && Unique(a) && Unique(b);
  }

  /** Redirecting the link of the hole to the new top of a subtree with the same nodes. */
  lemma Redirected(pool: seq<TreeNode>, pool': seq<TreeNode>, path: Path, t: Tree, t': Tree)
    requires At(pool, path, t) && |pool'| == |pool| && SameNodes(t, t') && t'.N? && Rep(pool', t'.id, t')
    requires forall i :: 0 <= i < |pool| && i !in IdSet(t) ==> pool'[i] == pool[i]
    ensures Head(path) < |pool'| && At(SetChild(pool', Head(path), Rightward(path), t'.id), path, t')
    ensures SameNodes(Plug(path, t), Plug(path, t'))
  {
    PlugApart(path, t);
    TreeIds(pool, t.id, t);
    PathIds(pool, path, t.id);
    PathStays(pool, pool', path, t.id, IdSet(t));
    SameNodesPlug(path, t, t');
    PathRedirect(pool', path, t.id, t'.id, t');
    HeadApart(path, t);
    SubtreeStays(pool', SetChild(pool', Head(path), Rightward(path), t'.id), t'.id, t', {Head(path)});
  }

  lemma HeadApart(path: Path, t: Tree)
    requires PathSet(path) !! IdSet(t) && 0 !in IdSet(t)
    ensures Head(path) !in IdSet(t)
  {
  }

  lemma RotateLeft(pool: seq<TreeNode>, path: Path, t: Tree)
    requires At(pool, path, t) && t.r.N?
    ensures 0 < t.id < |pool| && 0 < t.r.id < |pool| && pool[t.id].right == t.r.id && Head(path) < |pool|
    ensures At(TurnLeft(pool, t.id, t.r.id, Head(path), Rightward(path)), path, RotatedLeft(t)) &&
            SameNodes(Plug(path, t), Plug(path, RotatedLeft(t)))
  {
    var x, y := t.id, t.r.id;
    PlugApart(path, t);
    RotatedNodes(x, y, t.clr, t.r.clr, t.l, t.r.l, t.r.r);
    assert Rep(pool, pool[x].right, t.r);
    var pool' := SetChild(SetChild(pool, x, true, pool[y].left), y, false, x);
    SubtreeStays(pool, pool', pool[x].left, t.l, {x, y});
    SubtreeStays(pool, pool', pool[y].left, t.r.l, {x, y});
    SubtreeStays(pool, pool', pool[y].right, t.r.r, {x, y});
    assert Rep(pool', x, N(x, t.clr, t.l, t.r.l));
    assert Rep(pool', y, RotatedLeft(t));
    Redirected(pool, pool', path, t, RotatedLeft(t));
  }

  lemma RotateRight(pool: seq<TreeNode>, path: Path, t: Tree)
    requires At(pool, path, t) && t.l.N?
    ensures 0 < t.id < |pool| && 0 < t.l.id < |pool| && pool[t.id].left == t.l.id && Head(path) < |pool|
    ensures At(TurnRight(pool, t.id, t.l.id, Head(path), Rightward(path)), path, RotatedRight(t)) &&
            SameNodes(Plug(path, t), Plug(path, RotatedRight(t)))
  {
    var x, y := t.id, t.l.id;
    PlugApart(path, t);
    RotatedNodes(y, x, t.l.clr, t.clr, t.l.l, t.l.r, t.r);
    assert Rep(pool, pool[x].left, t.l);
    var pool' := SetChild(SetChild(pool, x, false, pool[y].right), y, true, x);
    SubtreeStays(pool, pool', pool[x].right, t.r, {x, y});
    SubtreeStays(pool, pool', pool[y].left, t.l.l, {x, y});
    SubtreeStays(pool, pool', pool[y].right, t.l.r, {x, y});
    assert Rep(pool', x, N(x, t.clr, t.l.r, t.r));
    assert Rep(pool', y, RotatedRight(t));
    Redirected(pool, pool', path, t, RotatedRight(t));
  }
}
