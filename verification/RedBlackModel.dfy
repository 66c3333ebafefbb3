/** Red-black trees with named nodes, and paths into them: the tree that is left when one subtree is cut out. */
module RedBlackModel {
  import opened Arith

  datatype Color = Black | Red
  datatype Tree = E | N(id: nat, clr: Color, l: Tree, r: Tree)
  datatype Path = Top | GoLeft(up: Path, id: nat, clr: Color, r: Tree) | GoRight(up: Path, id: nat, clr: Color, l: Tree)

  ghost predicate IsRed(t: Tree) { t.N? && t.clr == Red }

  ghost function Ids(t: Tree): seq<nat> {
    if t.E? then [] else Ids(t.l) + [t.id] + Ids(t.r)
  }

  ghost function IdSet(t: Tree): set<nat> {
    if t.E? then {} else IdSet(t.l) + {t.id} + IdSet(t.r)
  }

  ghost predicate Unique(t: Tree) {
    t.N? ==> t.id !in IdSet(t.l) && t.id !in IdSet(t.r) && IdSet(t.l) !! IdSet(t.r) && Unique(t.l) && Unique(t.r)
  }

  /** Every path down to a missing child passes h black nodes, and no red node has a red child. */
  ghost predicate RB(t: Tree, h: nat) {
    match t
    case E => h == 0
    case N(_, Black, l, r) => h > 0 && RB(l, h - 1) && RB(r, h - 1)
    case N(_, Red, l, r) => RB(l, h) && RB(r, h) && !IsRed(l) && !IsRed(r)
  }

  ghost function Plug(path: Path, t: Tree): Tree {
    match path
    case Top => t
    case GoLeft(up, id, clr, r) => Plug(up, N(id, clr, t, r))
    case GoRight(up, id, clr, l) => Plug(up, N(id, clr, l, t))
  }

  /** The nodes to the left and to the right of the hole. */
  ghost function LeftOf(path: Path): seq<nat> {
    match path
    case Top => []
    case GoLeft(up, _, _, _) => LeftOf(up)
    case GoRight(up, id, _, l) => LeftOf(up) + Ids(l) + [id]
  }

  ghost function RightOf(path: Path): seq<nat> {
    match path
    case Top => []
    case GoLeft(up, id, _, r) => [id] + Ids(r) + RightOf(up)
    case GoRight(up, _, _, _) => RightOf(up)
  }

  ghost function PathSet(path: Path): set<nat> {
    match path
    case Top => {}
    case GoLeft(up, id, _, r) => PathSet(up) + {id} + IdSet(r)
    case GoRight(up, id, _, l) => PathSet(up) + {id} + IdSet(l)
  }

  ghost function Length(path: Path): nat {
    if path.Top? then 0 else 1 + Length(path.up)
  }

  ghost function Blacks(path: Path): nat {
    if path.Top? then 0 else Blacks(path.up) + if path.clr == Black then 1 else 0
  }

  ghost predicate RedHead(path: Path) { !path.Top? && path.clr == Red }

  ghost function Side(path: Path): Tree
    requires !path.Top?
  {
    if path.GoLeft? then path.r else path.l
  }

  /** The tree around the hole is red-black, provided that the hole is filled with black height h; a red node next to
      the hole expects a black subtree there. */
  ghost predicate PathRB(path: Path, h: nat) {
    path.Top? ||
    (RB(Side(path), h) &&
     if path.clr == Black then PathRB(path.up, h + 1)
     else !IsRed(Side(path)) && !path.up.Top? && path.up.clr == Black && PathRB(path.up, h))
  }

  lemma {:induction false} PlugIds(path: Path, t: Tree)
    ensures Ids(Plug(path, t)) == LeftOf(path) + Ids(t) + RightOf(path)
    decreases path
  {
    match path
    case Top =>
    case GoLeft(up, id, clr, r) => PlugIds(up, N(id, clr, t, r));
    case GoRight(up, id, clr, l) => PlugIds(up, N(id, clr, l, t));
  }

  lemma {:induction false} PlugSet(path: Path, t: Tree)
    ensures IdSet(Plug(path, t)) == PathSet(path) + IdSet(t)
    decreases path
  {
    match path
    case Top =>
    case GoLeft(up, id, clr, r) => PlugSet(up, N(id, clr, t, r));
    case GoRight(up, id, clr, l) => PlugSet(up, N(id, clr, l, t));
  }

  lemma {:induction false} PlugApart(path: Path, t: Tree)
    requires Unique(Plug(path, t))
    ensures Unique(t) && PathSet(path) !! IdSet(t)
    ensures !path.Top? ==>
              path.id !in PathSet(path.up) && path.id !in IdSet(Side(path)) && PathSet(path.up) !! IdSet(Side(path)) &&
              Unique(Side(path))
    decreases path
  {
    match path
    case Top =>
    case GoLeft(up, id, clr, r) => PlugApart(up, N(id, clr, t, r));
    case GoRight(up, id, clr, l) => PlugApart(up, N(id, clr, l, t));
  }

  /** A subtree may be replaced by one with the same nodes. */
  lemma {:induction false} PlugUnique(path: Path, t: Tree, t': Tree)
    requires Unique(Plug(path, t)) && Unique(t') && PathSet(path) !! IdSet(t')
    ensures Unique(Plug(path, t'))
    decreases path
  {
    PlugApart(path, t);
    match path
    case Top =>
    case GoLeft(up, id, clr, r) => PlugUnique(up, N(id, clr, t, r), N(id, clr, t', r));
    case GoRight(up, id, clr, l) => PlugUnique(up, N(id, clr, l, t), N(id, clr, l, t'));
  }

  /** Filling the hole as the path expects gives a red-black tree; its root is black unless the hole was the root. */
  lemma {:induction false} PlugRB(path: Path, t: Tree, h: nat)
    requires PathRB(path, h) && RB(t, h) && (RedHead(path) ==> !IsRed(t))
    ensures RB(Plug(path, t), h + Blacks(path)) && (path.Top? || !IsRed(Plug(path, t)))
    decreases path
  {
    match path
    case Top =>
    case GoLeft(up, id, clr, r) => PlugRB(up, N(id, clr, t, r), if clr == Black then h + 1 else h);
    case GoRight(up, id, clr, l) => PlugRB(up, N(id, clr, l, t), if clr == Black then h + 1 else h);
  }

  lemma {:induction false} RBSize(t: Tree, h: nat)
    requires RB(t, h)
    ensures |Ids(t)| + 1 >= Pow2(h)
  {
    if t.N? {
      RBSize(t.l, if t.clr == Black then h - 1 else h);
      RBSize(t.r, if t.clr == Black then h - 1 else h);
    }
  }

  lemma {:induction false} PathLength(path: Path, h: nat)
    requires PathRB(path, h)
    ensures Length(path) <= 2 * Blacks(path)
    decreases path
  {
    if !path.Top? {
      if path.clr == Black {
        PathLength(path.up, h + 1);
      } else {
        PathLength(path.up.up, h + 1);
      }
    }
  }

  /** In a red-black tree with fewer than 2^28 - 1 nodes no path has more than 54 nodes. */
  lemma PathShort(path: Path, t: Tree, h: nat)
    requires PathRB(path, h) && RB(t, h) && (RedHead(path) ==> !IsRed(t)) && |Ids(Plug(path, t))| + 1 < Pow2(28)
    ensures Length(path) <= 54
  {
    hide Pow2, RB, PathRB, Plug, Ids, Blacks, Length;
    PlugRB(path, t, h);
    RBSize(Plug(path, t), h + Blacks(path));
    PathLength(path, h);
    if h + Blacks(path) >= 28 { Pow2Monotone(28, h + Blacks(path)); }
  }
}
