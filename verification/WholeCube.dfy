/** The whole cube: the views listed in the size file are dealt to the tasks, and every task makes the views of its
    list. */
module WholeCube {
  import opened CubeRows
  import opened CubeGroups
  import opened RowFile
  import opened Tuples
  import opened CubePool
  import opened ViewLog
  import opened RedBlack
  import opened ViewControl
  import opened CubeTask
  import opened HeapSort
  import opened Schedule
  import opened SeqEdit

  // ---- Shares ------------------------------------------------------------------------------------------------

  /** The tuples of the views in the size file. */
  ghost function CubeTuples(sizes: seq<ViewSize>, nd: nat): (ts: seq<Tuple>)
    ensures |ts| == |sizes| && forall i :: 0 <= i < |sizes| ==> ts[i] == Selecting(sizes[i].selection, nd)
  {
    seq(|sizes|, i requires 0 <= i < |sizes| => Selecting(sizes[i].selection, nd))
  }

  /** Every entry of the size file selects some of the dimensions, and no two select the same. */
  ghost predicate SizesOk(sizes: seq<ViewSize>, nd: nat) {
    AllDistinct(CubeTuples(sizes, nd)) &&
    forall i :: 0 <= i < |sizes| ==> sizes[i].selection != [] && Columns(sizes[i].selection, nd)
  }

  ghost function Named(views: seq<Keyed>, nd: nat): seq<Tuple> { TupleList(TuplesOf(views), nd) }

  /** The views of one task. */
  ghost function Share(sizes: seq<ViewSize>, nInputRecs: nat, nTasks: nat, p: int, nd: nat): seq<Tuple> {
    Named(Hand(DealingOrder(sizes, nInputRecs), nTasks, p), nd)
  }

  /** The views of the first n lists together. */
  ghost function Together(lists: seq<seq<Tuple>>, n: nat): multiset<Tuple>
    requires n <= |lists|
  {
    if n == 0 then multiset{} else Together(lists, n - 1) + multiset(lists[n - 1])
  }

  lemma TuplesOfPermutes(a: seq<Keyed>, b: seq<Keyed>)
    requires multiset(a) == multiset(b)
    ensures multiset(TuplesOf(a)) == multiset(TuplesOf(b))
    decreases |a|
  {
    if a == [] {
      EmptyPermutation(a, b);
    } else {
      var n := |a| - 1;
      var k := FindLast(a, b);
      TuplesOfPermutes(a[..n], RemoveAt(b, k));
      assert TuplesOf(RemoveAt(b, k)) == RemoveAt(TuplesOf(b), k);
      assert TuplesOf(a) == TuplesOf(a[..n]) + [a[n].tuple];
      RemoveOne(TuplesOf(b), k);
    }
  }

  lemma NamedPermutes(a: seq<Keyed>, b: seq<Keyed>, nd: nat)
    requires multiset(a) == multiset(b)
    ensures multiset(Named(a, nd)) == multiset(Named(b, nd))
  {
    TuplesOfPermutes(a, b);
    TupleListPermutes(TuplesOf(a), TuplesOf(b), nd);
  }

  lemma NamedConcat(a: seq<Keyed>, b: seq<Keyed>, nd: nat)
    ensures Named(a + b, nd) == Named(a, nd) + Named(b, nd)
  {
  }

  /** The hands of the first n tasks, one after the other. */
  ghost function AllHands(views: seq<Keyed>, nTasks: nat, n: nat): seq<Keyed> {
    if n == 0 then [] else AllHands(views, nTasks, n - 1) + Hand(views, nTasks, n - 1)
  }

  lemma {:induction false} AllHandsAre(views: seq<Keyed>, nTasks: nat, n: nat)
    ensures multiset(AllHands(views, nTasks, n)) == Hands(views, nTasks, n)
  {
    if n > 0 {
      hide Hand;
      AllHandsAre(views, nTasks, n - 1);
    }
  }

  lemma {:induction false} TogetherAre(views: seq<Keyed>, nTasks: nat, n: nat, lists: seq<seq<Tuple>>, nd: nat)
    requires n <= |lists| &&
             forall p :: 0 <= p < n ==> multiset(lists[p]) == multiset(Named(Hand(views, nTasks, p), nd))
    ensures Together(lists, n) == multiset(Named(AllHands(views, nTasks, n), nd))
  {
    if n == 0 {
      assert Named([], nd) == [];
    } else {
      hide Hand, Named;
      TogetherAre(views, nTasks, n - 1, lists, nd);
      NamedConcat(AllHands(views, nTasks, n - 1), Hand(views, nTasks, n - 1), nd);
    }
  }

  lemma ViewsNamed(sizes: seq<ViewSize>, nInputRecs: nat, nd: nat)
    requires nd <= 64 && forall i :: 0 <= i < |sizes| ==> Columns(sizes[i].selection, 64)
    ensures Named(KeyedViews(sizes, nInputRecs), nd) == CubeTuples(sizes, nd)
  {
    hide BinTuple, Tuple64, Selecting;
    forall i | 0 <= i < |sizes| ensures Named(KeyedViews(sizes, nInputRecs), nd)[i] == CubeTuples(sizes, nd)[i] {
      BinTupleIs(sizes[i].selection, nd);
    }
  }

  /** A task's share in terms of the size file: the views of the entries that it is dealt. */
  lemma ShareBySize(sizes: seq<ViewSize>, nInputRecs: nat, nTasks: nat, order: seq<nat>, p: int, nd: nat)
    requires nd <= 64 && DealtFrom(sizes, nInputRecs, nTasks, order, p)
    requires forall i :: 0 <= i < |sizes| ==> Columns(sizes[i].selection, 64)
    ensures Positions(Entries(order, nTasks, p), |sizes|)
    ensures Share(sizes, nInputRecs, nTasks, p, nd) == ElementsAt(CubeTuples(sizes, nd), Entries(order, nTasks, p))
  {
    hide Hand, Entries, DealingOrder, KeyedViews, CubeTuples;
    ViewsNamed(sizes, nInputRecs, nd);
    NamedAt(KeyedViews(sizes, nInputRecs), Entries(order, nTasks, p), nd);
  }

  lemma NamedAt(views: seq<Keyed>, entries: seq<nat>, nd: nat)
    requires Positions(entries, |views|)
    ensures Named(ElementsAt(views, entries), nd) == ElementsAt(Named(views, nd), entries)
  {
    hide Tuple64;
  }

  /** Lists that are the shares of all tasks, in any order, have every view of the size file exactly once. */
  lemma SharesTogether(sizes: seq<ViewSize>, nInputRecs: nat, nTasks: nat, lists: seq<seq<Tuple>>, nd: nat)
    requires nd <= 64 && nTasks > 0 && |lists| == nTasks
    requires forall i :: 0 <= i < |sizes| ==> Columns(sizes[i].selection, 64)
    requires forall p :: 0 <= p < nTasks ==> multiset(lists[p]) == multiset(Share(sizes, nInputRecs, nTasks, p, nd))
    ensures Together(lists, nTasks) == multiset(CubeTuples(sizes, nd))
  {
    hide Hand, Hands, Named, AllHands, Together, KeyedViews, CubeTuples, DealingOrder;
    var views := DealingOrder(sizes, nInputRecs);
    TogetherAre(views, nTasks, nTasks, lists, nd);
    AllHandsAre(views, nTasks, nTasks);
    DealtOnce(views, nTasks);
    NamedPermutes(AllHands(views, nTasks, nTasks), views, nd);
    NamedPermutes(views, KeyedViews(sizes, nInputRecs), nd);
    ViewsNamed(sizes, nInputRecs, nd);
  }

  // ---- The list of one task ------------------------------------------------------------------------------------

  lemma {:induction false} DistinctOnce<T(!new)>(s: seq<T>, x: T)
    requires AllDistinct(s)
    ensures multiset(s)[x] <= 1
  {
    if s != [] {
      var n := |s| - 1;
      assert s == s[..n] + [s[n]];
      DistinctOnce(s[..n], x);
      if x == s[n] { assert x !in s[..n]; }
    }
  }

  lemma OnceDistinct<T(!new)>(s: seq<T>)
    requires forall x :: multiset(s)[x] <= 1
    ensures AllDistinct(s)
  {
    forall i, j | 0 <= i < j < |s| ensures s[i] != s[j] {
      assert s == s[..j] + s[j..] && s[i] in s[..j] && s[j] in s[j..];
      assert multiset(s) == multiset(s[..j]) + multiset(s[j..]);
      assert multiset(s)[s[j]] == multiset(s[..j])[s[j]] + multiset(s[j..])[s[j]];
    }
  }

  lemma {:induction false} HandWithin(views: seq<Keyed>, nTasks: nat, p: int)
    ensures multiset(Hand(views, nTasks, p)) <= multiset(views)
  {
    if views != [] {
      hide Turn;
      var n := |views| - 1;
      HandWithin(views[..n], nTasks, p);
      assert views == views[..n] + [views[n]];
    }
  }

  ghost function NameOf(v: Keyed, nd: nat): Tuple { Tuple64(v.tuple, nd) }

  lemma NamedRemoved(b: seq<Keyed>, k: nat, nd: nat)
    requires k < |b|
    ensures multiset(Named(b, nd)) == multiset(Named(RemoveAt(b, k), nd)) + multiset{NameOf(b[k], nd)}
  {
    hide Tuple64;
    RemoveOne(Named(b, nd), k);
    assert Named(RemoveAt(b, k), nd) == RemoveAt(Named(b, nd), k);
  }

  lemma CancelWithin<T>(m: multiset<T>, n: multiset<T>, x: T)
    ensures m <= n <==> m + multiset{x} <= n + multiset{x}
  {
    if m + multiset{x} <= n + multiset{x} {
      forall y ensures m[y] <= n[y] { assert (m + multiset{x})[y] <= (n + multiset{x})[y]; }
    }
  }

  lemma {:induction false} NamedWithin(a: seq<Keyed>, b: seq<Keyed>, nd: nat)
    requires multiset(a) <= multiset(b)
    ensures multiset(Named(a, nd)) <= multiset(Named(b, nd))
    decreases |a|
  {
    if a == [] {
      assert Named(a, nd) == [];
    } else {
      hide Named, NameOf;
      var n := |a| - 1;
      assert a[n] in multiset(a);
      var k := FindIn(b, a[n]);
      var a', b' := RemoveAt(a, n), RemoveAt(b, k);
      RemoveOne(b, k);
      RemoveOne(a, n);
      CancelWithin(multiset(a'), multiset(b'), a[n]);
      NamedWithin(a', b', nd);
      NamedRemoved(a, n, nd);
      NamedRemoved(b, k, nd);
      CancelWithin(multiset(Named(a', nd)), multiset(Named(b', nd)), NameOf(a[n], nd));
    }
  }

  lemma CubeTupleProper(sizes: seq<ViewSize>, nd: nat, t: Tuple)
    requires SizesOk(sizes, nd) && t in CubeTuples(sizes, nd)
    ensures |t| == nd && Count(t) > 0
  {
    hide Count;
    var i :| 0 <= i < |sizes| && CubeTuples(sizes, nd)[i] == t;
    var c := sizes[i].selection[0];
    assert c in sizes[i].selection && 1 <= c <= nd;
    SomeSelected(t, c - 1);
  }

  /** The list that a task is dealt can be computed: its tuples are different, and none is empty. */
  lemma ListProper(file: seq<bv64>, sizes: seq<ViewSize>, nInputRecs: nat, nTasks: nat, p: int, nd: nat)
    requires nd <= 64 && SizesOk(sizes, nd)
    requires multiset(file) ==
               multiset(Raised(Lowered(Hand(DealingOrder(sizes, nInputRecs), nTasks, p), nd), nd))
    ensures multiset(TupleList(file, nd)) == multiset(Share(sizes, nInputRecs, nTasks, p, nd))
    ensures Proper(TupleList(file, nd), nd)
  {
    hide Hand, Raised, Lowered, DealingOrder, KeyedViews, Count, TupleList;
    var views, ts := DealingOrder(sizes, nInputRecs), TupleList(file, nd);
    ListTuples(file, Hand(views, nTasks, p), nd);
    HandWithin(views, nTasks, p);
    NamedWithin(Hand(views, nTasks, p), views, nd);
    NamedPermutes(views, KeyedViews(sizes, nInputRecs), nd);
    ColumnsWide(sizes, nd);
    ViewsNamed(sizes, nInputRecs, nd);
    assert multiset(ts) <= multiset(CubeTuples(sizes, nd));
    forall x ensures multiset(ts)[x] <= 1 { DistinctOnce(CubeTuples(sizes, nd), x); }
    OnceDistinct(ts);
    forall k | 0 <= k < |ts| ensures |ts[k]| == nd && Count(ts[k]) > 0 {
      assert ts[k] in multiset(ts);
      assert ts[k] in multiset(CubeTuples(sizes, nd));
      CubeTupleProper(sizes, nd, ts[k]);
    }
  }

  lemma ColumnsWide(sizes: seq<ViewSize>, nd: nat)
    requires SizesOk(sizes, nd) && nd <= 64
    ensures forall i :: 0 <= i < |sizes| ==> Columns(sizes[i].selection, 64)
  {
  }

  /** If the list has a view with more dimensions, among them all of t's, then t is computed from a view. */
  lemma FromSomeView(ws: seq<bv64>, nd: nat, made: seq<ViewEntry>, k: nat, j: nat, o: Origin)
    requires MostFirst(ws, nd) && k < |ws| && j < |ws| && k <= |made|
    requires forall i :: 0 <= i < k ==> made[i].t == Tuple64(ws[i], nd)
    requires OriginOf(o, Tuple64(ws[k], nd), made[..k])
    requires Subset(Tuple64(ws[k], nd), Tuple64(ws[j], nd)) && Tuple64(ws[k], nd) != Tuple64(ws[j], nd)
    ensures o.FromView?
  {
    hide Tuple64, MostFirst;
    var t, u := Tuple64(ws[k], nd), Tuple64(ws[j], nd);
    if k < j { SupersetsFirst(ws, nd, k, j); }
    assert j < k && made[..k][j].t == u;
    assert Made(made[..k], u);
  }

  // ---- Making the cube -----------------------------------------------------------------------------------------

  /** What one task needs: the size file lists views of the cube, the input holds the rows, and there is memory for a
      tree node. */
  ghost predicate CubeOk(sizes: seq<ViewSize>, nInputRecs: nat, nTopDims: nat, nm: nat, memoryLimit: nat, inpf: File,
      rows: seq<Row>)
  {
    nTopDims <= 28 && SizesOk(sizes, nTopDims) && NodeSize(nTopDims, nm) <= memoryLimit < TWO32 &&
    |rows| == nInputRecs && AllShaped(rows, nTopDims, nm) && Holds(inpf.words, 0, rows) && inpf.pos == 0
  }

  /** A view is computed from another view whenever the list has one with more dimensions, among them all of its own. */
  ghost predicate ViewsUsed(ts: seq<Tuple>, n: nat, origins: seq<Origin>) {
    n <= |ts| && n <= |origins| &&
    forall k, j :: 0 <= k < n && 0 <= j < |ts| && Subset(ts[k], ts[j]) && ts[k] != ts[j] ==> origins[k].FromView?
  }

  lemma ViewsAreUsed(ws: seq<bv64>, ts: seq<Tuple>, made: seq<ViewEntry>, origins: seq<Origin>, rows: seq<Row>,
      memoryLimit: nat, nd: nat, nm: nat)
    requires MostFirst(ws, nd) && ts == TupleList(ws, nd) && |made| <= |ts| && TuplesMade(made) == ts[..|made|]
    requires |made| <= |origins| &&
             forall k :: 0 <= k < |made| ==> MadeFrom(made, k, origins[k], rows, memoryLimit, nd, nm)
    ensures ViewsUsed(ts, |made|, origins)
  {
    hide Tuple64, MostFirst, Readable, RowsRead, ViewFits, OriginOf;
    forall k | 0 <= k < |made| ensures made[k].t == Tuple64(ws[k], nd) { assert TuplesMade(made)[k] == ts[k]; }
    forall k, j | 0 <= k < |made| && 0 <= j < |ts| && Subset(ts[k], ts[j]) && ts[k] != ts[j]
      ensures origins[k].FromView?
    {
      assert MadeFrom(made, k, origins[k], rows, memoryLimit, nd, nm);
      FromSomeView(ws, nd, made, k, j, origins[k]);
    }
  }

  /** One task: its list is its share of the views, and its views are computed from each other where possible. */
  method RunTask(sizes: seq<ViewSize>, nInputRecs: nat, nTasks: nat, taskNumber: nat, nTopDims: nat, nm: nat,
      memoryLimit: nat, inpf: File, ghost rows: seq<Row>)
    returns (code: ReturnCode, task: Task, ghost ts: seq<Tuple>, ghost origins: seq<Origin>)
    requires CubeOk(sizes, nInputRecs, nTopDims, nm, memoryLimit, inpf, rows)
    requires 0 < nTasks <= MAX_NUMBER_OF_TASKS && taskNumber < nTasks
    ensures fresh(task) && fresh(task.avp)
    ensures multiset(ts) == multiset(Share(sizes, nInputRecs, nTasks, taskNumber, nTopDims)) && Proper(ts, nTopDims)
    ensures |task.made| <= |ts| && TuplesMade(task.made) == ts[..|task.made|] &&
            (code == ADC_OK <==> |task.made| == |ts|)
    ensures ViewsUsed(ts, |task.made|, origins)
    ensures forall k :: 0 <= k < |task.made| && AllBelow(ts, k - 1, rows, nTopDims, nm) ==>
      Right(task.made[k], rows, nm)
    ensures AllBelow(ts, |ts| - 2, rows, nTopDims, nm) ==>
      task.avp.viewFile.words == AllViews(ts[..|task.made|], rows, nTopDims, nm)
    ensures MemorySuffices(nInputRecs, memoryLimit, nTopDims, nm) ==> code == ADC_OK
  {
    hide PoolOk, Logged, FileOf, Share, DealingOrder, Raised, Lowered, Hand, MostFirst, NodeSize, MemorySuffices,
         AllBelow, Right, AllViews, MadeFrom, FailsFrom, Proper, AllShaped, Holds, ViewsUsed, Count, NodesLimit;
    ColumnsWide(sizes, nTopDims);
    var groupbys := PartitionCube(sizes, nInputRecs, nTasks, taskNumber, nTopDims);
    ts := TupleList(groupbys, nTopDims);
    ListProper(groupbys, sizes, nInputRecs, nTasks, taskNumber, nTopDims);
    task := new Task(nTopDims, nm, memoryLimit, inpf, rows, nInputRecs);
    code, origins := task.ComputeGivenGroupbys(groupbys, ts);
    ViewsAreUsed(groupbys, ts, task.made, origins, rows, memoryLimit, nTopDims, nm);
  }

  /** The files of the first n tasks hold the views of their lists. */
  ghost predicate FilesRight(files: seq<seq<int>>, lists: seq<seq<Tuple>>, rows: seq<Row>, nd: nat, nm: nat)
    requires AllShaped(rows, nd, nm)
  {
    |files| == |lists| &&
    forall p :: 0 <= p < |files| ==>
      (forall k :: 0 <= k < |lists[p]| ==> |lists[p][k]| == nd) && files[p] == AllViews(lists[p], rows, nd, nm)
  }

  lemma SmallViews(ts: seq<Tuple>, rows: seq<Row>, nd: nat, nm: nat)
    requires AllShaped(rows, nd, nm) && |rows| * RecSize(nd, nm) < TWO32
    ensures AllBelow(ts, |ts| - 2, rows, nd, nm)
  {
    hide RecSize, Below32Bits, EncodeAll;
    RowsBytes(rows, nd, nm);
    forall j | 0 <= j < |ts| && |ts[j]| == nd ensures Below32Bits(ts[j], rows, nm) { SmallInput(ts[j], rows, nm); }
  }

  lemma FilesNext(files: seq<seq<int>>, lists: seq<seq<Tuple>>, file: seq<int>, ts: seq<Tuple>, rows: seq<Row>, nd: nat,
      nm: nat)
    requires AllShaped(rows, nd, nm) && FilesRight(files, lists, rows, nd, nm) && Proper(ts, nd) &&
             file == AllViews(ts, rows, nd, nm)
    ensures FilesRight(files + [file], lists + [ts], rows, nd, nm)
  {
    hide AllViews, Count;
  }

  /** Each list has the views of the entries dealt to its task. */
  ghost predicate ListsDealt(lists: seq<seq<Tuple>>, sizes: seq<ViewSize>, nTasks: nat, order: seq<nat>, nd: nat) {
    forall p :: 0 <= p < |lists| ==>
      Positions(Entries(order, nTasks, p), |sizes|) &&
      multiset(lists[p]) == multiset(ElementsAt(CubeTuples(sizes, nd), Entries(order, nTasks, p)))
  }

  /** DC: every task has a file of its own; together the lists of the tasks have every view of the size file exactly
      once. An input of less than 2^32 bytes for which the memory suffices is turned into the cube: each file is the
      group-bys of the input onto the tuples of its list, in the order of the list. */
  method MakeCube(sizes: seq<ViewSize>, nInputRecs: nat, nTasks: nat, nTopDims: nat, nm: nat, memoryLimit: nat,
      inpf: File, ghost rows: seq<Row>)
    returns (files: seq<seq<int>>, ghost lists: seq<seq<Tuple>>, ghost order: seq<nat>)
    requires CubeOk(sizes, nInputRecs, nTopDims, nm, memoryLimit, inpf, rows) && 0 < nTasks <= MAX_NUMBER_OF_TASKS
    ensures |files| == |lists| == nTasks && Together(lists, nTasks) == multiset(CubeTuples(sizes, nTopDims))
    ensures Arranges(order, |sizes|) && FallingSizes(sizes, nInputRecs, order) &&
            ListsDealt(lists, sizes, nTasks, order, nTopDims)
    ensures MemorySuffices(nInputRecs, memoryLimit, nTopDims, nm) && nInputRecs * RecSize(nTopDims, nm) < TWO32 ==>
      FilesRight(files, lists, rows, nTopDims, nm)
  {
    hide Share, MemorySuffices, AllBelow, Right, AllViews, Proper, FilesRight, Count, SizesOk, RecSize, Together,
         CubeTuples, AllShaped, Holds, NodeSize;
    files, lists := [], [];
    ghost var fits := MemorySuffices(nInputRecs, memoryLimit, nTopDims, nm) &&
                      nInputRecs * RecSize(nTopDims, nm) < TWO32;
    NoFiles(rows, nTopDims, nm);
    for p := 0 to nTasks
      invariant |files| == |lists| == p && (fits ==> FilesRight(files, lists, rows, nTopDims, nm))
      invariant forall q ::
                  0 <= q < p ==> multiset(lists[q]) == multiset(Share(sizes, nInputRecs, nTasks, q, nTopDims))
    {
      var code, task;
      ghost var ts, origins;
      code, task, ts, origins := RunTask(sizes, nInputRecs, nTasks, p, nTopDims, nm, memoryLimit, inpf, rows);
      if fits {
        SmallViews(ts, rows, nTopDims, nm);
        assert ts[..|ts|] == ts;
        FilesNext(files, lists, task.avp.viewFile.words, ts, rows, nTopDims, nm);
      }
      files := files + [task.avp.viewFile.words];
      lists := lists + [ts];
    }
    ColumnsWide(sizes, nTopDims);
    SharesTogether(sizes, nInputRecs, nTasks, lists, nTopDims);
    order := DealtBySize(sizes, nInputRecs, nTasks);
    DealtLists(lists, sizes, nInputRecs, nTasks, order, nTopDims);
  }

  lemma DealtLists(lists: seq<seq<Tuple>>, sizes: seq<ViewSize>, nInputRecs: nat, nTasks: nat, order: seq<nat>, nd: nat)
    requires nd <= 64 && forall i :: 0 <= i < |sizes| ==> Columns(sizes[i].selection, 64)
    requires forall p :: DealtFrom(sizes, nInputRecs, nTasks, order, p)
    requires forall p ::
               0 <= p < |lists| ==> multiset(lists[p]) == multiset(Share(sizes, nInputRecs, nTasks, p, nd))
    ensures ListsDealt(lists, sizes, nTasks, order, nd)
  {
    hide Share, Entries, CubeTuples, DealtFrom, Positions;
    forall p | 0 <= p < |lists|
      ensures Positions(Entries(order, nTasks, p), |sizes|) &&
              multiset(lists[p]) == multiset(ElementsAt(CubeTuples(sizes, nd), Entries(order, nTasks, p)))
    {
      assert DealtFrom(sizes, nInputRecs, nTasks, order, p);
      ShareBySize(sizes, nInputRecs, nTasks, order, p, nd);
    }
  }

  lemma NoFiles(rows: seq<Row>, nd: nat, nm: nat)
    requires AllShaped(rows, nd, nm)
    ensures FilesRight([], [], rows, nd, nm)
  {
  }

  /** A view of the size file is in exactly one list, and there exactly once. */
  lemma EachOnce(sizes: seq<ViewSize>, lists: seq<seq<Tuple>>, nd: nat, t: Tuple)
    requires SizesOk(sizes, nd) && Together(lists, |lists|) == multiset(CubeTuples(sizes, nd)) &&
             t in CubeTuples(sizes, nd)
    ensures exists p :: 0 <= p < |lists| && multiset(lists[p])[t] == 1 &&
                        forall q :: 0 <= q < |lists| && q != p ==> t !in lists[q]
  {
    hide Columns;
    DistinctOnce(CubeTuples(sizes, nd), t);
    assert multiset(CubeTuples(sizes, nd))[t] == 1;
    OneList(lists, |lists|, t);
    var p :| 0 <= p < |lists| && OnlyIn(lists, |lists|, p, t);
  }

  ghost predicate OnlyIn(lists: seq<seq<Tuple>>, n: nat, p: int, t: Tuple)
    requires n <= |lists|
  {
    0 <= p < n && multiset(lists[p])[t] == 1 && forall q :: 0 <= q < n && q != p ==> t !in lists[q]
  }

  lemma {:induction false} NoList(lists: seq<seq<Tuple>>, n: nat, t: Tuple)
    requires n <= |lists| && Together(lists, n)[t] == 0
    ensures forall q :: 0 <= q < n ==> t !in lists[q]
  {
    if n > 0 { NoList(lists, n - 1, t); }
  }

  lemma {:induction false} OneList(lists: seq<seq<Tuple>>, n: nat, t: Tuple)
    requires n <= |lists| && Together(lists, n)[t] == 1
    ensures exists p :: 0 <= p < n && OnlyIn(lists, n, p, t)
  {
    if n > 0 {
      if multiset(lists[n - 1])[t] == 1 {
        NoList(lists, n - 1, t);
        assert OnlyIn(lists, n, n - 1, t);
      } else {
        OneList(lists, n - 1, t);
        var p :| 0 <= p < n - 1 && OnlyIn(lists, n - 1, p, t);
        assert OnlyIn(lists, n, p, t);
      }
    }
  }
}
