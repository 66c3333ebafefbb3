/** The views in the view file: what is written, the offsets recorded, and when they are right. */
module ViewLog {
  import opened CubeRows
  import opened CubeGroups
  import opened CubeChecksum
  import opened RowFile
  import opened Tuples
  import opened CubePool
  import opened Arith

  /** The view file: the views one after the other. */
  ghost function FileOf(made: seq<ViewEntry>): seq<int> {
    if made == [] then [] else FileOf(made[..|made| - 1]) + EncodeAll(made[|made| - 1].view)
  }

  /** The bytes that the view takes in the file. */
  ghost function Bytes(e: ViewEntry): int { 4 * |EncodeAll(e.view)| }

  /** The offset accumulated over the entries, each adding a 32-bit product. */
  ghost function Recorded(made: seq<ViewEntry>): int {
    if made == [] then 0 else Recorded(made[..|made| - 1]) + Bytes(made[|made| - 1]) % TWO32
  }

  /** The first n views have less than 2^32 bytes each. */
  ghost predicate Small(made: seq<ViewEntry>, n: int) {
    forall j :: 0 <= j < n && j < |made| ==> Bytes(made[j]) < TWO32
  }

  ghost predicate EntriesShaped(made: seq<ViewEntry>, nm: nat) {
    forall k :: 0 <= k < |made| ==> AllShaped(made[k].view, Count(made[k].t), nm)
  }

  /** Every entry has the offset accumulated before it. */
  ghost predicate Logged(made: seq<ViewEntry>, nm: nat) {
    EntriesShaped(made, nm) && forall k :: 0 <= k < |made| ==> made[k].offset == Recorded(made[..k])
  }

  lemma FileNext(made: seq<ViewEntry>, e: ViewEntry)
    ensures FileOf(made + [e]) == FileOf(made) + EncodeAll(e.view)
    ensures Recorded(made + [e]) == Recorded(made) + Bytes(e) % TWO32
  {
    assert (made + [e])[..|made|] == made;
  }

  lemma LoggedNext(made: seq<ViewEntry>, e: ViewEntry, nm: nat)
    requires Logged(made, nm) && e.offset == Recorded(made) && AllShaped(e.view, Count(e.t), nm)
    ensures Logged(made + [e], nm)
  {
    var made' := made + [e];
    forall k | 0 <= k < |made'|
      ensures made'[k].offset == Recorded(made'[..k]) && AllShaped(made'[k].view, Count(made'[k].t), nm)
    {
      assert made'[..k] == made[..k];
      assert made[..|made|] == made;
    }
  }

  /** The bytes of rows are those of a record for each row. */
  lemma RowsBytes(rows: seq<Row>, nd: nat, nm: nat)
    requires AllShaped(rows, nd, nm)
    ensures 4 * |EncodeAll(rows)| == |rows| * RecSize(nd, nm)
  {
    EncodeAllLength(rows, nd, nm);
    hide EncodeAll;
    Quadruple(|rows|, RecWords(nd, nm));
  }

  /** One more view: the offset recorded moves on by no more than the file, and by as much exactly for a small view. */
  lemma RecordedStep(recorded: int, end: int, bytes: int)
    requires 0 <= recorded <= end && recorded % 4 == 0 && bytes >= 0 && bytes % 4 == 0
    ensures 0 <= recorded + bytes % TWO32 <= end + bytes && (recorded + bytes % TWO32) % 4 == 0
    ensures recorded + bytes % TWO32 == end + bytes <==> recorded == end && bytes < TWO32
  {
  }

  /** The offset accumulated is never behind the end of the file, and it is the end of the file if and only if every
      view has less than 2^32 bytes. */
  lemma {:induction false} RecordedIs(made: seq<ViewEntry>)
    ensures 0 <= Recorded(made) <= 4 * |FileOf(made)| && Recorded(made) % 4 == 0
    ensures Recorded(made) == 4 * |FileOf(made)| <==> Small(made, |made|)
  {
    if made == [] {
    } else {
      hide Bytes, EncodeAll, FileOf, Recorded, Small;
      RecordedIs(made[..|made| - 1]);
      RecordedNext(made);
    }
  }

  lemma RecordedNext(made: seq<ViewEntry>)
    requires made != []
    requires var init := made[..|made| - 1];
      0 <= Recorded(init) <= 4 * |FileOf(init)| && Recorded(init) % 4 == 0 &&
      (Recorded(init) == 4 * |FileOf(init)| <==> Small(init, |init|))
    ensures 0 <= Recorded(made) <= 4 * |FileOf(made)| && Recorded(made) % 4 == 0
    ensures Recorded(made) == 4 * |FileOf(made)| <==> Small(made, |made|)
  {
    hide EncodeAll, FileOf, Recorded, Small;
    var init, e := made[..|made| - 1], made[|made| - 1];
    assert made == init + [e];
    FileNext(init, e);
    SmallLast(made);
    RecordedStep(Recorded(init), 4 * |FileOf(init)|, Bytes(e));
  }

  lemma SmallLast(made: seq<ViewEntry>)
    requires made != []
    ensures var n := |made| - 1; Small(made, n + 1) <==> Small(made[..n], n) && Bytes(made[n]) < TWO32
  {
    hide Bytes;
    var n := |made| - 1;
    assert forall j :: 0 <= j < n ==> made[..n][j] == made[j];
  }

  lemma SmallPrefix(made: seq<ViewEntry>, k: nat, n: int)
    requires n <= k <= |made|
    ensures Small(made[..k], n) <==> Small(made, n)
  {
    hide Bytes;
    assert forall j :: 0 <= j < k ==> made[..k][j] == made[j];
  }

  /** What was written first stays at the front of the file. */
  lemma {:induction false} FilePrefix(made: seq<ViewEntry>, k: nat)
    requires k <= |made|
    ensures |FileOf(made[..k])| <= |FileOf(made)| && FileOf(made)[..|FileOf(made[..k])|] == FileOf(made[..k])
    decreases |made|
  {
    if k == |made| {
      assert made[..k] == made;
    } else {
      var n := |made| - 1;
      assert made[..n][..k] == made[..k];
      FilePrefix(made[..n], k);
    }
  }

  lemma EntryInFile(made: seq<ViewEntry>, k: nat)
    requires k < |made|
    ensures var at := |FileOf(made[..k])|;
      at + |EncodeAll(made[k].view)| <= |FileOf(made)| && Holds(FileOf(made), at, made[k].view)
  {
    hide EncodeAll;
    assert made[..k + 1][..k] == made[..k];
    FilePrefix(made, k + 1);
    var at, w := |FileOf(made[..k])|, EncodeAll(made[k].view);
    assert FileOf(made[..k + 1]) == FileOf(made[..k]) + w;
    assert FileOf(made)[at..at + |w|] == FileOf(made[..k + 1])[at..];
  }

  /** The place recorded for a view lies inside the file, and the view stands there when all views before it are
      small. */
  lemma EntryStands(made: seq<ViewEntry>, k: nat, nm: nat)
    requires Logged(made, nm) && k < |made|
    ensures Placed(made[k], FileOf(made), nm)
    ensures made[k].offset == 4 * |FileOf(made[..k])| <==> Small(made, k)
    ensures Small(made, k) ==> Holds(FileOf(made), made[k].offset / 4, made[k].view)
  {
    hide FileOf, EncodeAll, Bytes, Holds, Recorded;
    var init := made[..k];
    RecordedIs(init);
    SmallPrefix(made, k, k);
    EntryInFile(made, k);
    Quarter(made[k].offset, |FileOf(init)|);
  }

  lemma Quarter(offset: int, n: nat)
    requires 0 <= offset <= 4 * n
    ensures 0 <= offset / 4 <= n && (offset == 4 * n ==> offset / 4 == n)
  {
  }

  /** The place for one more view, when it has been written. */
  lemma NextPlaced(made: seq<ViewEntry>, e: ViewEntry, nm: nat)
    requires Logged(made, nm) && e.offset == Recorded(made) && AllShaped(e.view, Count(e.t), nm)
    ensures Placed(e, FileOf(made) + EncodeAll(e.view), nm)
  {
    hide FileOf, EncodeAll, Recorded;
    FileNext(made, e);
    LoggedNext(made, e, nm);
    EntryStands(made + [e], |made|, nm);
  }

  // ---- Right views -----------------------------------------------------------------------------------

  /** The view is the cube's view onto the entry's dimensions. */
  ghost predicate Right(e: ViewEntry, rows: seq<Row>, nm: nat) {
    AllShaped(rows, |e.t|, nm) && e.view == View(e.t, rows, nm)
  }

  /** A view is right when all views before the last one before it are small. */
  ghost predicate RightWhileSmall(made: seq<ViewEntry>, rows: seq<Row>, nm: nat) {
    forall k :: 0 <= k < |made| && Small(made, k - 1) ==> Right(made[k], rows, nm)
  }

  lemma RightNext(made: seq<ViewEntry>, e: ViewEntry, rows: seq<Row>, nm: nat)
    requires RightWhileSmall(made, rows, nm) && (Small(made, |made| - 1) ==> Right(e, rows, nm))
    ensures RightWhileSmall(made + [e], rows, nm)
  {
    hide Right;
    var made' := made + [e];
    assert made'[..|made|] == made;
    forall k | 0 <= k < |made'| && Small(made', k - 1) ensures Right(made'[k], rows, nm) {
      SmallPrefix(made', |made|, k - 1);
    }
  }

  /** A view takes no more words than the input. */
  lemma ViewSize(t: Tuple, rows: seq<Row>, nm: nat)
    requires AllShaped(rows, |t|, nm)
    ensures |EncodeAll(View(t, rows, nm))| <= |EncodeAll(rows)|
  {
    hide Count, Selected, Aggregate, EncodeAll;
    SelectedColumns(t);
    var projected := Project(rows, Selected(t), |t|, nm);
    AggregateSize(projected);
    AggregateShaped(projected, Count(t), nm);
    FewerWords(View(t, rows, nm), rows, Count(t), |t|, nm);
  }

  /** Fewer and shorter rows take fewer words. */
  lemma FewerWords(a: seq<Row>, b: seq<Row>, nv: nat, nd: nat, nm: nat)
    requires AllShaped(a, nv, nm) && AllShaped(b, nd, nm) && |a| <= |b| && nv <= nd
    ensures |EncodeAll(a)| <= |EncodeAll(b)|
  {
    hide EncodeAll;
    EncodeAllLength(a, nv, nm);
    EncodeAllLength(b, nd, nm);
    ProductBound(|a|, |b|, RecWords(nv, nm), RecWords(nd, nm));
  }

  /** The view takes less than 2^32 bytes of the view file. */
  ghost predicate Below32Bits(t: Tuple, rows: seq<Row>, nm: nat)
    requires AllShaped(rows, |t|, nm)
  {
    4 * |EncodeAll(View(t, rows, nm))| < TWO32
  }

  /** The cube's views onto the first n tuples have less than 2^32 bytes each. */
  ghost predicate AllBelow(ts: seq<Tuple>, n: int, rows: seq<Row>, nd: nat, nm: nat)
    requires AllShaped(rows, nd, nm)
  {
    forall j :: 0 <= j < n && j < |ts| && |ts[j]| == nd ==> Below32Bits(ts[j], rows, nm)
  }

  /** That the views made are small can be seen from the cube. */
  lemma {:induction false} SmallIs(made: seq<ViewEntry>, ts: seq<Tuple>, n: nat, rows: seq<Row>, nd: nat, nm: nat)
    requires AllShaped(rows, nd, nm) && RightWhileSmall(made, rows, nm) && n <= |made| <= |ts|
    requires forall k :: 0 <= k < |made| ==> made[k].t == ts[k] && |ts[k]| == nd
    ensures Small(made, n) <==> AllBelow(ts, n, rows, nd, nm)
  {
    if n > 0 {
      hide View, EncodeAll, Count;
      SmallIs(made, ts, n - 1, rows, nd, nm);
      if Small(made, n - 1) {
        assert Small(made, n - 2);
        assert Right(made[n - 1], rows, nm);
        assert Bytes(made[n - 1]) < TWO32 <==> Below32Bits(ts[n - 1], rows, nm);
      }
    }
  }

  /** No view of an input of less than 2^32 bytes is that large. */
  lemma SmallInput(t: Tuple, rows: seq<Row>, nm: nat)
    requires AllShaped(rows, |t|, nm) && 4 * |EncodeAll(rows)| < TWO32
    ensures Below32Bits(t, rows, nm)
  {
    hide View, Count, EncodeAll;
    ViewSize(t, rows, nm);
  }

  // ---- An input with a large view ------------------------------------------------------------------------

  /** An input of 2^28 different rows with two dimensions and two measures. */
  ghost function LargeInput(): seq<Row> {
    seq(0x1000_0000, i requires 0 <= i < 0x1000_0000 => Row([i, 0], [0, 0]))
  }

  /** Its rows without the second dimension. */
  ghost function ThinRows(): seq<Row> {
    seq(0x1000_0000, i requires 0 <= i < 0x1000_0000 => Row([i], [0, 0]))
  }

  lemma TwoColumns()
    ensures Count([true, true]) == 2 && Selected([true, true]) == [1, 2]
    ensures Count([true, false]) == 1 && Selected([true, false]) == [1]
  {
    assert [true][..0] == [] && [true, true][..1] == [true] && [true, false][..1] == [true];
    assert Count([]) == 0 && Count([true]) == 1 && Selected([true]) == [1];
  }

  lemma LargeSorted()
    ensures AllShaped(LargeInput(), 2, 2) && SortedRows(LargeInput()) && AllShaped(ThinRows(), 1, 2) &&
            SortedRows(ThinRows())
  {
  }

  lemma LargeProjects()
    requires AllShaped(LargeInput(), 2, 2)
    ensures Project(LargeInput(), [1, 2], 2, 2) == LargeInput() && Project(LargeInput(), [1], 2, 2) == ThinRows()
  {
    var rows := LargeInput();
    LargeRow(0);
    hide LargeInput, ThinRows, Pick;
    var both, first := Project(rows, [1, 2], 2, 2), Project(rows, [1], 2, 2);
    forall k | 0 <= k < |rows| ensures both[k] == rows[k] && first[k] == ThinRows()[k] {
      LargeRow(k);
      PickTwo(k, 0);
    }
  }

  lemma PickTwo(x: int, y: int)
    ensures Pick([x, y], [1, 2]) == [x, y] && Pick([x, y], [1]) == [x]
  {
  }

  lemma LargeViews()
    ensures AllShaped(LargeInput(), 2, 2) && View([true, true], LargeInput(), 2) == LargeInput() &&
            View([true, false], LargeInput(), 2) == ThinRows()
  {
    hide LargeInput, ThinRows, Selected, Aggregate, Project;
    LargeSorted();
    TwoColumns();
    LargeProjects();
    AggregateSorted(LargeInput(), 2, 2);
    AggregateSorted(ThinRows(), 1, 2);
  }

  /** The first view takes 6 * 2^30 bytes, and the offset recorded behind it is 2^31. */
  lemma LargeOffset(e: ViewEntry)
    requires e.t == [true, true] && e.view == LargeInput()
    ensures Recorded([e]) == 0x8000_0000 && FileOf([e]) == EncodeAll(LargeInput())
  {
    hide EncodeAll, LargeInput;
    LargeSorted();
    LargeRow(0);
    RowsBytes(LargeInput(), 2, 2);
    assert [e][..0] == [];
  }

  /** A word of a record in the file. */
  lemma WordAt(words: seq<int>, at: int, rows: seq<Row>, k: nat, nd: nat, nm: nat, j: nat)
    requires Holds(words, at, rows) && AllShaped(rows, nd, nm) && k < |rows| && j < RecWords(nd, nm)
    ensures |Encode(rows[k])| == RecWords(nd, nm) && 0 <= at + k * RecWords(nd, nm) + j < |words|
    ensures words[at + k * RecWords(nd, nm) + j] == Encode(rows[k])[j]
  {
    hide Encode, Holds;
    RecordWords(words, at, rows, k, nd, nm);
    var b := at + k * RecWords(nd, nm);
    NotBelow(k, RecWords(nd, nm));
    assert words[b..b + RecWords(nd, nm)][j] == words[b + j];
  }

  lemma NotBelow(k: nat, w: nat)
    ensures k * w >= 0
  {
  }

  /** A row with two measures of 0. */
  lemma ZeroRow(dims: seq<int>)
    ensures Encode(Row(dims, [0, 0])) == [0, 0, 0, 0] + dims
  {
    var ws := MeasureWords([0, 0]);
    assert LowWord(0) == 0 && HighWord(0) == 0;
    hide LowWord, HighWord;
    assert ws[2 * 0] == 0 && ws[2 * 0 + 1] == 0 && ws[2 * 1] == 0 && ws[2 * 1 + 1] == 0;
    assert ws == [0, 0, 0, 0];
  }

  lemma LargeRow(k: nat)
    requires k < 0x1000_0000
    ensures |LargeInput()| == |ThinRows()| == 0x1000_0000
    ensures LargeInput()[k] == Row([k, 0], [0, 0]) && ThinRows()[k] == Row([k], [0, 0])
  {
  }

  /** The word read as the low half of the first row's second measure is a dimension of another row. */
  lemma WrongWord(words: seq<int>)
    requires Holds(words, 0, LargeInput())
    ensures |words| > 0x2000_0002 && words[0x2000_0002] == 89478485
  {
    hide EncodeAll, Encode, LargeInput, ThinRows, Holds;
    LargeSorted();
    LargeRow(89478485);
    WordAt(words, 0, LargeInput(), 89478485, 2, 2, 4);
    ZeroRow([89478485, 0]);
    assert 0 + 89478485 * RecWords(2, 2) + 4 == 0x2000_0002;
  }

  lemma RightWord(words: seq<int>)
    requires Holds(words, 0x2000_0000, ThinRows())
    ensures |words| > 0x2000_0002 && words[0x2000_0002] == 0
  {
    hide EncodeAll, Encode, LargeInput, ThinRows, Holds;
    LargeSorted();
    LargeRow(0);
    WordAt(words, 0x2000_0000, ThinRows(), 0, 1, 2, 2);
    ZeroRow([0]);
    assert 0x2000_0000 + 0 * RecWords(1, 2) + 2 == 0x2000_0002;
  }

  lemma FirstStands(made: seq<ViewEntry>)
    requires |made| == 2
    ensures Holds(FileOf(made), 0, made[0].view)
  {
    hide EncodeAll;
    EntryInFile(made, 0);
    assert made[..0] == [];
  }

  /** Of the two views of this input, the second does not stand at the offset recorded for it. */
  lemma OffsetWraps(made: seq<ViewEntry>)
    requires |made| == 2 && made[0].t == [true, true] && made[1].t == [true, false]
    requires Logged(made, 2) && Right(made[0], LargeInput(), 2) && Right(made[1], LargeInput(), 2)
    ensures made[1].offset == 0x8000_0000 && made[1].view == ThinRows()
    ensures !Holds(FileOf(made), made[1].offset / 4, made[1].view)
  {
    hide View, LargeInput, ThinRows, EncodeAll, Recorded, FileOf, Holds;
    LargeViews();
    LargeOffset(made[0]);
    assert made[..1] == [made[0]];
    FirstStands(made);
    WrongWord(FileOf(made));
    if Holds(FileOf(made), 0x2000_0000, ThinRows()) { RightWord(FileOf(made)); }
  }
}
