/** One pass of the multi-way merge on values. */
module MergeSteps {
  import opened CubeRows
  import opened RowFile
  import opened ExternalSortModel
  import opened ChunkCursors
  import opened RunFormationSteps

  /** All cursors are in order, except that the buffer of chunk k may have to be refilled. */
  ghost predicate CursorsBut(chunks: seq<Chunk>, buf: seq<Row>, reg: int, words: seq<int>, rem: seq<seq<Row>>, k: int) {
    |rem| <= |chunks| && 0 <= k < |rem| &&
    (forall j :: 0 <= j < |rem| && j != k ==> Cursor(chunks[j], buf, j * reg, reg, words, rem[j])) &&
    (if chunks[k].curSubChunk > 0 || rem[k] == [] then Cursor(chunks[k], buf, k * reg, reg, words, rem[k])
     else InFile(chunks[k], words, rem[k]))
  }

  lemma StepForward(chunks: seq<Chunk>, buf: seq<Row>, reg: int, words: seq<int>, rem: seq<seq<Row>>, k: nat)
    requires Cursors(chunks, buf, reg, words, rem) && k < |rem| && rem[k] != []
    ensures chunks[k].curSubChunk > 0
    ensures CursorsBut(
                chunks[k := chunks[k].(curSubChunk := chunks[k].curSubChunk - 1,
                                        posSubChunk := chunks[k].posSubChunk + 1)],
                buf, reg, words, Advance(rem, k), k)
  {
    hide Cursor, InFile;
    assert Cursor(chunks[k], buf, k * reg, reg, words, rem[k]);
    TakeFirst(chunks[k], buf, k * reg, reg, words, rem[k]);
    var c' := chunks[k].(curSubChunk := chunks[k].curSubChunk - 1, posSubChunk := chunks[k].posSubChunk + 1);
    assert rem[k][1..][0..] == rem[k][1..];
  }

  lemma NoneLeft(chunks: seq<Chunk>, buf: seq<Row>, reg: int, words: seq<int>, rem: seq<seq<Row>>, k: nat, j: nat)
    requires CursorsBut(chunks, buf, reg, words, rem, k) && j < |rem|
    ensures chunks[j].curSubChunk == 0 && chunks[j].curChunkNum == 0 <==> rem[j] == []
  {
  }

  lemma AllOrSome(chunks: seq<Chunk>, buf: seq<Row>, reg: int, words: seq<int>, rem: seq<seq<Row>>, k: nat)
    requires CursorsBut(chunks, buf, reg, words, rem, k)
    ensures Flat(rem) == [] <==> forall j :: 0 <= j < |rem| ==> chunks[j].curSubChunk == 0 && chunks[j].curChunkNum == 0
  {
    hide Cursor, InFile;
    FlatEmpty(rem);
    forall j | 0 <= j < |rem| ensures chunks[j].curSubChunk == 0 && chunks[j].curChunkNum == 0 <==> rem[j] == [] {
      NoneLeft(chunks, buf, reg, words, rem, k, j);
    }
  }

  /** Refilling chunk k completes the cursors. */
  lemma CursorsComplete(chunks: seq<Chunk>, buf: seq<Row>, chunks': seq<Chunk>, buf': seq<Row>, reg: int,
      words: seq<int>, rem: seq<seq<Row>>, k: nat)
    requires CursorsBut(chunks, buf, reg, words, rem, k) && |buf'| == |buf| && reg >= 0 && |rem| * reg <= |buf|
    requires |chunks'| == |chunks| && chunks' == chunks[k := chunks'[k]] &&
             Cursor(chunks'[k], buf', k * reg, reg, words, rem[k])
    requires forall i :: 0 <= i < |buf| && !(k * reg <= i < k * reg + reg) ==> buf'[i] == buf[i]
    ensures Cursors(chunks', buf', reg, words, rem)
  {
    hide Cursor;
    forall j | 0 <= j < |rem| && j != k ensures Cursor(chunks'[j], buf', j * reg, reg, words, rem[j]) {
      assert Cursor(chunks[j], buf, j * reg, reg, words, rem[j]);
      if j < k { Bases(j, k, reg); } else { Bases(k, j, reg); }
      Bases(j, |rem|, reg);
      NotNegative(j, reg);
      assert buf'[j * reg..j * reg + reg] == buf[j * reg..j * reg + reg];
      CursorFrame(chunks[j], buf, buf', j * reg, reg, words, rem[j]);
    }
  }

  lemma NotNegative(j: int, reg: int)
    requires j >= 0 && reg >= 0
    ensures j * reg >= 0
  {
  }

  /** Before the first refill: chunks below n have their cursors, the others are in the file. */
  ghost predicate Opening(chunks: seq<Chunk>, buf: seq<Row>, reg: int, words: seq<int>, rem: seq<seq<Row>>, n: int) {
    |rem| <= |chunks| && 0 <= n <= |rem| &&
    (forall j :: 0 <= j < n ==> Cursor(chunks[j], buf, j * reg, reg, words, rem[j])) &&
    (forall j :: n <= j < |rem| ==> InFile(chunks[j], words, rem[j]))
  }

  lemma OpeningStep(chunks: seq<Chunk>, buf: seq<Row>, chunks': seq<Chunk>, buf': seq<Row>, reg: int, words: seq<int>,
      rem: seq<seq<Row>>, k: nat)
    requires Opening(chunks, buf, reg, words, rem, k) && k < |rem| && |buf'| == |buf| && reg >= 0 &&
             |rem| * reg <= |buf|
    requires |chunks'| == |chunks| && chunks' == chunks[k := chunks'[k]] &&
             Cursor(chunks'[k], buf', k * reg, reg, words, rem[k])
    requires forall i :: 0 <= i < |buf| && !(k * reg <= i < k * reg + reg) ==> buf'[i] == buf[i]
    ensures Opening(chunks', buf', reg, words, rem, k + 1)
  {
    hide Cursor, InFile;
    forall j | 0 <= j < k ensures Cursor(chunks'[j], buf', j * reg, reg, words, rem[j]) {
      assert Cursor(chunks[j], buf, j * reg, reg, words, rem[j]);
      Bases(j, k, reg);
      Bases(j, |rem|, reg);
      NotNegative(j, reg);
      assert buf'[j * reg..j * reg + reg] == buf[j * reg..j * reg + reg];
      CursorFrame(chunks[j], buf, buf', j * reg, reg, words, rem[j]);
    }
  }

  lemma OpeningStarts(chunks: seq<Chunk>, buf: seq<Row>, reg: int, file: File, runs: seq<seq<Row>>)
    requires OnDisk(chunks, file, runs)
    ensures Opening(chunks, buf, reg, file.words, runs, 0)
  {
    forall j | 0 <= j < |runs|
      ensures InFile(chunks[j], file.words, runs[j])
    {
      assert RunAt(chunks[j], file, runs[j]);
    }
  }

  lemma FirstOf(chunks: seq<Chunk>, buf: seq<Row>, reg: int, words: seq<int>, rem: seq<seq<Row>>, j: nat)
    requires Cursors(chunks, buf, reg, words, rem) && j < |rem|
    ensures chunks[j].curSubChunk > 0 <==> rem[j] != []
    ensures rem[j] != [] ==>
              0 <= j * reg + chunks[j].posSubChunk < |buf| && buf[j * reg + chunks[j].posSubChunk] == rem[j][0]
  {
    assert Cursor(chunks[j], buf, j * reg, reg, words, rem[j]);
    if rem[j] != [] { TakeFirst(chunks[j], buf, j * reg, reg, words, rem[j]); }
  }

  /** The merge so far: nothing lost, nothing taken twice, and the output is the group-by of what was taken. */
  ghost predicate Merged(runs: seq<seq<Row>>, rem: seq<seq<Row>>, taken: seq<Row>, written: seq<Row>, out: Row,
      first: bool, nd: nat, nm: nat)
  {
    multiset(taken) + multiset(Flat(rem)) == multiset(Flat(runs)) && Parts(rem, nd, nm) &&
    (first ==> taken == [] && written == []) &&
    (!first ==> Merging(written, out, taken, nd, nm) && AllAtLeast(rem, out.dims))
  }

  lemma MergedStarts(runs: seq<seq<Row>>, out: Row, nd: nat, nm: nat)
    requires Parts(runs, nd, nm)
    ensures Merged(runs, runs, [], [], out, true, nd, nm)
  {
  }

  lemma TakenMore(taken: seq<Row>, r: Row, rest: multiset<Row>, rest': multiset<Row>, all: multiset<Row>)
    requires multiset(taken) + rest == all && rest == rest' + multiset{r}
    ensures multiset(taken + [r]) + rest' == all
  {
    assert multiset(taken + [r]) == multiset(taken) + multiset{r};
  }

  lemma LeastShaped(rem: seq<seq<Row>>, k: nat, d: seq<int>, nd: nat, nm: nat)
    requires Parts(rem, nd, nm) && LeastFirst(rem, k)
    ensures Shaped(rem[k][0], nd, nm) && AllAtLeast(Advance(rem, k), rem[k][0].dims) && Parts(Advance(rem, k), nd, nm)
  {
    hide Less;
    assert AllShaped(rem[k], nd, nm);
    LeastOfAll(rem, k, nd, nm);
    AdvanceParts(rem, k, rem[k][0].dims, nd, nm);
  }

  lemma MergedFirst(runs: seq<seq<Row>>, rem: seq<seq<Row>>, out: Row, k: nat, nd: nat, nm: nat)
    requires Merged(runs, rem, [], [], out, true, nd, nm) && LeastFirst(rem, k)
    ensures Merged(runs, Advance(rem, k), [rem[k][0]], [], rem[k][0], false, nd, nm)
  {
    hide LeastFirst, Parts, Merging, AllAtLeast, Flat, Advance;
    LeastNonempty(rem, k);
    LeastShaped(rem, k, rem[k][0].dims, nd, nm);
    AdvanceFlat(rem, k);
    TakenMore([], rem[k][0], multiset(Flat(rem)), multiset(Flat(Advance(rem, k))), multiset(Flat(runs)));
    MergeFirst(rem[k][0], nd, nm);
    assert [] + [rem[k][0]] == [rem[k][0]];
  }

  lemma LeastNonempty(rem: seq<seq<Row>>, k: nat)
    requires LeastFirst(rem, k)
    ensures k < |rem| && rem[k] != []
  {
  }

  /** One pass: the least record is taken; it joins the output buffer, or the buffer is written and it takes its
      place. */
  lemma MergedNext(runs: seq<seq<Row>>, rem: seq<seq<Row>>, taken: seq<Row>, written: seq<Row>, out: Row, k: nat,
      nd: nat, nm: nat)
    requires Merged(runs, rem, taken, written, out, false, nd, nm) && LeastFirst(rem, k)
    ensures var r := rem[k][0];
      |out.meas| == |r.meas| == nm && |out.dims| == |r.dims| == nd &&
      if out.dims == r.dims then Merged(runs, Advance(rem, k), taken + [r], written,
          Row(out.dims, AddMeasures(out.meas, r.meas)), false, nd, nm)
      else Merged(runs, Advance(rem, k), taken + [r], written + [out], r, false, nd, nm)
  {
    hide LeastFirst, Parts, Merging, AllAtLeast, Flat, Advance;
    LeastNonempty(rem, k);
    var r := rem[k][0];
    LeastShaped(rem, k, r.dims, nd, nm);
    AdvanceFlat(rem, k);
    TakenMore(taken, r, multiset(Flat(rem)), multiset(Flat(Advance(rem, k))), multiset(Flat(runs)));
    assert AtLeast(r, out.dims) by { FirstAtLeast(rem, k, out.dims); }
    MergeNext(written, out, taken, r, nd, nm);
  }

  lemma FirstAtLeast(rem: seq<seq<Row>>, k: nat, d: seq<int>)
    requires AllAtLeast(rem, d) && k < |rem| && rem[k] != []
    ensures AtLeast(rem[k][0], d)
  {
  }
}
