/** The view computation of one task: rows of the input or of an earlier view are selected, aggregated in a red-black
    tree, spilled to a chunk file when the tree's memory is full, and merged. */
module ViewControl {
  import opened CubeRows
  import opened CubeGroups
  import opened CubeChecksum
  import opened RowFile
  import opened RedBlackModel
  import opened RedBlackPool
  import opened RedBlackSteps
  import opened RedBlack
  import opened ExternalSortModel
  import opened ChunkCursors
  import opened RunFormationSteps
  import opened MergeSteps
  import opened Arith

  datatype ReturnCode = ADC_OK | ADC_INTERNAL_ERROR

  /** SelectToView: the selected dimensions, in the order of the selection, and all measures. */
  method SelectToView(ib: Row, ix: seq<int>) returns (viewBuf: Row)
    requires Columns(ix, |ib.dims|)
    ensures viewBuf == Row(Pick(ib.dims, ix), ib.meas)
  {
    var dims := [];
    for i := 0 to |ix|
      invariant |dims| == i && forall k :: 0 <= k < i ==> dims[k] == ib.dims[ix[k] - 1]
    {
      dims := dims + [ib.dims[ix[i] - 1]];
    }
    assert dims == Pick(ib.dims, ix);
    viewBuf := Row(dims, ib.meas);
  }

  /** How many records of each chunk fit into memory. */
  function SubChunkSize(memoryLimit: int, numberOfChunks: int, recSize: int): int {
    if numberOfChunks <= 0 || recSize <= 0 then 0 else (memoryLimit / numberOfChunks) / recSize
  }

  class AdcView {
    const tree: RBTree
    const memoryLimit: nat
    const nm: nat
    var nd: nat
    var nv: nat
    var selection: seq<int>
    var nRowsToRead: nat
    var nViewRows: nat
    var totalOfViewRows: nat
    var numberOfChunks: nat
    var chunksParams: seq<Chunk>
    var fileOfChunks: File
    var viewFile: File
    var mSums: seq<int>
    var checksums: seq<int>

    constructor (nTopDims: nat, nm: nat, memoryLimit: nat)
      requires memoryLimit < TWO32
      ensures Ready() && this.nm == nm && this.memoryLimit == memoryLimit && viewFile == File([], 0)
      ensures fresh(tree) && fresh(tree.nodes) && fresh(tree.drcts)
    {
      tree := new RBTree(memoryLimit, nTopDims, nm);
      this.memoryLimit := memoryLimit;
      this.nm := nm;
      nd, nv := nTopDims, nTopDims;
      selection := seq(nTopDims, i => i + 1);
      nRowsToRead, nViewRows, totalOfViewRows, numberOfChunks := 0, 0, 0, 0;
      chunksParams := seq(MAX_NUM_OF_CHUNKS, _ => Chunk(0, 0, 0, 0));
      fileOfChunks, viewFile := File([], 0), File([], 0);
      mSums, checksums := Zeros(nm), Zeros(nm);
    }

    /** What holds between two views. */
    ghost predicate Ready()
      reads this`chunksParams, this`fileOfChunks, this`mSums, this`checksums
    {
      memoryLimit < TWO32 && tree.memoryLimit == memoryLimit &&
      tree.nodes.Length == tree.drcts.Length == MAX_TREE_HEIGHT && tree.nodes != tree.drcts &&
      |chunksParams| == MAX_NUM_OF_CHUNKS && fileOfChunks.pos == 0 && |mSums| == |checksums| == nm
    }

    /** WriteChunkToDisk: appends the rows of a subtree, in order, to the chunk file. */
    method WriteChunkToDisk(link: int, ghost t: Tree)
      requires Rep(tree.pool, link, t) && fileOfChunks.pos <= |fileOfChunks.words|
      modifies this`fileOfChunks
      ensures fileOfChunks == Written(old(fileOfChunks), EncodeAll(RowsOf(tree.pool, Ids(t))))
      decreases t
    {
      hide EncodeAll, Encode, Written;
      if link == NIL {
        WriteNothing(fileOfChunks, tree.pool);
        return;
      }
      ghost var f0 := fileOfChunks;
      WriteChunkToDisk(tree.pool[link].left, t.l);
      fileOfChunks := Written(fileOfChunks, Encode(tree.pool[link].row));
      WriteChunkToDisk(tree.pool[link].right, t.r);
      WriteInOrder(f0, tree.pool, t);
    }

    /** The writer's inner loop: the order number advances once per measure. */
    method AddToTotals(meas: seq<int>, ordern: nat) returns (ordern': nat)
      requires |mSums| == |checksums| == |meas| == nm
      modifies this`mSums, this`checksums
      ensures mSums == AddMeasures(old(mSums), meas) && checksums == AddTree(old(checksums), ordern, meas) &&
              ordern' == ordern + nm
    {
      hide Wrap64, TreeTerm;
      ordern' := ordern;
      for i := 0 to nm
        invariant |mSums| == |checksums| == nm && ordern' == ordern + i
        invariant forall k ::
                    0 <= k < nm ==> mSums[k] == if k < i then Wrap64(old(mSums)[k] + meas[k]) else old(mSums)[k]
        invariant forall k ::
                    0 <= k < nm ==>
                      checksums[k] ==
                        if k < i then Wrap64(old(checksums)[k] + TreeTerm(ordern + k + 1, meas[k]))
                        else old(checksums)[k]
      {
        mSums := mSums[i := Wrap64(mSums[i] + meas[i])];
        ordern' := ordern' + 1;
        checksums := checksums[i := Wrap64(checksums[i] + TreeTerm(ordern', meas[i]))];
      }
    }

    /** WriteViewToDiskCS: appends the rows of a subtree to the view file, and adds them to totals and checksums. */
    method WriteViewToDiskCS(link: int, ghost t: Tree, ordern: nat) returns (ordern': nat)
      requires Rep(tree.pool, link, t) && viewFile.pos <= |viewFile.words| && |mSums| == |checksums| == nm
      requires Measured(RowsOf(tree.pool, Ids(t)), nm)
      modifies this`viewFile, this`mSums, this`checksums
      ensures viewFile == Written(old(viewFile), EncodeAll(RowsOf(tree.pool, Ids(t))))
      ensures mSums == SumsAfter(old(mSums), RowsOf(tree.pool, Ids(t)))
      ensures checksums == TreeChecks(old(checksums), ordern, RowsOf(tree.pool, Ids(t)))
      ensures ordern' == ordern + |Ids(t)| * nm
      decreases t
    {
      hide EncodeAll, Encode, Written, SumsAfter, TreeChecks;
      if link == NIL {
        WriteNothing(viewFile, tree.pool);
        CheckNothing(mSums, checksums, ordern, tree.pool);
        ordern' := ordern;
        return;
      }
      ghost var f0, s0, c0 := viewFile, mSums, checksums;
      MeasuredParts(tree.pool, t, nm);
      var row := tree.pool[link].row;
      ordern' := WriteViewToDiskCS(tree.pool[link].left, t.l, ordern);
      ordern' := AddToTotals(row.meas, ordern');
      viewFile := Written(viewFile, Encode(row));
      ordern' := WriteViewToDiskCS(tree.pool[link].right, t.r, ordern');
      WriteInOrder(f0, tree.pool, t);
      CheckInOrder(s0, c0, ordern, tree.pool, t, nm);
    }

    // ---- Run formation ------------------------------------------------------------------------------

    /** Writes the tree's rows as the next chunk and notes where they stand. */
    method CloseChunk(chunkOffset: int) returns (chunkOffset': int)
      requires tree.Valid() && tree.nd == nv && tree.nm == nm && tree.nNodesLimit == NodesLimit(memoryLimit, nv, nm) &&
               memoryLimit < TWO32
      requires numberOfChunks < |chunksParams| && fileOfChunks.pos <= |fileOfChunks.words| &&
               chunkOffset == 4 * fileOfChunks.pos
      modifies this`chunksParams, this`numberOfChunks, this`fileOfChunks
      ensures numberOfChunks == old(numberOfChunks) + 1 && chunkOffset' == 4 * fileOfChunks.pos
      ensures fileOfChunks == Written(old(fileOfChunks), EncodeAll(tree.Contents()))
      ensures var c := old(chunksParams)[old(numberOfChunks)];
        chunksParams ==
          old(chunksParams)[old(numberOfChunks) := c.(curChunkNum := |tree.Contents()|, chunkOffset := chunkOffset)]
    {
      hide EncodeAll, Written, RowsOf, NodesLimit, RecSize, Rep;
      SoundCount(tree.pool, tree.shape, tree.height, tree.nd, tree.nm);
      SoundParts(tree.pool, tree.shape, tree.height, tree.nd, tree.nm);
      chunksParams :=
          chunksParams[numberOfChunks :=
            chunksParams[numberOfChunks].(curChunkNum := tree.count, chunkOffset := chunkOffset)];
      numberOfChunks := numberOfChunks + 1;
      chunkOffset' := chunkOffset + (tree.count * RecSize(nv, nm)) % TWO32;
      ChunkFits(memoryLimit, nv, nm, tree.count);
      ContentsLength(tree.Contents(), nv, nm);
      WriteChunkToDisk(tree.pool[HEADER].left, tree.shape);
    }

    /** The state between two records: the runs closed so far are on disk, the rows behind them are in the tree. */
    ghost predicate Forming(s: Spilled, limit: int, chunkOffset: int)
      reads this`nv, this`numberOfChunks, this`chunksParams, this`fileOfChunks, tree
    {
      tree.Valid() && tree.memoryLimit == memoryLimit < TWO32 && tree.nd == nv && tree.nm == nm &&
      tree.nNodesLimit == limit == NodesLimit(memoryLimit, nv, nm) > 0 &&
      tree.Contents() == Aggregate(s.rest) && numberOfChunks == |s.full| < MAX_NUM_OF_CHUNKS == |chunksParams| &&
      OnDisk(chunksParams, fileOfChunks, Runs(s.full)) && fileOfChunks.pos <= |fileOfChunks.words| &&
      chunkOffset == 4 * fileOfChunks.pos
    }

    /** Reads the next record and selects its columns. */
    method ReadSelected(input: File, pos: nat, ghost inp: seq<Row>, ghost k: nat) returns (viewBuf: Row)
      requires k < |inp| && AllShaped(inp, nd, nm) && Reads(input.words, input.pos, inp, nd, nm) &&
               pos == input.pos + k * RecWords(nd, nm)
      requires Columns(selection, nd) && |selection| == nv
      ensures viewBuf == Project(inp, selection, nd, nm)[k] && Shaped(viewBuf, nv, nm)
    {
      hide Decode;
      RecordInside(input.words, input.pos, k, |inp|, nd, nm);
      assert Shaped(inp[k], nd, nm) && RecordAt(input.words, input.pos, k, nd, nm) == inp[k];
      var attrs := Decode(input.words[pos..pos + RecWords(nd, nm)], nd, nm);
      viewBuf := SelectToView(attrs, selection);
      assert Shaped(Project(inp, selection, nd, nm)[k], nv, nm);
    }

    method InsertSelected(viewBuf: Row, ghost s: Spilled, ghost limit: int, ghost chunkOffset: int)
      requires Forming(s, limit, chunkOffset) && !tree.memoryIsFull && Shaped(viewBuf, nv, nm)
      modifies tree, tree.nodes, tree.drcts
      ensures Forming(Spilled(s.full, s.rest + [viewBuf]), limit, chunkOffset)
    {
      hide RowsOf, NodesLimit, Aggregate, AddRow, OnDisk, Sound;
      tree.TreeInsert(viewBuf);
      AggregateMore(s.rest, viewBuf);
    }

    /** Closes a chunk when the tree's memory is full; refuses to open more chunks than there are parameters for. */
    method SpillIfFull(chunkOffset: int, ghost s: Spilled, ghost limit: int)
      returns (code: ReturnCode, chunkOffset': int, ghost s': Spilled)
      requires Forming(s, limit, chunkOffset)
      modifies this`chunksParams, this`numberOfChunks, this`fileOfChunks, tree
      ensures s' == if |Aggregate(s.rest)| == limit then Spilled(s.full + [s.rest], []) else s
      ensures |chunksParams| == MAX_NUM_OF_CHUNKS && (code == ADC_OK <==> |s'.full| < MAX_NUM_OF_CHUNKS)
      ensures code == ADC_OK ==> Forming(s', limit, chunkOffset') && !tree.memoryIsFull
    {
      hide Written, NodesLimit, RowsOf, Aggregate, OnDisk, Sound, EncodeAll;
      SoundCount(tree.pool, tree.shape, tree.height, tree.nd, tree.nm);
      chunkOffset' := chunkOffset;
      code := ADC_OK;
      s' := s;
      if tree.memoryIsFull {
        s' := Spilled(s.full + [s.rest], []);
        if numberOfChunks + 1 >= MAX_NUM_OF_CHUNKS {
          numberOfChunks := numberOfChunks + 1;
          code := ADC_INTERNAL_ERROR;
        } else {
          ghost var chunks0, file0 := chunksParams, fileOfChunks;
          chunkOffset' := CloseChunk(chunkOffset);
          ClosedOnDisk(chunks0, file0, s.full, s.rest, chunksParams, fileOfChunks);
          tree.InitializeTree(nv, nm);
          assert Aggregate([]) == [] by { AggregateEmpty([]); }
        }
      }
    }

    method StartRuns()
      requires memoryLimit < TWO32 && NodesLimit(memoryLimit, nv, nm) > 0
      requires tree.memoryLimit == memoryLimit && tree.nodes.Length == tree.drcts.Length == MAX_TREE_HEIGHT &&
               tree.nodes != tree.drcts
      requires |chunksParams| == MAX_NUM_OF_CHUNKS && numberOfChunks == 0 && fileOfChunks.pos == 0
      modifies tree
      ensures Forming(Spilled([], []), NodesLimit(memoryLimit, nv, nm), 0) && !tree.memoryIsFull
    {
      hide RowsOf, NodesLimit, Aggregate, OnDisk, Sound;
      tree.InitializeTree(nv, nm);
      SpillStarts([], tree.nNodesLimit, chunksParams, fileOfChunks);
    }

    /** RunFormation: reads, selects and aggregates the rows at the input's position; whenever the tree's memory is full
        its rows go to the chunk file as a sorted run. */
    method RunFormation(input: File, ghost inp: seq<Row>) returns (code: ReturnCode)
      requires |inp| == nRowsToRead && AllShaped(inp, nd, nm) && Reads(input.words, input.pos, inp, nd, nm)
      requires Columns(selection, nd) && |selection| == nv && memoryLimit < TWO32 && NodesLimit(memoryLimit, nv, nm) > 0
      requires tree.memoryLimit == memoryLimit && tree.nodes.Length == tree.drcts.Length == MAX_TREE_HEIGHT &&
               tree.nodes != tree.drcts
      requires |chunksParams| == MAX_NUM_OF_CHUNKS && numberOfChunks == 0 && fileOfChunks.pos == 0
      modifies this`chunksParams, this`numberOfChunks, this`fileOfChunks, this`viewFile, tree, tree.nodes, tree.drcts
      ensures |chunksParams| == MAX_NUM_OF_CHUNKS
      ensures code == ADC_OK <==>
              |Spill(Project(inp, selection, nd, nm), NodesLimit(memoryLimit, nv, nm)).full| < MAX_NUM_OF_CHUNKS
      ensures viewFile == if code == ADC_OK then File(old(viewFile).words, |old(viewFile).words|) else old(viewFile)
      ensures code == ADC_OK ==> RunsFormed(Project(inp, selection, nd, nm))
    {
      hide NodesLimit, Spill, Aggregate, Reads, Forming, RunsFormed;
      ghost var rows := Project(inp, selection, nd, nm);
      ghost var limit := NodesLimit(memoryLimit, nv, nm);
      ghost var s := Spilled([], []);
      StartRuns();
      assert Spill(rows[..0], limit) == s by { SpillStarts(rows, limit, chunksParams, fileOfChunks); }
      var chunkOffset := 0;
      var iRec, pos := 0, input.pos;
      while iRec < nRowsToRead
        invariant 0 <= iRec <= nRowsToRead && pos == input.pos + iRec * RecWords(nd, nm) &&
                  s == Spill(rows[..iRec], limit)
        invariant Forming(s, limit, chunkOffset) && |s.full| < MAX_NUM_OF_CHUNKS == |chunksParams| &&
                  !tree.memoryIsFull && viewFile == old(viewFile)
      {
        var viewBuf := ReadSelected(input, pos, inp, iRec);
        OneMore(iRec, RecWords(nd, nm));
        pos := pos + RecWords(nd, nm);
        InsertSelected(viewBuf, s, limit, chunkOffset);
        SpillStep(rows, iRec, limit);
        s := Spilled(s.full, s.rest + [viewBuf]);
        code, chunkOffset, s := SpillIfFull(chunkOffset, s, limit);
        if code != ADC_OK {
          SpillGrows(rows, iRec + 1, limit);
          return;
        }
        iRec := iRec + 1;
      }
      assert rows[..iRec] == rows;
      FinishRuns(chunkOffset, s, limit, rows);
      viewFile := viewFile.(pos := |viewFile.words|);
      return ADC_OK;
    }

    /** Either the tree holds the aggregate of all rows, or the runs on disk are the aggregates of their segments. */
    ghost predicate RunsFormed(rows: seq<Row>)
      reads this`nv, this`numberOfChunks, this`chunksParams, this`fileOfChunks, tree
    {
      var s := Spill(rows, NodesLimit(memoryLimit, nv, nm));
      tree.Valid() && tree.nd == nv && tree.nm == nm &&
      if s.full == [] then numberOfChunks == 0 && tree.Contents() == Aggregate(rows)
      else numberOfChunks == |Segments(s)| && OnDisk(chunksParams, fileOfChunks, Runs(Segments(s)))
    }

    /** The rows left in the tree become the last chunk, if there are chunks at all. */
    method FinishRuns(chunkOffset: int, ghost s: Spilled, ghost limit: int, ghost rows: seq<Row>)
      requires Forming(s, limit, chunkOffset) && s == Spill(rows, limit)
      modifies this`chunksParams, this`numberOfChunks, this`fileOfChunks
      ensures |chunksParams| == MAX_NUM_OF_CHUNKS && RunsFormed(rows)
    {
      hide EncodeAll, Written, RowsOf, NodesLimit, Spill, Aggregate, OnDisk, Sound;
      SoundCount(tree.pool, tree.shape, tree.height, tree.nd, tree.nm);
      AggregateEmpty(s.rest);
      if numberOfChunks > 0 && tree.count != 0 {
        ghost var chunks0, file0 := chunksParams, fileOfChunks;
        var _ := CloseChunk(chunkOffset);
        ClosedOnDisk(chunks0, file0, s.full, s.rest, chunksParams, fileOfChunks);
      }
      if s.full == [] { NothingSpilled(rows, limit); }
    }

    // ---- Multi-way merge ----------------------------------------------------------------------------

    method SeekAndReadNextSubChunk(buffer: array<Row>, k: nat, inFileOffs: int, subChunkNum: nat, ghost rows: seq<Row>)
      requires subChunkNum <= |rows| && k + subChunkNum <= buffer.Length && AllShaped(rows, nv, nm)
      requires inFileOffs >= 0 && Holds(fileOfChunks.words, inFileOffs / 4, rows)
      modifies buffer
      ensures buffer[k..k + subChunkNum] == rows[..subChunkNum]
      ensures forall i :: 0 <= i < buffer.Length && !(k <= i < k + subChunkNum) ==> buffer[i] == old(buffer[i])
    {
      hide Holds, Decode, AllShaped, RecWords;
      var at, w := inFileOffs / 4, RecWords(nv, nm);
      for i := 0 to subChunkNum
        invariant forall j :: 0 <= j < i ==> buffer[k + j] == rows[j]
        invariant forall j :: 0 <= j < buffer.Length && !(k <= j < k + i) ==> buffer[j] == old(buffer[j])
      {
        ReadBack(fileOfChunks.words, at, rows, i, nv, nm);
        buffer[k + i] := Decode(fileOfChunks.words[at + i * w..at + i * w + w], nv, nm);
      }
    }

    /** ReadSubChunk: refills the buffer of a chunk with its next records. A short remainder is placed at the end of the
        buffer. */
    method ReadSubChunk(buffer: array<Row>, iChunk: nat, regSubChunkSize: nat, ghost rem: seq<Row>)
      requires iChunk < |chunksParams| && regSubChunkSize > 0 && 0 <= iChunk * regSubChunkSize &&
               iChunk * regSubChunkSize + regSubChunkSize <= buffer.Length
      requires regSubChunkSize * RecSize(nv, nm) < TWO32 && AllShaped(rem, nv, nm) &&
               InFile(chunksParams[iChunk], fileOfChunks.words, rem)
      requires rem == [] ==>
                 Cursor(chunksParams[iChunk], buffer[..], iChunk * regSubChunkSize, regSubChunkSize, fileOfChunks.words,
                     rem)
      modifies this`chunksParams, buffer
      ensures |chunksParams| == |old(chunksParams)| && chunksParams == old(chunksParams)[iChunk := chunksParams[iChunk]]
      ensures Cursor(chunksParams[iChunk], buffer[..], iChunk * regSubChunkSize, regSubChunkSize, fileOfChunks.words,
                  rem)
      ensures forall i ::
                0 <= i < buffer.Length &&
                !(iChunk * regSubChunkSize <= i < iChunk * regSubChunkSize + regSubChunkSize) ==>
                  buffer[i] == old(buffer[i])
    {
      hide Cursor, Holds, RecSize, AllShaped;
      var c, base := chunksParams[iChunk], iChunk * regSubChunkSize;
      if c.curChunkNum > 0 {
        if c.curChunkNum < regSubChunkSize {
          var p := regSubChunkSize - c.curChunkNum;
          SeekAndReadNextSubChunk(buffer, base + p, c.chunkOffset, c.curChunkNum, rem);
          chunksParams := chunksParams[iChunk := Chunk(0, -1, p, c.curChunkNum)];
          assert buffer[..][base + p..base + p + c.curChunkNum] == buffer[base + p..base + p + c.curChunkNum];
          Refilled(c, c.curChunkNum, chunksParams[iChunk], buffer[..], base, regSubChunkSize, fileOfChunks.words, rem,
              nv, nm);
        } else {
          SeekAndReadNextSubChunk(buffer, base, c.chunkOffset, regSubChunkSize, rem);
          ProductFits(regSubChunkSize, regSubChunkSize, RecSize(nv, nm), RecSize(nv, nm),
              regSubChunkSize * RecSize(nv, nm));
          Below32(regSubChunkSize * RecSize(nv, nm));
          chunksParams :=
              chunksParams[iChunk :=
                Chunk(c.curChunkNum - regSubChunkSize, c.chunkOffset + (regSubChunkSize * RecSize(nv, nm)) % TWO32,
                      0, regSubChunkSize)];
          assert buffer[..][base + 0..base + 0 + regSubChunkSize] == buffer[base..base + regSubChunkSize];
          Refilled(c, regSubChunkSize, chunksParams[iChunk], buffer[..], base, regSubChunkSize, fileOfChunks.words, rem,
              nv, nm);
        }
      }
    }

    /** The first chunk that has a record. */
    method FirstNonempty(buffer: array<Row>, reg: nat, ghost rem: seq<seq<Row>>) returns (k: nat)
      requires |rem| == numberOfChunks && Cursors(chunksParams, buffer[..], reg, fileOfChunks.words, rem) &&
               Flat(rem) != []
      ensures k < numberOfChunks && rem[k] != [] && forall j :: 0 <= j < k ==> rem[j] == []
    {
      hide Cursors, Flat;
      CursorsFit(chunksParams, buffer[..], reg, fileOfChunks.words, rem);
      FlatEmpty(rem);
      k := 0;
      while chunksParams[k].curSubChunk == 0
        invariant k < numberOfChunks && forall j :: 0 <= j < k ==> rem[j] == []
        decreases numberOfChunks - k
      {
        FirstOf(chunksParams, buffer[..], reg, fileOfChunks.words, rem, k);
        assert forall j :: 0 <= j <= k ==> rem[j] == [];
        k := k + 1;
      }
      FirstOf(chunksParams, buffer[..], reg, fileOfChunks.words, rem, k);
    }

    /** The first record of the least chunk: of the first chunk that has a record, or of a later chunk with a smaller
        one. */
    method FindLeast(buffer: array<Row>, reg: nat, ghost rem: seq<seq<Row>>) returns (minChunk: nat, minRow: Row)
      requires |rem| == numberOfChunks && Cursors(chunksParams, buffer[..], reg, fileOfChunks.words, rem) &&
               Parts(rem, nv, nm) && Flat(rem) != []
      ensures LeastFirst(rem, minChunk) && minRow == rem[minChunk][0]
    {
      hide Cursors, Parts, AtLeast, Flat, Less;
      CursorsFit(chunksParams, buffer[..], reg, fileOfChunks.words, rem);
      minChunk := FirstNonempty(buffer, reg, rem);
      FirstOf(chunksParams, buffer[..], reg, fileOfChunks.words, rem, minChunk);
      minRow := buffer[minChunk * reg + chunksParams[minChunk].posSubChunk];
      for iChunk := minChunk to numberOfChunks
        invariant minChunk < numberOfChunks && rem[minChunk] != [] && minRow == rem[minChunk][0]
        invariant forall j :: 0 <= j < iChunk && rem[j] != [] ==> AtLeast(rem[j][0], minRow.dims)
      {
        FirstOf(chunksParams, buffer[..], reg, fileOfChunks.words, rem, iChunk);
        if chunksParams[iChunk].curSubChunk > 0 {
          var r := buffer[iChunk * reg + chunksParams[iChunk].posSubChunk];
          PartsDims(rem, minChunk, nv, nm);
          PartsDims(rem, iChunk, nv, nm);
          var compRes := KeyComp(r.dims, minRow.dims);
          Smaller(rem, iChunk, minRow, r, nv, nm);
          if compRes < 0 {
            minRow, minChunk := r, iChunk;
          }
        }
      }
    }

    /** Writes the output buffer as the next row of the view. */
    method WriteMerged(out: Row, ghost written: seq<Row>)
      requires |mSums| == |checksums| == |out.meas| == nm && viewFile.pos <= |viewFile.words| && nViewRows == |written|
      modifies this`viewFile, this`nViewRows, this`mSums, this`checksums
      ensures viewFile == Written(old(viewFile), Encode(out)) && nViewRows == |written| + 1
      ensures mSums == AddMeasures(old(mSums), out.meas) && checksums == AddMerge(old(checksums), nViewRows, out.meas)
    {
      viewFile := Written(viewFile, Encode(out));
      nViewRows := nViewRows + 1;
      AddMergedTotals(out.meas);
    }

    method AddMergedTotals(meas: seq<int>)
      requires |mSums| == |checksums| == |meas| == nm
      modifies this`mSums, this`checksums
      ensures mSums == AddMeasures(old(mSums), meas) && checksums == AddMerge(old(checksums), nViewRows, meas)
    {
      hide Wrap64, MergeTerm;
      for i := 0 to nm
        invariant |mSums| == |checksums| == nm
        invariant forall k ::
                    0 <= k < nm ==> mSums[k] == if k < i then Wrap64(old(mSums)[k] + meas[k]) else old(mSums)[k]
        invariant forall k ::
                    0 <= k < nm ==>
                      checksums[k] ==
                        if k < i then Wrap64(old(checksums)[k] + MergeTerm(nViewRows, meas[k])) else old(checksums)[k]
      {
        mSums := mSums[i := Wrap64(mSums[i] + meas[i])];
        checksums := checksums[i := Wrap64(checksums[i] + MergeTerm(nViewRows, meas[i]))];
      }
    }

    /** Counts the empty buffers and the chunks that are used up. */
    method CountEmpty() returns (numEmptyBufs: nat, numEmptyRuns: nat)
      requires numberOfChunks <= |chunksParams|
      ensures numEmptyBufs == numberOfChunks && numEmptyRuns == numberOfChunks <==>
              forall j ::
                0 <= j < numberOfChunks ==> chunksParams[j].curSubChunk == 0 && chunksParams[j].curChunkNum == 0
    {
      numEmptyBufs, numEmptyRuns := 0, 0;
      for i := 0 to numberOfChunks
        invariant numEmptyBufs <= i && numEmptyRuns <= i
        invariant numEmptyBufs == i && numEmptyRuns == i <==>
                  forall j :: 0 <= j < i ==> chunksParams[j].curSubChunk == 0 && chunksParams[j].curChunkNum == 0
      {
        if chunksParams[i].curSubChunk == 0 { numEmptyBufs := numEmptyBufs + 1; }
        if chunksParams[i].curChunkNum == 0 { numEmptyRuns := numEmptyRuns + 1; }
      }
    }

    /** Reads the first records of all chunks. */
    method OpenChunks(buffer: array<Row>, reg: nat, ghost runs: seq<seq<Row>>)
      requires numberOfChunks == |runs| && Opening(chunksParams, buffer[..], reg, fileOfChunks.words, runs, 0) &&
               Parts(runs, nv, nm) && Nonempty(runs)
      requires reg > 0 && numberOfChunks * reg == buffer.Length && reg * RecSize(nv, nm) < TWO32
      modifies this`chunksParams, buffer
      ensures |chunksParams| == |old(chunksParams)| && Cursors(chunksParams, buffer[..], reg, fileOfChunks.words, runs)
    {
      hide Opening, Cursor, InFile, AllShaped, RecSize;
      for i := 0 to numberOfChunks
        invariant |chunksParams| == |old(chunksParams)| &&
                  Opening(chunksParams, buffer[..], reg, fileOfChunks.words, runs, i)
      {
        ghost var chunks0, buf0 := chunksParams, buffer[..];
        OpeningNext(chunksParams, buffer[..], reg, fileOfChunks.words, runs, i);
        NotNegative(i, reg);
        Bases(i, numberOfChunks, reg);
        ReadSubChunk(buffer, i, reg, runs[i]);
        OpeningStep(chunks0, buf0, chunksParams, buffer[..], reg, fileOfChunks.words, runs, i);
      }
      OpeningEnds(chunksParams, buffer[..], reg, fileOfChunks.words, runs);
    }

    /** Refills the buffer of a chunk when it is empty. */
    method Refill(buffer: array<Row>, reg: nat, k: nat, ghost rem: seq<seq<Row>>)
      requires numberOfChunks == |rem| && CursorsBut(chunksParams, buffer[..], reg, fileOfChunks.words, rem, k) &&
               Parts(rem, nv, nm)
      requires reg > 0 && numberOfChunks * reg == buffer.Length && reg * RecSize(nv, nm) < TWO32
      modifies this`chunksParams, buffer
      ensures |chunksParams| == |old(chunksParams)| && Cursors(chunksParams, buffer[..], reg, fileOfChunks.words, rem)
    {
      hide CursorsBut, Cursors, Cursor, InFile, AllShaped, RecSize;
      ghost var chunks0, buf0 := chunksParams, buffer[..];
      ButIs(chunksParams, buffer[..], reg, fileOfChunks.words, rem, k);
      if chunksParams[k].curSubChunk == 0 {
        NotNegative(k, reg);
        Bases(k, numberOfChunks, reg);
        ReadSubChunk(buffer, k, reg, rem[k]);
      }
      CursorsComplete(chunks0, buf0, chunksParams, buffer[..], reg, fileOfChunks.words, rem, k);
    }

    /** The least record joins the output buffer, or the buffer is written and the record takes its place. */
    method Absorb(minRow: Row, first: bool, out: Row, ghost runs: seq<seq<Row>>, ghost rem: seq<seq<Row>>, ghost k: nat,
        ghost taken: seq<Row>, ghost written: seq<Row>, ghost f0: File, ghost s0: seq<int>, ghost c0: seq<int>)
      returns (out': Row, ghost written': seq<Row>)
      requires Merged(runs, rem, taken, written, out, first, nv, nm) && LeastFirst(rem, k) && minRow == rem[k][0]
      requires Appended(written, f0, s0, c0, viewFile, mSums, checksums, nViewRows, nm)
      modifies this`viewFile, this`nViewRows, this`mSums, this`checksums
      ensures LeastFirst(rem, k) && Merged(runs, Advance(rem, k), taken + [minRow], written', out', false, nv, nm)
      ensures Appended(written', f0, s0, c0, viewFile, mSums, checksums, nViewRows, nm)
    {
      hide Merged, LeastFirst, Appended, Advance;
      LeastNonempty(rem, k);
      written' := written;
      if first {
        FirstNothing(runs, rem, taken, written, out, nv, nm);
        out' := minRow;
        MergedFirst(runs, rem, out, k, nv, nm);
        assert [] + [minRow] == [minRow];
      } else {
        MergedNext(runs, rem, taken, written, out, k, nv, nm);
        var compRes := KeyComp(out.dims, minRow.dims);
        if compRes == 0 {
          var sum := SumMeasures(out.meas, minRow.meas);
          out' := Row(out.dims, sum);
        } else {
          AppendedParts(written, f0, s0, c0, viewFile, mSums, checksums, nViewRows, nm);
          ghost var f1, s1, c1 := viewFile, mSums, checksums;
          WriteMerged(out, written);
          AppendedMore(written, f0, s0, c0, f1, s1, c1, nm, out);
          written' := written + [out];
          out' := minRow;
        }
      }
    }

    /** MultiWayMerge: merges the runs of the chunk file into the view file. Every pass consumes exactly one record;
        what is taken in all is a permutation of the runs, and what is written is its group-by. */
    method MultiWayMerge(ghost runs: seq<seq<Row>>)
      returns (code: ReturnCode, ghost view: seq<Row>, ghost taken: seq<Row>)
      requires 0 < numberOfChunks == |runs| && OnDisk(chunksParams, fileOfChunks, runs) && Parts(runs, nv, nm) &&
               Nonempty(runs)
      requires memoryLimit < TWO32 && RecSize(nv, nm) > 0 && |mSums| == |checksums| == nm &&
               viewFile.pos <= |viewFile.words|
      modifies this`chunksParams, this`fileOfChunks, this`viewFile, this`nViewRows, this`totalOfViewRows, this`mSums,
               this`checksums
      ensures |chunksParams| == |old(chunksParams)|
      ensures code == ADC_OK <==> SubChunkSize(memoryLimit, numberOfChunks, RecSize(nv, nm)) > 0
      ensures code == ADC_OK ==> GroupBy(view, taken, nv, nm) && multiset(taken) == multiset(Flat(runs))
      ensures code == ADC_OK ==>
                Appended(view, old(viewFile), old(mSums), old(checksums), viewFile, mSums, checksums, nViewRows, nm)
      ensures code == ADC_OK ==> totalOfViewRows == old(totalOfViewRows) + |view|
      ensures code != ADC_OK ==> viewFile == old(viewFile)
    {
      hide SubChunkSize, OnDisk, Parts, Cursors, CursorsBut, Opening, Flat, GroupBy, Merged, LeastFirst, RecSize,
           Appended, Advance, Nonempty;
      fileOfChunks := fileOfChunks.(pos := 0);
      nViewRows := 0;
      BufferFits(memoryLimit, numberOfChunks, RecSize(nv, nm));
      var reg := SubChunkSize(memoryLimit, numberOfChunks, RecSize(nv, nm));
      view, taken := [], [];
      if reg == 0 {
        code := ADC_INTERNAL_ERROR;
        return;
      }
      var buffer := new Row[numberOfChunks * reg](_ => Row([], []));
      OpeningStarts(chunksParams, buffer[..], reg, old(fileOfChunks), runs);
      OpenChunks(buffer, reg, runs);
      var first, out := true, Row([], []);
      ghost var rem := runs;
      MergedStarts(runs, out, nv, nm);
      NothingAppended(viewFile, mSums, checksums, nm);
      NonemptyFlat(runs);
      while true
        invariant |rem| == numberOfChunks <= |chunksParams| == |old(chunksParams)| &&
                  Cursors(chunksParams, buffer[..], reg, fileOfChunks.words, rem)
        invariant Flat(rem) != [] && Merged(runs, rem, taken, view, out, first, nv, nm) &&
                  |taken| + |Flat(rem)| == |Flat(runs)|
        invariant Appended(view, old(viewFile), old(mSums), old(checksums), viewFile, mSums, checksums, nViewRows,
                      nm) &&
                  totalOfViewRows == old(totalOfViewRows)
        decreases |Flat(rem)|
      {
        MergedParts(runs, rem, taken, view, out, first, nv, nm);
        var minChunk, minRow := FindLeast(buffer, reg, rem);
        LeastNonempty(rem, minChunk);
        StepForward(chunksParams, buffer[..], reg, fileOfChunks.words, rem, minChunk);
        var c := chunksParams[minChunk];
        chunksParams :=
            chunksParams[minChunk := c.(curSubChunk := c.curSubChunk - 1, posSubChunk := c.posSubChunk + 1)];
        out, view :=
            Absorb(minRow, first, out, runs, rem, minChunk, taken, view, old(viewFile), old(mSums), old(checksums));
        first := false;
        taken := taken + [minRow];
        AdvanceLength(rem, minChunk);
        rem := Advance(rem, minChunk);
        AllOrSome(chunksParams, buffer[..], reg, fileOfChunks.words, rem, minChunk);
        var numEmptyBufs, numEmptyRuns := CountEmpty();
        if numEmptyBufs == numberOfChunks && numEmptyRuns == numberOfChunks {
          break;
        }
        MergedParts(runs, rem, taken, view, out, first, nv, nm);
        Refill(buffer, reg, minChunk, rem);
      }
      MergedEnds(runs, rem, taken, view, out, nv, nm);
      AppendedParts(view, old(viewFile), old(mSums), old(checksums), viewFile, mSums, checksums, nViewRows, nm);
      ghost var f1, s1, c1 := viewFile, mSums, checksums;
      WriteMerged(out, view);
      AppendedMore(view, old(viewFile), old(mSums), old(checksums), f1, s1, c1, nm, out);
      view := view + [out];
      totalOfViewRows := totalOfViewRows + nViewRows;
      code := ADC_OK;
    }

    // ---- One view -------------------------------------------------------------------------------------

    /** Computes one view from the rows at the input's position and appends it to the view file. Whether the rows fit
        the tree or are spilled and merged, the view is their aggregate. */
    method ComputeView(input: File, ghost inp: seq<Row>) returns (code: ReturnCode)
      requires |inp| == nRowsToRead && AllShaped(inp, nd, nm) && Reads(input.words, input.pos, inp, nd, nm)
      requires Columns(selection, nd) && |selection| == nv && memoryLimit < TWO32 &&
               NodesLimit(memoryLimit, nv, nm) > 0 && RecSize(nv, nm) > 0
      requires tree.memoryLimit == memoryLimit && tree.nodes.Length == tree.drcts.Length == MAX_TREE_HEIGHT &&
               tree.nodes != tree.drcts
      requires |chunksParams| == MAX_NUM_OF_CHUNKS && numberOfChunks == 0 && fileOfChunks.pos == 0 &&
               |mSums| == |checksums| == nm
      modifies this`chunksParams, this`numberOfChunks, this`fileOfChunks, this`viewFile, this`nViewRows,
               this`totalOfViewRows, this`mSums, this`checksums, tree, tree.nodes, tree.drcts
      ensures |chunksParams| == MAX_NUM_OF_CHUNKS
      ensures code == ADC_OK ==>
                Viewed(Aggregate(Project(inp, selection, nd, nm)), old(viewFile).words, viewFile.words, old(mSums),
                    mSums, old(checksums), checksums, nViewRows, numberOfChunks, nm)
      ensures code == ADC_OK ==> totalOfViewRows == old(totalOfViewRows) + nViewRows
      ensures code == ADC_OK <==> ViewFits(Project(inp, selection, nd, nm), memoryLimit, nv, nm)
      ensures code != ADC_OK ==> viewFile.words == old(viewFile).words
    {
      hide Reads, NodesLimit, Spill, Aggregate, OnDisk, Parts, Nonempty, Runs, Segments, GroupBy, SubChunkSize, RecSize,
           Written, EncodeAll, Sound, RowsOf;
      ghost var rows := Project(inp, selection, nd, nm);
      ghost var limit := NodesLimit(memoryLimit, nv, nm);
      ghost var end := File(viewFile.words, |viewFile.words|);
      code := RunFormation(input, inp);
      if code == ADC_OK {
        SegmentsSome(rows, limit);
        if numberOfChunks == 0 {
          WriteTree();
        } else {
          ghost var runs := Runs(Segments(Spill(rows, limit)));
          RunsSorted(rows, limit, nv, nm);
          ghost var view, taken;
          code, view, taken := MultiWayMerge(runs);
          if code == ADC_OK { MergeDone(view, taken, rows, limit, nv, nm); }
        }
      }
    }

    /** Writes the tree's rows as the view. */
    method WriteTree()
      requires tree.Valid() && tree.nd == nv && tree.nm == nm && viewFile.pos == |viewFile.words| &&
               |mSums| == |checksums| == nm && numberOfChunks == 0
      modifies this`viewFile, this`nViewRows, this`totalOfViewRows, this`mSums, this`checksums
      ensures Viewed(tree.Contents(), old(viewFile).words, viewFile.words, old(mSums), mSums, old(checksums), checksums,
                  nViewRows, numberOfChunks, nm)
      ensures totalOfViewRows == old(totalOfViewRows) + nViewRows
    {
      hide Written, EncodeAll, Sound, RowsOf, SumsAfter, TreeChecks;
      SoundCount(tree.pool, tree.shape, tree.height, tree.nd, tree.nm);
      SoundParts(tree.pool, tree.shape, tree.height, tree.nd, tree.nm);
      ShapedMeasured(tree.Contents(), nv, nm);
      nViewRows := tree.count;
      totalOfViewRows := totalOfViewRows + nViewRows;
      var ordern := WriteViewToDiskCS(tree.pool[HEADER].left, tree.shape, 0);
    }
  }

  // ---- In-order writing -----------------------------------------------------------------------------

  lemma RowsOfNode(pool: seq<TreeNode>, t: Tree)
    requires t.N? && t.id < |pool|
    ensures RowsOf(pool, Ids(t)) == RowsOf(pool, Ids(t.l)) + [pool[t.id].row] + RowsOf(pool, Ids(t.r))
    ensures |Ids(t)| == |Ids(t.l)| + 1 + |Ids(t.r)|
  {
    RowsOfConcat(pool, Ids(t.l), [t.id]);
    RowsOfConcat(pool, Ids(t.l) + [t.id], Ids(t.r));
    assert RowsOf(pool, [t.id]) == [pool[t.id].row];
  }

  lemma RowsOfConcat(pool: seq<TreeNode>, a: seq<nat>, b: seq<nat>)
    ensures RowsOf(pool, a + b) == RowsOf(pool, a) + RowsOf(pool, b)
  {
  }

  lemma WriteNothing(f: File, pool: seq<TreeNode>)
    requires f.pos <= |f.words|
    ensures Written(f, EncodeAll(RowsOf(pool, Ids(E)))) == f
  {
    assert RowsOf(pool, Ids(E)) == [];
    assert f.words[..f.pos] + [] + f.words[f.pos..] == f.words;
  }

  lemma WriteInOrder(f: File, pool: seq<TreeNode>, t: Tree)
    requires t.N? && t.id < |pool| && f.pos <= |f.words|
    ensures Written(Written(Written(f, EncodeAll(RowsOf(pool, Ids(t.l)))), Encode(pool[t.id].row)),
                EncodeAll(RowsOf(pool, Ids(t.r)))) ==
            Written(f, EncodeAll(RowsOf(pool, Ids(t))))
  {
    hide EncodeAll, Encode, Written, RowsOf;
    var a, r, b := RowsOf(pool, Ids(t.l)), pool[t.id].row, RowsOf(pool, Ids(t.r));
    RowsOfNode(pool, t);
    EncodeAllLast(a, r);
    EncodeAllConcat(a + [r], b);
    WrittenTwice(f, EncodeAll(a), Encode(r));
    WrittenTwice(f, EncodeAll(a) + Encode(r), EncodeAll(b));
  }

  lemma CheckNothing(sums: seq<int>, checks: seq<int>, order: int, pool: seq<TreeNode>)
    ensures SumsAfter(sums, RowsOf(pool, Ids(E))) == sums && TreeChecks(checks, order, RowsOf(pool, Ids(E))) == checks
  {
    assert RowsOf(pool, Ids(E)) == [];
  }

  lemma MeasuredParts(pool: seq<TreeNode>, t: Tree, nm: nat)
    requires t.N? && t.id < |pool| && Measured(RowsOf(pool, Ids(t)), nm)
    ensures Measured(RowsOf(pool, Ids(t.l)), nm) && Measured(RowsOf(pool, Ids(t.r)), nm) && |pool[t.id].row.meas| == nm
  {
    hide RowsOf;
    var a, r, b := RowsOf(pool, Ids(t.l)), pool[t.id].row, RowsOf(pool, Ids(t.r));
    var all := RowsOf(pool, Ids(t));
    RowsOfNode(pool, t);
    forall k | 0 <= k < |a| ensures |a[k].meas| == nm { assert all[k] == a[k]; }
    forall k | 0 <= k < |b| ensures |b[k].meas| == nm { assert all[|a| + 1 + k] == b[k]; }
    assert all[|a|] == r;
  }

  lemma CheckInOrder(sums: seq<int>, checks: seq<int>, order: int, pool: seq<TreeNode>, t: Tree, nm: nat)
    requires t.N? && t.id < |pool| && |sums| == |checks| == nm
    requires Measured(RowsOf(pool, Ids(t)), nm) && Measured(RowsOf(pool, Ids(t.l)), nm) &&
             Measured(RowsOf(pool, Ids(t.r)), nm) && |pool[t.id].row.meas| == nm
    ensures var a, r, b := RowsOf(pool, Ids(t.l)), pool[t.id].row, RowsOf(pool, Ids(t.r));
      SumsAfter(AddMeasures(SumsAfter(sums, a), r.meas), b) == SumsAfter(sums, RowsOf(pool, Ids(t))) &&
      TreeChecks(AddTree(TreeChecks(checks, order, a), order + |a| * nm, r.meas), order + |a| * nm + nm, b) ==
        TreeChecks(checks, order, RowsOf(pool, Ids(t))) &&
      order + |a| * nm + nm + |b| * nm == order + |Ids(t)| * nm
  {
    hide RowsOf, SumsAfter, TreeChecks;
    var a, r, b := RowsOf(pool, Ids(t.l)), pool[t.id].row, RowsOf(pool, Ids(t.r));
    RowsOfNode(pool, t);
    TotalsInOrder(sums, checks, order, a, r, b);
    OneMore(|a|, nm);
    Distribute(|a| + 1, |b|, nm);
  }

  lemma TotalsInOrder(sums: seq<int>, checks: seq<int>, order: int, a: seq<Row>, r: Row, b: seq<Row>)
    requires |sums| == |checks| == |r.meas| && Measured(a, |sums|) && Measured(b, |sums|)
    ensures Measured(a + [r] + b, |sums|)
    ensures SumsAfter(AddMeasures(SumsAfter(sums, a), r.meas), b) == SumsAfter(sums, a + [r] + b)
    ensures TreeChecks(AddTree(TreeChecks(checks, order, a), order + |a| * |checks|, r.meas),
                order + |a| * |checks| + |checks|, b) == TreeChecks(checks, order, a + [r] + b)
  {
    var c := a + [r];
    assert Measured(c, |sums|);
    assert SumsAfter(sums, c) == AddMeasures(SumsAfter(sums, a), r.meas) &&
           TreeChecks(checks, order, c) == AddTree(TreeChecks(checks, order, a), order + |a| * |checks|, r.meas) by {
      assert c[..|a|] == a;
    }
    hide SumsAfter, TreeChecks;
    SumsConcat(sums, c, b);
    TreeChecksConcat(checks, order, c, b);
    OneMore(|a|, |checks|);
  }

  lemma SoundParts(pool: seq<TreeNode>, shape: Tree, h: nat, nd: nat, nm: nat)
    requires Sound(pool, shape, h, nd, nm)
    ensures |pool| > 0 && Rep(pool, pool[HEADER].left, shape) && AllShaped(RowsOf(pool, Ids(shape)), nd, nm)
  {
  }

  lemma ContentsLength(rows: seq<Row>, nd: nat, nm: nat)
    requires AllShaped(rows, nd, nm)
    ensures |rows| * RecSize(nd, nm) == 4 * |EncodeAll(rows)|
  {
    EncodeAllLength(rows, nd, nm);
    Quadruple(|rows|, RecWords(nd, nm));
  }

  lemma SpillStarts(rows: seq<Row>, limit: int, chunks: seq<Chunk>, file: File)
    requires file.pos == 0
    ensures Spill(rows[..0], limit) == Spilled([], []) && OnDisk(chunks, file, Runs([])) && Aggregate([]) == []
  {
  }

  lemma ClosedOnDisk(chunks: seq<Chunk>, file: File, full: seq<seq<Row>>, rest: seq<Row>, chunks': seq<Chunk>,
      file': File)
    requires OnDisk(chunks, file, Runs(full)) && |full| < |chunks| && file.pos <= |file.words| &&
             file' == Written(file, EncodeAll(Aggregate(rest)))
    requires chunks' == chunks[|full| := chunks[|full|].(curChunkNum := |Aggregate(rest)|, chunkOffset := 4 * file.pos)]
    ensures OnDisk(chunks', file', Runs(full + [rest])) && file'.pos <= |file'.words|
  {
    RunsMore(full, rest);
    OnDiskMore(chunks, file, Runs(full), Aggregate(rest), chunks'[|full|]);
  }

  lemma NothingSpilled(rows: seq<Row>, limit: int)
    requires Spill(rows, limit).full == []
    ensures Spill(rows, limit).rest == rows
  {
    SpillFlat(rows, limit);
    assert Flat([]) + Spill(rows, limit).rest == Spill(rows, limit).rest;
  }

  // ---- Merging --------------------------------------------------------------------------------------

  lemma CursorsFit(chunks: seq<Chunk>, buf: seq<Row>, reg: int, words: seq<int>, rem: seq<seq<Row>>)
    requires Cursors(chunks, buf, reg, words, rem)
    ensures |rem| <= |chunks|
  {
  }

  lemma PartsDims(rem: seq<seq<Row>>, j: nat, nd: nat, nm: nat)
    requires Parts(rem, nd, nm) && j < |rem| && rem[j] != []
    ensures |rem[j][0].dims| == nd
  {
    assert AllShaped(rem[j], nd, nm);
    assert Shaped(rem[j][0], nd, nm);
  }

  /** The minimum over the first rows, when one more chunk is looked at. */
  lemma Smaller(rem: seq<seq<Row>>, i: nat, m: Row, r: Row, nd: nat, nm: nat)
    requires Parts(rem, nd, nm) && i < |rem| && rem[i] != [] && r == rem[i][0] && |m.dims| == |r.dims| == nd
    requires forall j :: 0 <= j < i && rem[j] != [] ==> AtLeast(rem[j][0], m.dims)
    ensures Less(r.dims, m.dims) ==> forall j :: 0 <= j <= i && rem[j] != [] ==> AtLeast(rem[j][0], r.dims)
    ensures !Less(r.dims, m.dims) ==> forall j :: 0 <= j <= i && rem[j] != [] ==> AtLeast(rem[j][0], m.dims)
  {
    if Less(r.dims, m.dims) {
      forall j | 0 <= j <= i && rem[j] != [] ensures AtLeast(rem[j][0], r.dims) {
        PartsDims(rem, j, nd, nm);
        if j < i && Less(rem[j][0].dims, r.dims) { LessTransitive(rem[j][0].dims, r.dims, m.dims); }
        LessTotal(r.dims, r.dims);
      }
    }
  }

  method SumMeasures(a: seq<int>, b: seq<int>) returns (r: seq<int>)
    requires |a| == |b|
    ensures r == AddMeasures(a, b)
  {
    hide Wrap64;
    r := a;
    for i := 0 to |a|
      invariant |r| == |a| && forall k :: 0 <= k < |a| ==> r[k] == if k < i then Wrap64(a[k] + b[k]) else a[k]
    {
      r := r[i := Wrap64(r[i] + b[i])];
    }
  }

  /** The rows were appended to the view file and added to totals and checksums as the merge does it. */
  ghost predicate Appended(rows: seq<Row>, f0: File, s0: seq<int>, c0: seq<int>, file: File, sums: seq<int>,
      checks: seq<int>, n: int, nm: nat)
  {
    Measured(rows, nm) && |s0| == |c0| == nm && f0.pos <= |f0.words| && n == |rows| &&
    file == Written(f0, EncodeAll(rows)) && sums == SumsAfter(s0, rows) && checks == MergeChecks(c0, rows)
  }

  lemma NothingAppended(f: File, sums: seq<int>, checks: seq<int>, nm: nat)
    requires |sums| == |checks| == nm && f.pos <= |f.words|
    ensures Appended([], f, sums, checks, f, sums, checks, 0, nm)
  {
    assert f.words[..f.pos] + [] + f.words[f.pos..] == f.words;
  }

  lemma AppendedParts(rows: seq<Row>, f0: File, s0: seq<int>, c0: seq<int>, file: File, sums: seq<int>,
      checks: seq<int>, n: int, nm: nat)
    requires Appended(rows, f0, s0, c0, file, sums, checks, n, nm)
    ensures |sums| == |checks| == nm && file.pos <= |file.words| && n == |rows|
  {
  }

  lemma AppendedMore(rows: seq<Row>, f0: File, s0: seq<int>, c0: seq<int>, file: File, sums: seq<int>, checks: seq<int>,
      nm: nat, r: Row)
    requires Appended(rows, f0, s0, c0, file, sums, checks, |rows|, nm) && |r.meas| == nm && |sums| == |checks| == nm &&
             file.pos <= |file.words|
    ensures Appended(rows + [r], f0, s0, c0, Written(file, Encode(r)), AddMeasures(sums, r.meas),
                AddMerge(checks, |rows| + 1, r.meas), |rows| + 1, nm)
  {
    hide Written, EncodeAll, Encode;
    assert (rows + [r])[..|rows|] == rows;
    EncodeAllLast(rows, r);
    WrittenTwice(f0, EncodeAll(rows), Encode(r));
  }

  ghost predicate Nonempty(runs: seq<seq<Row>>) {
    forall j :: 0 <= j < |runs| ==> runs[j] != []
  }

  lemma NonemptyFlat(runs: seq<seq<Row>>)
    requires Nonempty(runs) && runs != []
    ensures Flat(runs) != []
  {
    FlatEmpty(runs);
    assert runs[0] != [];
  }

  lemma OpeningNext(chunks: seq<Chunk>, buf: seq<Row>, reg: int, words: seq<int>, rem: seq<seq<Row>>, n: nat)
    requires Opening(chunks, buf, reg, words, rem, n) && n < |rem|
    ensures |rem| <= |chunks| && InFile(chunks[n], words, rem[n])
  {
  }

  lemma OpeningEnds(chunks: seq<Chunk>, buf: seq<Row>, reg: int, words: seq<int>, rem: seq<seq<Row>>)
    requires Opening(chunks, buf, reg, words, rem, |rem|)
    ensures Cursors(chunks, buf, reg, words, rem)
  {
  }

  lemma ButIs(chunks: seq<Chunk>, buf: seq<Row>, reg: int, words: seq<int>, rem: seq<seq<Row>>, k: int)
    requires CursorsBut(chunks, buf, reg, words, rem, k)
    ensures |rem| <= |chunks| && 0 <= k < |rem|
    ensures chunks[k].curSubChunk > 0 || rem[k] == [] ==> Cursor(chunks[k], buf, k * reg, reg, words, rem[k])
    ensures chunks[k].curSubChunk == 0 ==> InFile(chunks[k], words, rem[k])
  {
  }

  lemma BufferFits(memoryLimit: nat, n: nat, size: nat)
    requires n > 0 && size > 0
    ensures var reg := SubChunkSize(memoryLimit, n, size); reg >= 0 && reg * size <= memoryLimit && n * reg >= 0
  {
    QuotientBound(memoryLimit, n, 1);
    QuotientBound(memoryLimit / n, size, size);
    NotNegative(n, (memoryLimit / n) / size);
  }

  lemma FirstNothing(runs: seq<seq<Row>>, rem: seq<seq<Row>>, taken: seq<Row>, written: seq<Row>, out: Row, nd: nat,
      nm: nat)
    requires Merged(runs, rem, taken, written, out, true, nd, nm)
    ensures taken == [] && written == []
  {
  }

  lemma MergedParts(runs: seq<seq<Row>>, rem: seq<seq<Row>>, taken: seq<Row>, written: seq<Row>, out: Row, first: bool,
      nd: nat, nm: nat)
    requires Merged(runs, rem, taken, written, out, first, nd, nm)
    ensures Parts(rem, nd, nm)
  {
  }

  lemma MergedEnds(runs: seq<seq<Row>>, rem: seq<seq<Row>>, taken: seq<Row>, written: seq<Row>, out: Row, nd: nat,
      nm: nat)
    requires Merged(runs, rem, taken, written, out, false, nd, nm) && Flat(rem) == []
    ensures GroupBy(written + [out], taken, nd, nm) && multiset(taken) == multiset(Flat(runs)) && |out.meas| == nm
  {
    assert (written + [out])[|written|] == out;
    assert Shaped((written + [out])[|written|], nd, nm);
  }

  // ---- One view ---------------------------------------------------------------------------------------

  /** The view was appended to the view file and added to totals and checksums. */
  ghost predicate Viewed(view: seq<Row>, w0: seq<int>, w: seq<int>, s0: seq<int>, s: seq<int>, c0: seq<int>,
      c: seq<int>, n: int, chunks: int, nm: nat)
  {
    Measured(view, nm) && |s0| == |c0| == nm && w == w0 + EncodeAll(view) && n == |view| && s == SumsAfter(s0, view) &&
    c == if chunks == 0 then TreeChecks(c0, 0, view) else MergeChecks(c0, view)
  }

  /** Memory suffices: not too many chunks, and a record of each chunk fits into the merge buffer. */
  ghost predicate ViewFits(rows: seq<Row>, memoryLimit: nat, nv: nat, nm: nat) {
    var s := Spill(rows, NodesLimit(memoryLimit, nv, nm));
    |s.full| < MAX_NUM_OF_CHUNKS && (s.full != [] ==> SubChunkSize(memoryLimit, |Segments(s)|, RecSize(nv, nm)) > 0)
  }

  /** The number of groups never falls from one record to the next. */
  lemma AggregateGrows(rows: seq<Row>, r: Row)
    ensures |Aggregate(rows)| <= |Aggregate(rows + [r])|
  {
    assert (rows + [r])[..|rows|] == rows;
  }

  /** No run is closed exactly when all groups fit into the tree together. */
  lemma {:induction false} NoSpill(rows: seq<Row>, limit: int)
    requires limit > 0
    ensures Spill(rows, limit).full == [] <==> |Aggregate(rows)| < limit
  {
    if rows != [] {
      var init, r := rows[..|rows| - 1], rows[|rows| - 1];
      assert rows == init + [r];
      NoSpill(init, limit);
      AggregateGrows(init, r);
      AggregateStep(init, r);
      if Spill(init, limit).full == [] { NothingSpilled(init, limit); }
    }
  }

  lemma AggregateStep(rows: seq<Row>, r: Row)
    ensures |Aggregate(rows + [r])| <= |Aggregate(rows)| + 1
  {
    assert (rows + [r])[..|rows|] == rows;
  }

  /** A view whose groups fit into the tree can be computed, whatever rows it is computed from. */
  lemma FewGroupsFit(rows: seq<Row>, memoryLimit: nat, nv: nat, nm: nat)
    requires 0 < NodesLimit(memoryLimit, nv, nm) && |Aggregate(rows)| < NodesLimit(memoryLimit, nv, nm)
    ensures ViewFits(rows, memoryLimit, nv, nm)
  {
    hide Aggregate, NodesLimit, Spill;
    NoSpill(rows, NodesLimit(memoryLimit, nv, nm));
  }

  /** Every closed run used up as many rows as the tree has nodes. */
  lemma {:induction false} SpillFew(rows: seq<Row>, limit: nat)
    ensures var s := Spill(rows, limit); |s.full| * limit + |s.rest| <= |rows|
  {
    if rows != [] {
      hide Aggregate;
      var n := |rows| - 1;
      SpillFew(rows[..n], limit);
      var s := Spill(rows[..n], limit);
      AggregateSize(s.rest + [rows[n]]);
      OneMore(|s.full|, limit);
    }
  }

  lemma FewRuns(n: nat, limit: nat, rows: nat)
    requires n * limit <= rows < MAX_NUM_OF_CHUNKS * limit
    ensures n < MAX_NUM_OF_CHUNKS
  {
  }

  /** As many records of each chunk are read at a time as fit into memory together. */
  lemma SubChunkIs(memoryLimit: nat, n: nat, size: nat, k: nat)
    requires n > 0 && size > 0
    ensures k <= SubChunkSize(memoryLimit, n, size) <==> n * (k * size) <= memoryLimit
  {
    QuotientIs(memoryLimit / n, size, k);
    QuotientIs(memoryLimit, n, k * size);
  }

  lemma BufferSuffices(memoryLimit: nat, n: nat, size: nat)
    requires 0 < n <= MAX_NUM_OF_CHUNKS && size > 0 && memoryLimit >= MAX_NUM_OF_CHUNKS * size
    ensures SubChunkSize(memoryLimit, n, size) > 0
  {
    assert n * size <= MAX_NUM_OF_CHUNKS * size;
    QuotientReaches(memoryLimit, n, size);
    QuotientReaches(memoryLimit / n, size, 1);
  }

  lemma QuotientReaches(a: nat, b: nat, q: nat)
    requires b > 0 && a >= b * q
    ensures a / b >= q
  {
    var d := a / b - q;
    assert a == (a / b) * b + a % b;
    MulAbove(d, b, a % b - (a - b * q));
  }

  lemma MulAbove(d: int, b: nat, r: int)
    requires b > 0 && d * b == -r && r < b
    ensures d >= 0
  {
  }

  /** The tree can be filled with the rows fewer than 1024 times, and the memory holds 1024 records. */
  predicate MemorySuffices(nRows: nat, memoryLimit: nat, nv: nat, nm: nat) {
    nRows < MAX_NUM_OF_CHUNKS * NodesLimit(memoryLimit, nv, nm) && memoryLimit >= MAX_NUM_OF_CHUNKS * RecSize(nv, nm)
  }

  /** A view can be computed when the tree can be filled with the rows fewer than 1024 times and the memory holds 1024
      records. */
  lemma EnoughMemory(rows: seq<Row>, memoryLimit: nat, nv: nat, nm: nat)
    requires NodesLimit(memoryLimit, nv, nm) > 0 && RecSize(nv, nm) > 0
    requires MemorySuffices(|rows|, memoryLimit, nv, nm)
    ensures ViewFits(rows, memoryLimit, nv, nm)
  {
    hide NodesLimit, RecSize, Spill, SubChunkSize;
    var limit := NodesLimit(memoryLimit, nv, nm);
    var s := Spill(rows, limit);
    SpillFew(rows, limit);
    FewRuns(|s.full|, limit, |rows|);
    if s.full != [] { BufferSuffices(memoryLimit, |Segments(s)|, RecSize(nv, nm)); }
  }

  lemma SegmentsSome(rows: seq<Row>, limit: int)
    ensures Spill(rows, limit).full != [] ==> |Segments(Spill(rows, limit))| > 0
  {
  }

  lemma ShapedMeasured(rows: seq<Row>, nd: nat, nm: nat)
    requires AllShaped(rows, nd, nm)
    ensures Measured(rows, nm)
  {
    forall k | 0 <= k < |rows| ensures |rows[k].meas| == nm { assert Shaped(rows[k], nd, nm); }
  }

  lemma {:induction false} FullNonempty(rows: seq<Row>, limit: int)
    ensures Nonempty(Spill(rows, limit).full)
  {
    if rows != [] { FullNonempty(rows[..|rows| - 1], limit); }
  }

  lemma RunsSorted(rows: seq<Row>, limit: int, nd: nat, nm: nat)
    requires AllShaped(rows, nd, nm)
    ensures Parts(Runs(Segments(Spill(rows, limit))), nd, nm) && Nonempty(Runs(Segments(Spill(rows, limit))))
  {
    hide Aggregate;
    var segs := Segments(Spill(rows, limit));
    FullNonempty(rows, limit);
    SegmentsFlat(rows, limit);
    FlatShaped(segs, nd, nm);
    var runs := Runs(segs);
    forall j | 0 <= j < |runs| ensures AllShaped(runs[j], nd, nm) && SortedRows(runs[j]) && runs[j] != [] {
      AggregateIs(segs[j], nd, nm);
      AggregateEmpty(segs[j]);
    }
  }

  /** Spilling and merging makes no difference to the rows and totals. It makes none to the checksums exactly when for
      every measure the differences of the terms add up to zero, and with one measure exactly when all products of row
      numbers and measures are representable. */
  lemma RouteIrrelevant(rows: seq<Row>, nv: nat, nm: nat, w0: seq<int>, w: seq<int>, w': seq<int>, s: seq<int>,
      s': seq<int>, c: seq<int>, c': seq<int>, n: int, n': int, chunks: int)
    requires AllShaped(rows, nv, nm) && chunks > 0 && |rows| < TWO32
    requires Viewed(Aggregate(rows), w0, w, Zeros(nm), s, Zeros(nm), c, n, 0, nm)
    requires Viewed(Aggregate(rows), w0, w', Zeros(nm), s', Zeros(nm), c', n', chunks, nm)
    ensures w' == w && s' == s && n' == n && s == SumsAfter(Zeros(nm), rows)
    ensures c' == c <==> forall i :: 0 <= i < nm ==> NoExcess(Aggregate(rows), i, nm)
    ensures nm == 1 ==> (c' == c <==> Representable(Aggregate(rows)))
  {
    hide Aggregate, SumsAfter, TreeChecks, MergeChecks, EncodeAll, Representable, NoExcess;
    TotalsConserved(rows, nv, nm);
    AggregateSize(rows);
    MeasuresAgree(Zeros(nm), Aggregate(rows));
    if nm == 1 { ChecksumsAgree(Zeros(nm), Aggregate(rows)); }
  }
}
