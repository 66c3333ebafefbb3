/** What run formation leaves on disk. */
module RunFormationSteps {
  import opened CubeRows
  import opened RowFile
  import opened RedBlack
  import opened ExternalSortModel
  import opened ChunkCursors
  import opened Arith

  const MAX_NUM_OF_CHUNKS: int := 1024

  ghost predicate RunAt(c: Chunk, file: File, run: seq<Row>) {
    c.curChunkNum == |run| && c.chunkOffset >= 0 && c.chunkOffset % 4 == 0 &&
    Holds(file.words, c.chunkOffset / 4, run) &&
    c.chunkOffset / 4 + |EncodeAll(run)| <= file.pos
  }

  /** The runs stand in the chunk file, below the write position, where the chunk parameters say. */
  ghost predicate OnDisk(chunks: seq<Chunk>, file: File, runs: seq<seq<Row>>) {
    |runs| <= |chunks| && file.pos <= |file.words| && forall j :: 0 <= j < |runs| ==> RunAt(chunks[j], file, runs[j])
  }

  lemma OnDiskMore(chunks: seq<Chunk>, file: File, runs: seq<seq<Row>>, run: seq<Row>, c: Chunk)
    requires OnDisk(chunks, file, runs) && |runs| < |chunks| && c.curChunkNum == |run| && c.chunkOffset == 4 * file.pos
    ensures OnDisk(chunks[|runs| := c], Written(file, EncodeAll(run)), runs + [run])
  {
    hide EncodeAll, Written;
    var file' := Written(file, EncodeAll(run));
    var chunks', runs' := chunks[|runs| := c], runs + [run];
    forall j | 0 <= j < |runs'| ensures RunAt(chunks'[j], file', runs'[j]) {
      if j < |runs| {
        assert RunAt(chunks[j], file, runs[j]);
        HoldsBefore(file.words, file'.words, file.pos, chunks[j].chunkOffset / 4, runs[j]);
      } else {
        DivIs(c.chunkOffset, 4, file.pos, 0);
      }
    }
  }

  /** The chunks' byte counts fit 32 bits: a tree node is at least as large as a record. */
  lemma ChunkFits(memoryLimit: nat, nd: nat, nm: nat, count: nat)
    requires memoryLimit < TWO32 && count <= NodesLimit(memoryLimit, nd, nm)
    ensures count * RecSize(nd, nm) <= memoryLimit && (count * RecSize(nd, nm)) % TWO32 == count * RecSize(nd, nm)
  {
    var s, r := NodeSize(nd, nm), RecSize(nd, nm);
    assert s >= r;
    var q := NodesLimit(memoryLimit, nd, nm);
    hide NodeSize, RecSize, NodesLimit;
    assert q * s <= memoryLimit by { LimitTimesSize(memoryLimit, nd, nm); }
    ProductFits(count, q, r, s, memoryLimit);
    Below32(count * r);
  }

  lemma LimitTimesSize(memoryLimit: nat, nd: nat, nm: nat)
    ensures NodesLimit(memoryLimit, nd, nm) * NodeSize(nd, nm) <= memoryLimit
  {
    hide NodeSize;
    QuotientBound(memoryLimit, NodeSize(nd, nm), NodeSize(nd, nm));
  }

  lemma Below32(x: int)
    requires 0 <= x < TWO32
    ensures x % TWO32 == x
  {
  }

  lemma ProductFits(a: nat, b: nat, r: nat, s: nat, limit: nat)
    requires a <= b && r <= s && b * s <= limit
    ensures 0 <= a * r <= limit
  {
    assert a * r <= a * s <= b * s;
  }

  lemma RunsMore(full: seq<seq<Row>>, s: seq<Row>)
    ensures Runs(full + [s]) == Runs(full) + [Aggregate(s)]
  {
  }

  lemma AggregateMore(rest: seq<Row>, r: Row)
    ensures Aggregate(rest + [r]) == AddRow(Aggregate(rest), r)
  {
    assert (rest + [r])[..|rest|] == rest;
  }

  lemma AggregateEmpty(rows: seq<Row>)
    ensures |Aggregate(rows)| == 0 <==> rows == []
  {
  }
}
