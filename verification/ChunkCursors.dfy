/** The cursors of the multi-way merge: for every chunk, the records waiting in its part of the buffer and the records
    still in the chunk file. */
module ChunkCursors {
  import opened CubeRows
  import opened RowFile
  import opened ExternalSortModel
  import opened SeqEdit
  import opened Arith

  datatype Chunk = Chunk(curChunkNum: nat, chunkOffset: int, posSubChunk: nat, curSubChunk: nat)

  /** The file part of a chunk: `rows` stand at the chunk's offset. */
  ghost predicate InFile(c: Chunk, words: seq<int>, rows: seq<Row>) {
    c.curChunkNum == |rows| &&
    (rows != [] ==> c.chunkOffset >= 0 && c.chunkOffset % 4 == 0 && Holds(words, c.chunkOffset / 4, rows))
  }

  /** The chunk's records, in the buffer from `base` on and in the file, are exactly `rem`. */
  ghost predicate Cursor(c: Chunk, buf: seq<Row>, base: int, reg: int, words: seq<int>, rem: seq<Row>) {
    var at, n := base + c.posSubChunk, c.curSubChunk;
    0 <= base && c.posSubChunk + n <= reg && base + reg <= |buf| && n <= |rem| && buf[at..at + n] == rem[..n] &&
    InFile(c, words, rem[n..]) &&
    (n == 0 ==> rem == [])
  }

  ghost predicate Cursors(chunks: seq<Chunk>, buf: seq<Row>, reg: int, words: seq<int>, rem: seq<seq<Row>>) {
    |rem| <= |chunks| && forall j :: 0 <= j < |rem| ==> Cursor(chunks[j], buf, j * reg, reg, words, rem[j])
  }

  lemma Bases(i: int, j: int, reg: int)
    requires reg >= 0 && i < j
    ensures i * reg + reg <= j * reg
  {
    OneMore(i, reg);
    assert (i + 1) * reg <= j * reg;
  }

  /** A cursor only depends on its own part of the buffer. */
  lemma CursorFrame(c: Chunk, buf: seq<Row>, buf': seq<Row>, base: int, reg: int, words: seq<int>, rem: seq<Row>)
    requires Cursor(c, buf, base, reg, words, rem) && base + reg <= |buf'| &&
             buf'[base..base + reg] == buf[base..base + reg]
    ensures Cursor(c, buf', base, reg, words, rem)
  {
    hide InFile;
    var p, n := c.posSubChunk, c.curSubChunk;
    SubSlice(buf, base, base + reg, p, p + n);
    SubSlice(buf', base, base + reg, p, p + n);
  }

  /** Taking the first record of the buffer. */
  lemma TakeFirst(c: Chunk, buf: seq<Row>, base: int, reg: int, words: seq<int>, rem: seq<Row>)
    requires Cursor(c, buf, base, reg, words, rem) && rem != []
    ensures c.curSubChunk > 0 && 0 <= base && base + c.posSubChunk < |buf| && buf[base + c.posSubChunk] == rem[0]
    ensures var c' := c.(curSubChunk := c.curSubChunk - 1, posSubChunk := c.posSubChunk + 1);
      InFile(c', words, rem[1..][c'.curSubChunk..]) &&
      (c'.curSubChunk > 0 || rem[1..] == [] ==> Cursor(c', buf, base, reg, words, rem[1..]))
  {
    var at, n := base + c.posSubChunk, c.curSubChunk;
    assert buf[at] == buf[at..at + n][0] == rem[..n][0];
    assert buf[at + 1..at + n] == buf[at..at + n][1..] == rem[..n][1..] == rem[1..][..n - 1];
    assert rem[1..][n - 1..] == rem[n..];
  }

  /** After a refill the first n records of the file part are in the buffer. */
  lemma Refilled(c: Chunk, n: nat, c': Chunk, buf: seq<Row>, base: int, reg: int, words: seq<int>, rem: seq<Row>,
      nd: nat, nm: nat)
    requires InFile(c, words, rem) && AllShaped(rem, nd, nm) && 0 < n <= |rem| && 0 <= base && base + reg <= |buf|
    requires c'.posSubChunk + n <= reg && c'.curSubChunk == n && c'.curChunkNum == |rem| - n
    requires c'.curChunkNum > 0 ==> c'.chunkOffset == c.chunkOffset + n * RecSize(nd, nm)
    requires buf[base + c'.posSubChunk..base + c'.posSubChunk + n] == rem[..n]
    ensures Cursor(c', buf, base, reg, words, rem)
  {
    hide EncodeAll, RecWords, Holds;
    assert rem == rem[..n] + rem[n..];
    HoldsSplit(words, c.chunkOffset / 4, rem[..n], rem[n..]);
    EncodeAllLength(rem[..n], nd, nm);
    var w := RecWords(nd, nm);
    assert n * RecSize(nd, nm) == 4 * (n * w) by { Quadruple(n, w); }
    if rem[n..] != [] { DivIs(c'.chunkOffset, 4, c.chunkOffset / 4 + n * w, 0); }
  }

  /** All chunks are used up exactly when no record is left. */
  lemma {:induction false} FlatEmpty(rem: seq<seq<Row>>)
    ensures Flat(rem) == [] <==> forall j :: 0 <= j < |rem| ==> rem[j] == []
  {
    if rem != [] {
      var n := |rem| - 1;
      FlatEmpty(rem[..n]);
      assert forall j :: 0 <= j < n ==> rem[..n][j] == rem[j];
      if Flat(rem) == [] { assert rem[n] == [] && Flat(rem[..n]) == []; }
    }
  }

  lemma AdvanceLength(rem: seq<seq<Row>>, k: nat)
    requires k < |rem| && rem[k] != []
    ensures |Flat(Advance(rem, k))| == |Flat(rem)| - 1
  {
    AdvanceFlat(rem, k);
    assert |multiset(Flat(rem))| == |Flat(rem)| && |multiset(Flat(Advance(rem, k)))| == |Flat(Advance(rem, k))|;
  }
}
