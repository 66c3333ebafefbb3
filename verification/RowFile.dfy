/** Files of rows as the programs keep them: sequences of 32-bit words. A row is its measures, two words each, followed
    by its dimensions, one word each. */
module RowFile {
  import opened CubeRows
  import opened Arith
  import opened SeqEdit

  const TWO32: int := 0x1_0000_0000

  /** A file and the position, in words, at which it is read or written next. */
  datatype File = File(words: seq<int>, pos: nat)

  function RecWords(nd: nat, nm: nat): nat { 2 * nm + nd }

  /** The record size in bytes. */
  function RecSize(nd: nat, nm: nat): (s: nat)
    ensures s == 4 * RecWords(nd, nm)
  {
    4 * nd + 8 * nm
  }

  // A measure is an int64; its two halves are unsigned words.

  function LowWord(m: int): int { m % TWO32 }
  function HighWord(m: int): int { (m / TWO32) % TWO32 }
  function MeasureOf(low: int, high: int): int { Wrap64(low + high * TWO32) }

  lemma MeasureRoundTrip(m: int)
    requires -TWO63 <= m < TWO63
    ensures MeasureOf(LowWord(m), HighWord(m)) == m
  {
    var q := m / TWO32;
    assert m == LowWord(m) + q * TWO32;
    assert q == (q / TWO32) * TWO32 + HighWord(m);
    assert LowWord(m) + HighWord(m) * TWO32 - m == -(q / TWO32) * TWO64;
    ModSame(LowWord(m) + HighWord(m) * TWO32, m, TWO64);
    DivIs(LowWord(m) + HighWord(m) * TWO32 - m, TWO64, -(q / TWO32), 0);
    Wrap64Same(LowWord(m) + HighWord(m) * TWO32, m);
    Wrap64Id(m);
  }

  function MeasureWords(meas: seq<int>): (ws: seq<int>)
    ensures |ws| == 2 * |meas|
    ensures forall i :: 0 <= i < |meas| ==> ws[2 * i] == LowWord(meas[i]) && ws[2 * i + 1] == HighWord(meas[i])
  {
    if meas == [] then []
    else
      var n := |meas| - 1;
      MeasureWords(meas[..n]) + [LowWord(meas[n]), HighWord(meas[n])]
  }

  function Encode(r: Row): (ws: seq<int>)
    ensures |ws| == RecWords(|r.dims|, |r.meas|)
  {
    MeasureWords(r.meas) + r.dims
  }

  /** A record in words: the measures, low half first, and then the dimensions. */
  lemma EncodeIs(r: Row, i: nat, j: nat)
    requires i < |r.meas| && -TWO63 <= r.meas[i] < TWO63 && j < |r.dims|
    ensures var ws := Encode(r);
      0 <= ws[2 * i] < 0x1_0000_0000 && 0 <= ws[2 * i + 1] < 0x1_0000_0000 &&
      ws[2 * i] + 0x1_0000_0000 * ws[2 * i + 1] == (if r.meas[i] >= 0 then r.meas[i] else r.meas[i] + TWO64) &&
      ws[2 * |r.meas| + j] == r.dims[j]
  {
    var ws := Encode(r);
    assert ws[2 * i] == MeasureWords(r.meas)[2 * i] && ws[2 * i + 1] == MeasureWords(r.meas)[2 * i + 1];
    HalvesAre(r.meas[i]);
  }

  lemma HalvesAre(m: int)
    requires -TWO63 <= m < TWO63
    ensures 0 <= LowWord(m) < TWO32 && 0 <= HighWord(m) < TWO32 &&
            LowWord(m) + TWO32 * HighWord(m) == if m >= 0 then m else m + TWO64
  {
    var q := m / TWO32;
    assert m == LowWord(m) + TWO32 * q && -0x8000_0000 <= q < 0x8000_0000;
    if m >= 0 { DivIs(q, TWO32, 0, q); } else { DivIs(q, TWO32, -1, q + TWO32); }
  }

  function Decode(ws: seq<int>, nd: nat, nm: nat): Row
    requires |ws| == RecWords(nd, nm)
  {
    Row(ws[2 * nm..], seq(nm, i requires 0 <= i < nm => MeasureOf(ws[2 * i], ws[2 * i + 1])))
  }

  lemma RowRoundTrip(r: Row)
    requires Int64s(r.meas)
    ensures Decode(Encode(r), |r.dims|, |r.meas|) == r
  {
    hide LowWord, HighWord, MeasureOf;
    var nm := |r.meas|;
    var ws := Encode(r);
    assert ws[2 * nm..] == r.dims;
    forall i | 0 <= i < nm ensures MeasureOf(ws[2 * i], ws[2 * i + 1]) == r.meas[i] {
      assert ws[2 * i] == MeasureWords(r.meas)[2 * i] && ws[2 * i + 1] == MeasureWords(r.meas)[2 * i + 1];
      MeasureRoundTrip(r.meas[i]);
    }
    assert Decode(ws, |r.dims|, nm).meas == r.meas;
  }

  function EncodeAll(rows: seq<Row>): seq<int> {
    if rows == [] then [] else EncodeAll(rows[..|rows| - 1]) + Encode(rows[|rows| - 1])
  }

  lemma EncodeAllLast(rows: seq<Row>, r: Row)
    ensures EncodeAll(rows + [r]) == EncodeAll(rows) + Encode(r)
  {
    assert (rows + [r])[..|rows|] == rows;
  }

  lemma {:induction false} EncodeAllLength(rows: seq<Row>, nd: nat, nm: nat)
    requires AllShaped(rows, nd, nm)
    ensures |EncodeAll(rows)| == |rows| * RecWords(nd, nm)
  {
    if rows != [] {
      hide EncodeAll, Encode, RecWords;
      var n := |rows| - 1;
      EncodeAllLength(rows[..n], nd, nm);
      assert Shaped(rows[n], nd, nm);
      EncodeAllLast(rows[..n], rows[n]);
      assert rows[..n] + [rows[n]] == rows;
      OneMore(n, RecWords(nd, nm));
    }
  }

  lemma {:induction false} EncodeAllConcat(a: seq<Row>, b: seq<Row>)
    ensures EncodeAll(a + b) == EncodeAll(a) + EncodeAll(b)
  {
    if b == [] {
      assert a + b == a;
    } else {
      hide EncodeAll, Encode;
      var n := |b| - 1;
      var b', r := b[..n], b[n];
      assert b == b' + [r];
      EncodeAllConcat(a, b');
      EncodeAllLast(b', r);
      EncodeAllLast(a + b', r);
      Assoc(a, b', [r]);
      Assoc(EncodeAll(a), EncodeAll(b'), Encode(r));
    }
  }

  lemma EncodeOne(r: Row)
    ensures EncodeAll([r]) == Encode(r)
  {
    assert [r][..0] == [];
  }

  /** The rows stand in the file from word `at` on. */
  ghost predicate Holds(words: seq<int>, at: int, rows: seq<Row>) {
    0 <= at && at + |EncodeAll(rows)| <= |words| && words[at..at + |EncodeAll(rows)|] == EncodeAll(rows)
  }

  lemma HoldsSplit(words: seq<int>, at: int, a: seq<Row>, b: seq<Row>)
    requires Holds(words, at, a + b)
    ensures Holds(words, at, a) && Holds(words, at + |EncodeAll(a)|, b)
  {
    hide EncodeAll;
    EncodeAllConcat(a, b);
    SplitSlice(words, at, EncodeAll(a), EncodeAll(b));
  }

  /** The words of the k-th record are those of the k-th row. */
  lemma RecordWords(words: seq<int>, at: int, rows: seq<Row>, k: nat, nd: nat, nm: nat)
    requires Holds(words, at, rows) && AllShaped(rows, nd, nm) && k < |rows|
    ensures 0 <= at <= at + k * RecWords(nd, nm) && at + k * RecWords(nd, nm) + RecWords(nd, nm) <= |words|
    ensures words[at + k * RecWords(nd, nm)..at + k * RecWords(nd, nm) + RecWords(nd, nm)] == Encode(rows[k])
  {
    hide EncodeAll, Encode, RecWords;
    var a, b, c := rows[..k], [rows[k]], rows[k + 1..];
    assert rows == a + (b + c) && AllShaped(a, nd, nm);
    HoldsSplit(words, at, a, b + c);
    EncodeAllLength(a, nd, nm);
    HoldsSplit(words, at + k * RecWords(nd, nm), b, c);
    EncodeOne(rows[k]);
    assert Shaped(rows[k], nd, nm);
    OneMore(k, RecWords(nd, nm));
  }

  /** Reading the k-th record gives the k-th row. */
  lemma ReadBack(words: seq<int>, at: int, rows: seq<Row>, k: nat, nd: nat, nm: nat)
    requires Holds(words, at, rows) && AllShaped(rows, nd, nm) && k < |rows|
    ensures 0 <= at <= at + k * RecWords(nd, nm) && at + k * RecWords(nd, nm) + RecWords(nd, nm) <= |words|
    ensures Decode(words[at + k * RecWords(nd, nm)..at + k * RecWords(nd, nm) + RecWords(nd, nm)], nd, nm) == rows[k]
  {
    hide EncodeAll, Encode, Decode, RecWords;
    RecordWords(words, at, rows, k, nd, nm);
    assert Shaped(rows[k], nd, nm);
    RowRoundTrip(rows[k]);
  }

  // ---- Reading at any position --------------------------------------------------------------------

  /** The k-th record behind a position, whatever stands there; behind the end of the file there is none. */
  function RecordAt(words: seq<int>, at: int, k: int, nd: nat, nm: nat): Row {
    var b := at + k * RecWords(nd, nm);
    if 0 <= b && b + RecWords(nd, nm) <= |words| then Decode(words[b..b + RecWords(nd, nm)], nd, nm) else Row([], [])
  }

  /** Reading from the position on gives these rows. */
  ghost predicate Reads(words: seq<int>, at: int, rows: seq<Row>, nd: nat, nm: nat) {
    0 <= at && at + |rows| * RecWords(nd, nm) <= |words| &&
    forall k :: 0 <= k < |rows| ==> RecordAt(words, at, k, nd, nm) == rows[k]
  }

  ghost function RecordsAt(words: seq<int>, at: int, n: nat, nd: nat, nm: nat): (r: seq<Row>)
    ensures |r| == n && forall k :: 0 <= k < n ==> r[k] == RecordAt(words, at, k, nd, nm)
  {
    seq(n, k requires 0 <= k < n => RecordAt(words, at, k, nd, nm))
  }

  lemma RecordInside(words: seq<int>, at: int, k: nat, n: nat, nd: nat, nm: nat)
    requires 0 <= at && at + n * RecWords(nd, nm) <= |words| && k < n
    ensures 0 <= at + k * RecWords(nd, nm) && at + k * RecWords(nd, nm) + RecWords(nd, nm) <= |words|
  {
    OneMore(k, RecWords(nd, nm));
    assert (k + 1) * RecWords(nd, nm) <= n * RecWords(nd, nm);
  }

  lemma DecodeShaped(ws: seq<int>, nd: nat, nm: nat)
    requires |ws| == RecWords(nd, nm)
    ensures Shaped(Decode(ws, nd, nm), nd, nm)
  {
  }

  /** Whatever stands in the file, it reads as rows of the right shape. */
  lemma RecordsRead(words: seq<int>, at: int, n: nat, nd: nat, nm: nat)
    requires 0 <= at && at + n * RecWords(nd, nm) <= |words|
    ensures Reads(words, at, RecordsAt(words, at, n, nd, nm), nd, nm) &&
            AllShaped(RecordsAt(words, at, n, nd, nm), nd, nm)
  {
    hide Decode, RecWords;
    forall k | 0 <= k < n ensures Shaped(RecordsAt(words, at, n, nd, nm)[k], nd, nm) {
      RecordInside(words, at, k, n, nd, nm);
      var b := at + k * RecWords(nd, nm);
      DecodeShaped(words[b..b + RecWords(nd, nm)], nd, nm);
    }
  }

  /** Where rows were written, they are read. */
  lemma HoldsReads(words: seq<int>, at: int, rows: seq<Row>, nd: nat, nm: nat)
    requires Holds(words, at, rows) && AllShaped(rows, nd, nm)
    ensures Reads(words, at, rows, nd, nm) && RecordsAt(words, at, |rows|, nd, nm) == rows
  {
    hide Decode, RecWords, EncodeAll;
    EncodeAllLength(rows, nd, nm);
    forall k | 0 <= k < |rows|
      ensures RecordAt(words, at, k, nd, nm) == rows[k]
    {
      ReadBack(words, at, rows, k, nd, nm);
    }
  }

  /** Writing at the file's position overwrites what is there and may extend the file. */
  function Written(f: File, ws: seq<int>): (r: File)
    requires f.pos <= |f.words|
    ensures r.pos == f.pos + |ws| <= |r.words| && |r.words| >= |f.words|
    ensures r.words[..f.pos] == f.words[..f.pos] && r.words[f.pos..r.pos] == ws
    ensures f.pos == |f.words| ==> r.words == f.words + ws
  {
    File(f.words[..f.pos] + ws + (if f.pos + |ws| < |f.words| then f.words[f.pos + |ws|..] else []), f.pos + |ws|)
  }

  lemma WrittenTwice(f: File, a: seq<int>, b: seq<int>)
    requires f.pos <= |f.words|
    ensures Written(Written(f, a), b) == Written(f, a + b)
  {
    var g := Written(f, a);
    var x, y := Written(g, b).words, Written(f, a + b).words;
    assert |x| == |y|;
    assert g.words[..g.pos] == f.words[..f.pos] + a;
    assert x == y;
  }

  lemma HoldsBefore(words: seq<int>, words': seq<int>, n: int, at: int, rows: seq<Row>)
    requires Holds(words, at, rows) && at + |EncodeAll(rows)| <= n <= |words| && n <= |words'| &&
             words'[..n] == words[..n]
    ensures Holds(words', at, rows)
  {
    var m := at + |EncodeAll(rows)|;
    assert words'[at..m] == words'[..n][at..m] == words[..n][at..m] == words[at..m];
  }
}
