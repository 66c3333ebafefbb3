/** One task's part of the cube: every group-by tuple of its list is turned into a view, computed from the input or from
    an earlier view that has all the dimensions needed. */
module CubeTask {
  import opened CubeRows
  import opened CubeGroups
  import opened CubeChecksum
  import opened RowFile
  import opened Tuples
  import opened ParentKinds
  import opened Layers
  import opened Binomials
  import opened CubePool
  import opened ViewLog
  import opened RedBlack
  import opened RunFormationSteps
  import opened ViewControl
  import opened Arith

  /** The best entry seen so far in a layer: the one with the fewest rows, the first of equals. */
  datatype Candidate = Nobody | Entry(ig: nat)

  /** Where the rows of a view come from: the input, or a view made before. */
  datatype Origin = FromInput | FromView(parent: ViewEntry)

  /** The input is read when no view made so far has all the dimensions. */
  ghost predicate OriginOf(o: Origin, t: Tuple, made: seq<ViewEntry>) {
    match o
    case FromInput => NoSuperset(made, t)
    case FromView(e) => e in made && Subset(t, e.t)
  }

  ghost predicate NoSuperset(made: seq<ViewEntry>, t: Tuple) {
    forall u {:trigger Subset(t, u)} :: Made(made, u) ==> !Subset(t, u)
  }

  /** The rows that are aggregated: the selected columns of the input, or of what is read at the place recorded for the
      parent's view. */
  ghost function RowsRead(o: Origin, t: Tuple, rows: seq<Row>, words: seq<int>, nm: nat): (r: seq<Row>)
    requires AllShaped(rows, |t|, nm) && (o.FromView? ==> Subset(t, o.parent.t) && Placed(o.parent, words, nm))
    ensures |r| == if o.FromView? then |o.parent.view| else |rows|
    ensures AllShaped(r, Count(t), nm)
  {
    match o
    case FromInput =>
      SelectedColumns(t);
      Project(rows, Selected(t), |t|, nm)
    case FromView(e) =>
      FromParentPicks(t, e.t);
      EncodeAllLength(e.view, Count(e.t), nm);
      RecordsRead(words, e.offset / 4, |e.view|, Count(e.t), nm);
      Project(RecordsAt(words, e.offset / 4, |e.view|, Count(e.t), nm), FromParent(t, e.t), Count(e.t), nm)
  }

  /** The candidate is the smallest suitable entry among the first n of the layer that starts at `from`. */
  ghost predicate Best(c: Candidate, kind: ParentKind, groupby: bv32, jpp: seq<Job>, from: nat, n: nat) {
    from + n <= |jpp| &&
    match c
    case Nobody => forall i :: from <= i < from + n ==> !Suits(kind, groupby, jpp[i].grpb)
    case Entry(ig) =>
      from <= ig < from + n && Suits(kind, groupby, jpp[ig].grpb) &&
      forall i :: from <= i < from + n && Suits(kind, groupby, jpp[i].grpb) ==> jpp[ig].nRows <= jpp[i].nRows
  }

  function Offer(c: Candidate, kind: ParentKind, groupby: bv32, jpp: seq<Job>, ig: nat): Candidate
    requires ig < |jpp| && (c.Entry? ==> c.ig < |jpp|)
  {
    if Suits(kind, groupby, jpp[ig].grpb) && (c.Nobody? || jpp[c.ig].nRows > jpp[ig].nRows) then Entry(ig) else c
  }

  lemma OfferBest(c: Candidate, kind: ParentKind, groupby: bv32, jpp: seq<Job>, from: nat, n: nat)
    requires Best(c, kind, groupby, jpp, from, n) && from + n < |jpp|
    ensures Best(Offer(c, kind, groupby, jpp, from + n), kind, groupby, jpp, from, n + 1)
  {
    hide Suits;
  }

  class Task {
    const avp: AdcView
    const nTopDims: nat
    const nInputRecs: nat
    const inpf: File
    var jpp: seq<Job>
    var lpp: seq<Layer>
    var groupby: bv32
    var accViewFileOffset: int
    var smallestParentLevel: nat
    var viewOffset: int
    var nParentViewRows: nat
    var parBinRepTuple: bv32
    var totchs: seq<int>
    ghost const rows: seq<Row>
    ghost var made: seq<ViewEntry>

    /** The job pool records the views made so far. */
    ghost predicate PoolRight()
      reads this, avp
    {
      avp.Ready() && nTopDims <= 28 && |rows| == nInputRecs && AllShaped(rows, nTopDims, avp.nm) &&
      Holds(inpf.words, 0, rows) && inpf.pos == 0 &&
      PoolOk(jpp, lpp, made, avp.viewFile.words, nTopDims, avp.nm) && |totchs| == avp.nm
    }

    /** The view file is what was written, and the offset kept is the one accumulated. */
    ghost predicate LogRight()
      reads this, avp`viewFile
    {
      avp.viewFile.words == FileOf(made) && accViewFileOffset == Recorded(made) && Logged(made, avp.nm)
    }

    ghost predicate Valid()
      reads this, avp
    {
      PoolRight() && LogRight()
    }

    /** NewAdcViewCntl: empty files, an empty pool with 2^nTopDims entries, and the layer table. */
    constructor (nTopDims: nat, nm: nat, memoryLimit: nat, inpf: File, ghost rows: seq<Row>, nInputRecs: nat)
      requires nTopDims <= 28 && memoryLimit < TWO32 && |rows| == nInputRecs && AllShaped(rows, nTopDims, nm) &&
               Holds(inpf.words, 0, rows) && inpf.pos == 0
      ensures Valid() && made == [] && this.rows == rows && this.nTopDims == nTopDims && avp.nm == nm &&
              avp.memoryLimit == memoryLimit && avp.viewFile.words == []
      ensures fresh(avp) && fresh(avp.tree) && fresh(avp.tree.nodes) && fresh(avp.tree.drcts)
    {
      avp := new AdcView(nTopDims, nm, memoryLimit);
      this.nTopDims, this.nInputRecs, this.inpf, this.rows := nTopDims, nInputRecs, inpf, rows;
      groupby, accViewFileOffset, smallestParentLevel, viewOffset, nParentViewRows, parBinRepTuple := 0, 0, 0, 0, 0, 0;
      jpp := seq(Pow2(nTopDims), _ => Job(0, 0, 0, 0));
      var layers := SetUpLayers(nTopDims);
      lpp := layers;
      totchs := Zeros(nm);
      made := [];
      new;
      PoolStarts(jpp, lpp, nTopDims, nm);
    }

    /** Looks through one layer for the smallest entry of each kind. */
    method ScanLayer(from: nat, levelPop: nat) returns (sp: Candidate, pf: Candidate, ss: Candidate)
      requires from + levelPop <= |jpp|
      ensures Best(sp, SmallestParent, groupby, jpp, from, levelPop) &&
              Best(pf, PrefixedParent, groupby, jpp, from, levelPop)
      ensures Best(ss, SharedSortParent, groupby, jpp, from, levelPop)
    {
      hide Suits;
      sp, pf, ss := Nobody, Nobody, Nobody;
      for i := 0 to levelPop
        invariant Best(sp, SmallestParent, groupby, jpp, from, i) && Best(pf, PrefixedParent, groupby, jpp, from, i)
        invariant Best(ss, SharedSortParent, groupby, jpp, from, i)
      {
        OfferBest(sp, SmallestParent, groupby, jpp, from, i);
        OfferBest(pf, PrefixedParent, groupby, jpp, from, i);
        OfferBest(ss, SharedSortParent, groupby, jpp, from, i);
        sp := Offer(sp, SmallestParent, groupby, jpp, from + i);
        pf := Offer(pf, PrefixedParent, groupby, jpp, from + i);
        ss := Offer(ss, SharedSortParent, groupby, jpp, from + i);
      }
    }

    /** In one layer a prefixed parent is preferred to one that shares the sort order, and that to any other; among
        those the one with the fewest rows is taken. */
    method ChooseInLayer(from: nat, levelPop: nat) returns (found: ParentKind, ig: nat)
      requires from + levelPop <= |jpp|
      ensures found == NoneParent ==> Best(Nobody, SmallestParent, groupby, jpp, from, levelPop)
      ensures found != NoneParent ==>
                from <= ig < from + levelPop && Super(groupby, jpp[ig].grpb) &&
                Best(Entry(ig), found, groupby, jpp, from, levelPop)
      ensures found == SharedSortParent ==> Best(Nobody, PrefixedParent, groupby, jpp, from, levelPop)
      ensures found == SmallestParent ==>
                Best(Nobody, PrefixedParent, groupby, jpp, from, levelPop) &&
                Best(Nobody, SharedSortParent, groupby, jpp, from, levelPop)
    {
      hide Best, Super;
      var sp, pf, ss := ScanLayer(from, levelPop);
      Kinds(sp, pf, ss, groupby, jpp, from, levelPop);
      found, ig := NoneParent, 0;
      if pf.Entry? { found, ig := PrefixedParent, pf.ig; }
      else if ss.Entry? { found, ig := SharedSortParent, ss.ig; }
      else if sp.Entry? { found, ig := SmallestParent, sp.ig; }
    }

    /** GetParent: the lowest layer that has a superset of the group-by supplies the parent. */
    method GetParent(ghost t: Tuple) returns (found: ParentKind, ghost parent: ViewEntry)
      requires Valid() && |t| == nTopDims && Tuple32(groupby, nTopDims) == t && Count(t) > 0
      requires Count(Tuple64(Wide(groupby), 64)) == Count(t) && forall i :: nTopDims <= i < 32 ==> !Bit32(groupby, i)
      modifies this`smallestParentLevel, this`viewOffset, this`nParentViewRows, this`parBinRepTuple
      ensures Valid()
      ensures found == NoneParent <==> NoSuperset(made, t)
      ensures found != NoneParent ==>
                NoneBelow(made, t, smallestParentLevel) && parent in made && Subset(t, parent.t)
      ensures found != NoneParent ==>
                ParentJob(parBinRepTuple, smallestParentLevel, nParentViewRows, viewOffset, parent, avp.viewFile.words,
                    nTopDims, avp.nm)
      ensures found != NoneParent ==>
                Preferred(found, made, t, smallestParentLevel, parent)
    {
      hide Best, Suits, Super, Kin, Preferred, PoolOk, JobOf, Holds, Level, Count, NoneBelow, NoSuperset, ParentJob,
           Subset, 
           Made, Start, AllShaped, Tuple32, Tuple64, Bit32, Logged, Recorded, FileOf;
      var level := NumberOfOnes(Wide(groupby));
      parent := ViewEntry([], 0, []);
      SupersetsHigher(made, t);
      while level <= nTopDims
        invariant Count(t) <= level <= nTopDims + 1 && NoneBelow(made, t, level)
        decreases nTopDims + 1 - level
      {
        PoolLayer(jpp, lpp, made, avp.viewFile.words, nTopDims, avp.nm, level);
        var ig;
        found, ig := ChooseInLayer(lpp[level].layerIndex, lpp[level].layerCurrentPopulation);
        if found != NoneParent {
          smallestParentLevel := level;
          viewOffset, nParentViewRows, parBinRepTuple := jpp[ig].viewOffset, jpp[ig].nRows, jpp[ig].grpb;
          parent := Chosen(jpp, lpp, made, avp.viewFile.words, nTopDims, avp.nm, level, ig, groupby, t);
          PreferredIs(jpp, lpp, made, avp.viewFile.words, nTopDims, avp.nm, level, found, groupby, t, ig, parent);
          SomeSuperset(made, t, parent);
          return;
        }
        NoneHere(jpp, lpp, made, avp.viewFile.words, nTopDims, avp.nm, level, groupby, t);
        level := level + 1;
      }
      found := NoneParent;
      NoneAtAll(made, t);
    }

    /** InitAdcViewCntl: the rows to read are those of the parent view, or those of the input. */
    method InitAdcViewCntl(nSelectedDims: nat, selection: seq<int>, fromParent: bool)
      requires fromParent ==> viewOffset >= 0
      modifies avp`nv, avp`mSums, avp`selection, avp`numberOfChunks, avp`nViewRows, avp`nd, avp`viewFile,
               avp`nRowsToRead
      ensures avp.nv == nSelectedDims && avp.selection == selection && avp.numberOfChunks == 0 && avp.nViewRows == 0 &&
              avp.mSums == Zeros(avp.nm)
      ensures avp.viewFile.words == old(avp.viewFile).words
      ensures fromParent ==>
                avp.nd == smallestParentLevel && avp.nRowsToRead == nParentViewRows &&
                avp.viewFile.pos == viewOffset / 4
      ensures !fromParent ==> avp.nd == nTopDims && avp.nRowsToRead == nInputRecs
    {
      avp.nv := nSelectedDims;
      avp.mSums := Zeros(avp.nm);
      avp.selection := selection;
      avp.numberOfChunks := 0;
      avp.nViewRows := 0;
      if fromParent {
        avp.nd := smallestParentLevel;
        avp.viewFile := avp.viewFile.(pos := viewOffset / 4);
        avp.nRowsToRead := nParentViewRows;
      } else {
        avp.nd := nTopDims;
        avp.nRowsToRead := nInputRecs;
      }
    }

    /** JobPoolUpdate: enters the view just made into the next slot of its layer. */
    method JobPoolUpdate(ghost e: ViewEntry, ghost words: seq<int>)
      requires PoolOk(jpp, lpp, made, words, nTopDims, avp.nm) && |e.t| == nTopDims && Count(e.t) == avp.nv > 0 &&
               !Made(made, e.t) && Tuple32(groupby, nTopDims) == e.t
      requires e.offset == accViewFileOffset && |e.view| == avp.nViewRows
      requires avp.viewFile.words == words + EncodeAll(e.view) && Placed(e, avp.viewFile.words, avp.nm)
      modifies this`jpp, this`lpp, this`made
      ensures made == old(made) + [e] && PoolOk(jpp, lpp, made, avp.viewFile.words, nTopDims, avp.nm)
    {
      hide PoolOk, EncodeAll, Count, Made, Tuple32, Placed;
      PoolNext(jpp, lpp, made, words, nTopDims, avp.nm, e, groupby, EncodeAll(e.view));
      var l := avp.nv;
      assert |lpp| == nTopDims + 1 by { PoolLayer(jpp, lpp, made, words, nTopDims, avp.nm, l); }
      var k := lpp[l].layerIndex + lpp[l].layerCurrentPopulation;
      jpp := jpp[k := Job(groupby, l, avp.nViewRows, accViewFileOffset)];
      lpp := lpp[l := lpp[l].(layerCurrentPopulation := lpp[l].layerCurrentPopulation + 1)];
      made := made + [e];
    }

    /** Finds the parent of a group-by, sets the view up and computes it from the parent's rows. It succeeds exactly
        when the rows read fit, and leaves the view file alone when they do not. */
    method ComputeOne(binRepTuple: bv64, ghost t: Tuple) returns (code: ReturnCode, ghost origin: Origin)
      requires Valid() && t == Tuple64(binRepTuple, nTopDims) && Count(t) > 0
      requires avp.memoryLimit >= NodeSize(nTopDims, avp.nm)
      modifies this`groupby, this`smallestParentLevel, this`viewOffset, this`nParentViewRows, this`parBinRepTuple, avp,
               avp.tree, avp.tree.nodes, avp.tree.drcts
      ensures |avp.chunksParams| == MAX_NUM_OF_CHUNKS && Tuple32(groupby, nTopDims) == t && avp.nv == Count(t)
      ensures OriginOf(origin, t, made) && Readable(origin, t, rows, old(avp.viewFile).words, nTopDims, avp.nm)
      ensures code == ADC_OK <==>
              ViewFits(RowsRead(origin, t, rows, old(avp.viewFile).words, avp.nm), avp.memoryLimit, Count(t), avp.nm)
      ensures code != ADC_OK ==> avp.viewFile.words == old(avp.viewFile).words
      ensures code == ADC_OK ==>
        Viewed(Aggregate(RowsRead(origin, t, rows, old(avp.viewFile).words, avp.nm)), old(avp.viewFile).words,
            avp.viewFile.words, Zeros(avp.nm), avp.mSums, Zeros(avp.nm), avp.checksums, avp.nViewRows,
            avp.numberOfChunks, avp.nm)
    {
      hide PoolOk, EncodeAll, View, Count, Made, AllShaped, Tuple32, Tuple64, Bit32, Bit64, Groupby, Holds, NodesLimit,
           NodeSize, Viewed, Project, Selected, FromParent, Aggregate, Columns, ViewFits, RecSize, JobOf, NoneBelow,
           Subset, Preferred, ParentJob, Logged, Recorded, FileOf, Placed, RowsRead, Readable, NoSuperset, Reads;
      avp.checksums := Zeros(avp.nm);
      ghost var words := avp.viewFile.words;
      var selection, nSelectedDims := GetRegTupleFromBin64(binRepTuple, nTopDims);
      groupby := Groupby(binRepTuple, nTopDims);
      GroupbyFacts(binRepTuple, nTopDims);
      var smp, parent := GetParent(t);
      ghost var inp := rows;
      if smp != NoneParent {
        selection := GetRegTupleFromParent(binRepTuple, parBinRepTuple, nTopDims);
        origin := FromView(parent);
        inp := FromParentRows(t, parent, parBinRepTuple, smallestParentLevel, nParentViewRows, viewOffset, words, rows,
            nTopDims, avp.nm);
      } else {
        origin := FromInput;
        FromInputRows(t, rows, words, inpf.words, nTopDims, avp.nm);
      }
      InitAdcViewCntl(nSelectedDims, selection, smp != NoneParent);
      ViewNeeds(avp.memoryLimit, nTopDims, nSelectedDims, avp.nm);
      if smp != NoneParent {
        code := avp.ComputeView(avp.viewFile, inp);
      } else {
        code := avp.ComputeView(inpf, inp);
      }
    }

    /** One pass of the loop over the group-bys: one more view, the aggregate of the rows read. It succeeds exactly when
        these rows fit, and surely when they are fewer than the tree's nodes. */
    method ComputeGroupby(binRepTuple: bv64, ghost t: Tuple) returns (code: ReturnCode, ghost origin: Origin)
      requires Valid() && t == Tuple64(binRepTuple, nTopDims) && Count(t) > 0 && !Made(made, t)
      requires avp.memoryLimit >= NodeSize(nTopDims, avp.nm)
      modifies this, avp, avp.tree, avp.tree.nodes, avp.tree.drcts
      ensures OriginOf(origin, t, old(made)) &&
              Readable(origin, t, rows, old(avp.viewFile).words, nTopDims, avp.nm)
      ensures code == ADC_OK <==>
              ViewFits(RowsRead(origin, t, rows, old(avp.viewFile).words, avp.nm), avp.memoryLimit, Count(t), avp.nm)
      ensures PoolOk(jpp, lpp, made, avp.viewFile.words, nTopDims, avp.nm) && avp.viewFile.words == FileOf(made) &&
              Logged(made, avp.nm)
      ensures code != ADC_OK ==> made == old(made)
      ensures code == ADC_OK ==>
        Valid() && made == old(made) +
          [ViewEntry(t, old(accViewFileOffset), Aggregate(RowsRead(origin, t, rows, old(avp.viewFile).words, avp.nm)))]
      ensures code == ADC_OK ==> |old(totchs)| == |avp.checksums| && totchs == AddMeasures(old(totchs), avp.checksums)
      ensures code == ADC_OK ==>
        Viewed(Aggregate(RowsRead(origin, t, rows, old(avp.viewFile).words, avp.nm)), old(avp.viewFile).words,
            avp.viewFile.words, Zeros(avp.nm), avp.mSums, Zeros(avp.nm), avp.checksums, avp.nViewRows,
            avp.numberOfChunks, avp.nm)
    {
      hide PoolOk, EncodeAll, View, Count, Made, AllShaped, Tuple32, Tuple64, Holds, NodeSize, NodesLimit, RecSize,
           Viewed, ViewFits, Aggregate, RowsRead, OriginOf, Logged, Recorded, FileOf, Placed;
      ghost var words := avp.viewFile.words;
      code, origin := ComputeOne(binRepTuple, t);
      if code == ADC_OK {
        ghost var view := Aggregate(RowsRead(origin, t, rows, words, avp.nm));
        ghost var e := ViewEntry(t, accViewFileOffset, view);
        ViewedWords(view, words, avp.viewFile.words, Zeros(avp.nm), avp.mSums, Zeros(avp.nm), avp.checksums,
            avp.nViewRows, avp.numberOfChunks, avp.nm);
        NextEntry(made, e, origin, rows, words, nTopDims, avp.nm);
        RowsBytes(view, avp.nv, avp.nm);
        JobPoolUpdate(e, words);
        accViewFileOffset := accViewFileOffset + (avp.nViewRows * RecSize(avp.nv, avp.nm)) % TWO32;
        avp.fileOfChunks := avp.fileOfChunks.(pos := 0);
        totchs := SumMeasures(totchs, avp.checksums);
      }
    }

    /** ComputeGivenGroupbys: one view per tuple of the list, in the order of the list, and the pool records each. The
        first view whose rows do not fit ends the run; the views before it stand in the file. The offset recorded for a
        view is the place where it begins exactly when all views before it have less than 2^32 bytes; a view is the
        group-by of the original input onto its dimensions, whatever views it was computed from, if all views before the
        last one before it are that small. */
    method ComputeGivenGroupbys(groupbys: seq<bv64>, ghost ts: seq<Tuple>)
      returns (code: ReturnCode, ghost origins: seq<Origin>)
      requires Valid() && made == [] && |ts| == |groupbys| && Proper(ts, nTopDims)
      requires forall k :: 0 <= k < |ts| ==> ts[k] == Tuple64(groupbys[k], nTopDims)
      requires avp.memoryLimit >= NodeSize(nTopDims, avp.nm)
      modifies this, avp, avp.tree, avp.tree.nodes, avp.tree.drcts
      ensures PoolOk(jpp, lpp, made, avp.viewFile.words, nTopDims, avp.nm) && avp.viewFile.words == FileOf(made) &&
              Logged(made, avp.nm)
      ensures |made| <= |ts| && TuplesMade(made) == ts[..|made|] && (code == ADC_OK <==> |made| == |ts|)
      ensures |origins| == if code == ADC_OK then |made| else |made| + 1
      ensures forall k :: 0 <= k < |made| ==> MadeFrom(made, k, origins[k], rows, avp.memoryLimit, nTopDims, avp.nm)
      ensures code != ADC_OK ==>
        FailsFrom(made, ts[|made|], origins[|made|], rows, avp.memoryLimit, nTopDims, avp.nm)
      ensures forall k :: 0 <= k < |made| && AllBelow(ts, k - 1, rows, nTopDims, avp.nm) ==>
        Right(made[k], rows, avp.nm)
      ensures forall k :: 0 <= k < |made| ==>
        (made[k].offset == 4 * |FileOf(made[..k])| <==> AllBelow(ts, k, rows, nTopDims, avp.nm))
      ensures AllBelow(ts, |ts| - 2, rows, nTopDims, avp.nm) ==>
        avp.viewFile.words == AllViews(ts[..|made|], rows, nTopDims, avp.nm)
      ensures nInputRecs < NodesLimit(avp.memoryLimit, nTopDims, avp.nm) ==> code == ADC_OK
      ensures MemorySuffices(nInputRecs, avp.memoryLimit, nTopDims, avp.nm) ==> code == ADC_OK
    {
      hide PoolOk, EncodeAll, View, Count, AllShaped, Tuple32, Tuple64, Holds, NodeSize, RecSize, AllViews, Viewed,
           NodesLimit, ViewFits, RowsRead, Readable, OriginOf, Made, MadeFrom, FailsFrom, Logged, Recorded, FileOf,
           Right, RightWhileSmall, Small, AllBelow, NoLarger, Aggregate, MemorySuffices;
      code, origins := ADC_OK, [];
      var k := 0;
      NothingMade(made, rows, avp.nm);
      while k < |groupbys|
        invariant 0 <= k <= |ts| && code == ADC_OK && Valid() && |made| == |origins| == k && TuplesMade(made) == ts[..k]
        invariant RightWhileSmall(made, rows, avp.nm) && NoLarger(made, |rows|)
        invariant forall i ::
                    0 <= i < k ==> MadeFrom(made, i, origins[i], rows, avp.memoryLimit, nTopDims, avp.nm)
      {
        NotYet(ts, k, made, nTopDims);
        ghost var was, words := made, avp.viewFile.words;
        ghost var origin;
        code, origin := ComputeGroupby(groupbys[k], ts[k]);
        FewRows(was, ts[k], origin, rows, words, avp.memoryLimit, nTopDims, avp.nm);
        origins := origins + [origin];
        if code != ADC_OK {
          Failed(made, ts[k], origin, rows, words, avp.memoryLimit, nTopDims, avp.nm);
          Listed(made, ts, rows, nTopDims, avp.nm);
          return;
        }
        PassDone(was, made, origins, ts, rows, words, avp.memoryLimit, nTopDims, avp.nm);
        k := k + 1;
      }
      assert ts[..k] == ts;
      Listed(made, ts, rows, nTopDims, avp.nm);
    }
  }

  // ---- One pass ----------------------------------------------------------------------------------------------

  /** The rows can be read: the input has the right shape, and the parent's place is in the file. */
  ghost predicate Readable(o: Origin, t: Tuple, rows: seq<Row>, words: seq<int>, nd: nat, nm: nat) {
    |t| == nd && AllShaped(rows, nd, nm) && (o.FromView? ==> Subset(t, o.parent.t) && Placed(o.parent, words, nm))
  }

  /** View k was computed from its origin, in the file as it was then. */
  ghost predicate MadeFrom(made: seq<ViewEntry>, k: nat, o: Origin, rows: seq<Row>, memoryLimit: nat, nd: nat, nm: nat)
  {
    k < |made| && OriginOf(o, made[k].t, made[..k]) && Readable(o, made[k].t, rows, FileOf(made[..k]), nd, nm) &&
    var read := RowsRead(o, made[k].t, rows, FileOf(made[..k]), nm);
    made[k].view == Aggregate(read) && ViewFits(read, memoryLimit, Count(made[k].t), nm)
  }

  /** The rows read for the next view do not fit into memory. */
  ghost predicate FailsFrom(made: seq<ViewEntry>, t: Tuple, o: Origin, rows: seq<Row>, memoryLimit: nat, nd: nat,
      nm: nat)
  {
    OriginOf(o, t, made) && Readable(o, t, rows, FileOf(made), nd, nm) &&
    !ViewFits(RowsRead(o, t, rows, FileOf(made), nm), memoryLimit, Count(t), nm)
  }

  ghost predicate NoLarger(made: seq<ViewEntry>, n: nat) {
    forall k :: 0 <= k < |made| ==> |made[k].view| <= n
  }

  lemma NothingMade(made: seq<ViewEntry>, rows: seq<Row>, nm: nat)
    requires made == []
    ensures RightWhileSmall(made, rows, nm) && NoLarger(made, |rows|)
  {
  }

  /** The entry of the view just made. */
  lemma NextEntry(made: seq<ViewEntry>, e: ViewEntry, o: Origin, rows: seq<Row>, words: seq<int>, nd: nat, nm: nat)
    requires Readable(o, e.t, rows, words, nd, nm) && e.view == Aggregate(RowsRead(o, e.t, rows, words, nm))
    requires Logged(made, nm) && words == FileOf(made) && e.offset == Recorded(made)
    ensures Placed(e, words + EncodeAll(e.view), nm) && Logged(made + [e], nm)
    ensures FileOf(made + [e]) == words + EncodeAll(e.view)
    ensures Recorded(made + [e]) == e.offset + Bytes(e) % TWO32 && AllShaped(e.view, Count(e.t), nm)
  {
    hide Aggregate, RowsRead, EncodeAll, FileOf, Recorded, Logged, Count, Placed;
    AggregateShaped(RowsRead(o, e.t, rows, words, nm), Count(e.t), nm);
    FileNext(made, e);
    LoggedNext(made, e, nm);
    NextPlaced(made, e, nm);
  }

  /** Fewer rows than tree nodes always fit, and so do more rows when there is memory for merging them. */
  lemma FewRows(made: seq<ViewEntry>, t: Tuple, o: Origin, rows: seq<Row>, words: seq<int>, memoryLimit: nat, nd: nat,
      nm: nat)
    requires OriginOf(o, t, made) && Readable(o, t, rows, words, nd, nm) && NoLarger(made, |rows|)
    requires Count(t) > 0 && memoryLimit >= NodeSize(nd, nm)
    ensures |Aggregate(RowsRead(o, t, rows, words, nm))| <= |rows|
    ensures |rows| < NodesLimit(memoryLimit, nd, nm) ==>
              ViewFits(RowsRead(o, t, rows, words, nm), memoryLimit, Count(t), nm)
    ensures MemorySuffices(|rows|, memoryLimit, nd, nm) ==>
              ViewFits(RowsRead(o, t, rows, words, nm), memoryLimit, Count(t), nm)
  {
    hide NodesLimit, Count, NodeSize, RecSize, ViewFits, Aggregate, Subset, Placed, NoSuperset, AllShaped,
         MemorySuffices;
    var read := RowsRead(o, t, rows, words, nm);
    AggregateSize(read);
    ViewNeeds(memoryLimit, nd, Count(t), nm);
    LimitFalls(memoryLimit, Count(t), nd, nm);
    if |rows| < NodesLimit(memoryLimit, nd, nm) { FewGroupsFit(read, memoryLimit, Count(t), nm); }
    if MemorySuffices(|rows|, memoryLimit, nd, nm) {
      SufficesBelow(|rows|, |read|, memoryLimit, Count(t), nd, nm);
      EnoughMemory(read, memoryLimit, Count(t), nm);
    }
  }

  lemma SufficesBelow(n: nat, m: nat, memoryLimit: nat, nv: nat, nd: nat, nm: nat)
    requires m <= n && nv <= nd
    ensures MemorySuffices(n, memoryLimit, nd, nm) ==> MemorySuffices(m, memoryLimit, nv, nm)
  {
    hide NodesLimit;
    LimitFalls(memoryLimit, nv, nd, nm);
  }

  lemma Failed(made: seq<ViewEntry>, t: Tuple, o: Origin, rows: seq<Row>, words: seq<int>, memoryLimit: nat, nd: nat,
      nm: nat)
    requires OriginOf(o, t, made) && Readable(o, t, rows, words, nd, nm) && words == FileOf(made) &&
             !ViewFits(RowsRead(o, t, rows, words, nm), memoryLimit, Count(t), nm)
    ensures FailsFrom(made, t, o, rows, memoryLimit, nd, nm)
  {
  }

  /** Read from a parent that is right and stands where it was recorded, the view is the one computed from the input. */
  lemma ReadRight(made: seq<ViewEntry>, t: Tuple, o: Origin, rows: seq<Row>, nd: nat, nm: nat)
    requires OriginOf(o, t, made) && Readable(o, t, rows, FileOf(made), nd, nm)
    requires Logged(made, nm) && RightWhileSmall(made, rows, nm) && Small(made, |made| - 1)
    ensures Aggregate(RowsRead(o, t, rows, FileOf(made), nm)) == View(t, rows, nm)
  {
    hide FileOf, Recorded, Holds, Bytes, Aggregate, Project, Selected, FromParent, Count, Logged, NoSuperset, AllShaped;
    match o {
      case FromInput => SelectedColumns(t);
      case FromView(e) =>
        var k :| 0 <= k < |made| && made[k] == e;
        EntryStands(made, k, nm);
        SmallFewer(made, k);
        assert Right(made[k], rows, nm);
        FromRightParent(t, e, FileOf(made), rows, nd, nm);
    }
  }

  lemma SmallFewer(made: seq<ViewEntry>, k: nat)
    requires k < |made| && Small(made, |made| - 1)
    ensures Small(made, k) && Small(made, k - 1)
  {
    hide Bytes;
  }

  lemma FromRightParent(t: Tuple, e: ViewEntry, words: seq<int>, rows: seq<Row>, nd: nat, nm: nat)
    requires |t| == nd && AllShaped(rows, nd, nm) && Subset(t, e.t) && Placed(e, words, nm)
    requires Holds(words, e.offset / 4, e.view) && e.view == View(e.t, rows, nm)
    ensures Aggregate(RowsRead(FromView(e), t, rows, words, nm)) == View(t, rows, nm)
  {
    hide Count, Aggregate, Holds, FromParent, Selected;
    HoldsReads(words, e.offset / 4, e.view, Count(e.t), nm);
    FromParentPicks(t, e.t);
    SelectedColumns(e.t);
    SelectedColumns(t);
    ViewOfView(rows, Selected(e.t), FromParent(t, e.t), nd, nm);
  }

  /** What one more pass keeps. */
  lemma PassDone(was: seq<ViewEntry>, made: seq<ViewEntry>, origins: seq<Origin>, ts: seq<Tuple>, rows: seq<Row>,
      words: seq<int>, memoryLimit: nat, nd: nat, nm: nat)
    requires |was| < |ts| && |origins| == |was| + 1 && TuplesMade(was) == ts[..|was|] && words == FileOf(was)
    requires OriginOf(origins[|was|], ts[|was|], was) && Readable(origins[|was|], ts[|was|], rows, words, nd, nm)
    requires var read := RowsRead(origins[|was|], ts[|was|], rows, words, nm);
      made == was + [ViewEntry(ts[|was|], Recorded(was), Aggregate(read))] && |Aggregate(read)| <= |rows| &&
      ViewFits(read, memoryLimit, Count(ts[|was|]), nm)
    requires Logged(was, nm) && RightWhileSmall(was, rows, nm) && NoLarger(was, |rows|)
    requires forall i :: 0 <= i < |was| ==> MadeFrom(was, i, origins[i], rows, memoryLimit, nd, nm)
    ensures TuplesMade(made) == ts[..|made|] && RightWhileSmall(made, rows, nm) && NoLarger(made, |rows|)
    ensures forall i :: 0 <= i < |made| ==> MadeFrom(made, i, origins[i], rows, memoryLimit, nd, nm)
  {
    hide FileOf, Recorded, Aggregate, RowsRead, OriginOf, ViewFits, Logged, RightWhileSmall, Count, Readable, MadeFrom,
         TuplesMade, NoLarger;
    var e := made[|was|];
    assert made == was + [e];
    NextListed(was, e, ts, |rows|);
    forall i | 0 <= i < |made| ensures MadeFrom(made, i, origins[i], rows, memoryLimit, nd, nm) {
      if i < |was| {
        StillMade(was, e, i, origins[i], rows, memoryLimit, nd, nm);
      } else {
        LastMade(was, e, origins[|was|], rows, memoryLimit, nd, nm);
      }
    }
    LastRight(was, e, origins[|was|], rows, nd, nm);
  }

  lemma NextListed(was: seq<ViewEntry>, e: ViewEntry, ts: seq<Tuple>, n: nat)
    requires |was| < |ts| && TuplesMade(was) == ts[..|was|] && e.t == ts[|was|] && NoLarger(was, n) && |e.view| <= n
    ensures TuplesMade(was + [e]) == ts[..|was| + 1] && NoLarger(was + [e], n)
  {
    assert TuplesMade(was + [e]) == TuplesMade(was) + [e.t];
  }

  lemma LastMade(was: seq<ViewEntry>, e: ViewEntry, o: Origin, rows: seq<Row>, memoryLimit: nat, nd: nat, nm: nat)
    requires OriginOf(o, e.t, was) && Readable(o, e.t, rows, FileOf(was), nd, nm)
    requires var read := RowsRead(o, e.t, rows, FileOf(was), nm);
      e.view == Aggregate(read) && ViewFits(read, memoryLimit, Count(e.t), nm)
    ensures MadeFrom(was + [e], |was|, o, rows, memoryLimit, nd, nm)
  {
    hide FileOf, Aggregate, RowsRead, OriginOf, ViewFits, Count, Placed, Subset;
    assert (was + [e])[..|was|] == was;
  }

  lemma StillMade(was: seq<ViewEntry>, e: ViewEntry, i: nat, o: Origin, rows: seq<Row>, memoryLimit: nat, nd: nat,
      nm: nat)
    requires MadeFrom(was, i, o, rows, memoryLimit, nd, nm)
    ensures MadeFrom(was + [e], i, o, rows, memoryLimit, nd, nm)
  {
    hide FileOf, Aggregate, RowsRead, OriginOf, ViewFits, Count, Placed, Subset;
    assert (was + [e])[..i] == was[..i];
  }

  lemma LastRight(was: seq<ViewEntry>, e: ViewEntry, o: Origin, rows: seq<Row>, nd: nat, nm: nat)
    requires OriginOf(o, e.t, was) && Readable(o, e.t, rows, FileOf(was), nd, nm)
    requires e.view == Aggregate(RowsRead(o, e.t, rows, FileOf(was), nm))
    requires Logged(was, nm) && RightWhileSmall(was, rows, nm)
    ensures RightWhileSmall(was + [e], rows, nm)
  {
    hide FileOf, Aggregate, RowsRead, OriginOf, Logged, RightWhileSmall, Count, Small, Right, View, Placed, Subset,
         AllShaped;
    if Small(was, |was| - 1) {
      ReadRight(was, e.t, o, rows, nd, nm);
      RightIs(e, rows, nd, nm);
    }
    RightNext(was, e, rows, nm);
  }

  lemma RightIs(e: ViewEntry, rows: seq<Row>, nd: nat, nm: nat)
    requires |e.t| == nd && AllShaped(rows, nd, nm) && e.view == View(e.t, rows, nm)
    ensures Right(e, rows, nm)
  {
  }

  /** What holds of the views made from a list. */
  lemma Listed(made: seq<ViewEntry>, ts: seq<Tuple>, rows: seq<Row>, nd: nat, nm: nat)
    requires AllShaped(rows, nd, nm) && Proper(ts, nd) && |made| <= |ts| && TuplesMade(made) == ts[..|made|]
    requires Logged(made, nm) && RightWhileSmall(made, rows, nm)
    ensures forall k :: 0 <= k < |made| && AllBelow(ts, k - 1, rows, nd, nm) ==> Right(made[k], rows, nm)
    ensures forall k :: 0 <= k < |made| ==>
      (made[k].offset == 4 * |FileOf(made[..k])| <==> AllBelow(ts, k, rows, nd, nm))
    ensures AllBelow(ts, |ts| - 2, rows, nd, nm) ==> FileOf(made) == AllViews(ts[..|made|], rows, nd, nm)
  {
    hide FileOf, Recorded, Logged, Small, Right, View, AllBelow, AllViews, Count, AllShaped;
    forall k | 0 <= k < |made| ensures made[k].t == ts[k] && |ts[k]| == nd { assert TuplesMade(made)[k] == ts[k]; }
    forall k | 0 <= k < |made|
      ensures AllBelow(ts, k - 1, rows, nd, nm) ==> Right(made[k], rows, nm)
      ensures made[k].offset == 4 * |FileOf(made[..k])| <==> AllBelow(ts, k, rows, nd, nm)
    {
      EntryStands(made, k, nm);
      SmallIs(made, ts, k, rows, nd, nm);
      if k > 0 { SmallIs(made, ts, k - 1, rows, nd, nm); } else { NoneSmall(made); }
    }
    if AllBelow(ts, |ts| - 2, rows, nd, nm) {
      forall k | 0 <= k < |made| ensures Right(made[k], rows, nm) { BelowFewer(ts, |ts| - 2, k - 1, rows, nd, nm); }
      FileIsViews(made, rows, nd, nm);
    }
  }

  lemma NoneSmall(made: seq<ViewEntry>)
    ensures Small(made, -1)
  {
  }

  lemma BelowFewer(ts: seq<Tuple>, n: int, k: int, rows: seq<Row>, nd: nat, nm: nat)
    requires AllShaped(rows, nd, nm) && k <= n && AllBelow(ts, n, rows, nd, nm)
    ensures AllBelow(ts, k, rows, nd, nm)
  {
    hide Below32Bits;
  }

  lemma {:induction false} FileIsViews(made: seq<ViewEntry>, rows: seq<Row>, nd: nat, nm: nat)
    requires AllShaped(rows, nd, nm) && forall k :: 0 <= k < |made| ==> |made[k].t| == nd && Right(made[k], rows, nm)
    ensures FileOf(made) == AllViews(TuplesMade(made), rows, nd, nm)
  {
    if made != [] {
      hide View, EncodeAll;
      var n := |made| - 1;
      FileIsViews(made[..n], rows, nd, nm);
      assert TuplesMade(made)[..n] == TuplesMade(made[..n]);
      assert Right(made[n], rows, nm);
    }
  }

  lemma LimitFalls(memoryLimit: nat, nv: nat, nd: nat, nm: nat)
    requires nv <= nd
    ensures NodesLimit(memoryLimit, nd, nm) <= NodesLimit(memoryLimit, nv, nm)
  {
    assert 0 < NodeSize(nv, nm) <= NodeSize(nd, nm);
    hide NodeSize;
    QuotientFalls(memoryLimit, NodeSize(nv, nm), NodeSize(nd, nm));
  }

  lemma FactorBelow(x: int, y: int, c: nat)
    requires x * c < y * c
    ensures x < y
  {
  }

  lemma QuotientFalls(a: nat, b: nat, c: nat)
    requires 0 < b <= c
    ensures a / c <= a / b
  {
    var x, y := a / c, a / b + 1;
    assert x * c <= a && a < y * b && y * b <= y * c;
    FactorBelow(x, y, c);
  }

  /** The entry is one of the views made with the given number of dimensions that suit as this kind of parent, and no
      such view has fewer rows. */
  ghost predicate SmallestKin(made: seq<ViewEntry>, t: Tuple, level: nat, kind: ParentKind, e: ViewEntry) {
    Count(e.t) == level && Kin(kind, t, e.t) &&
    forall u :: u in made && Count(u.t) == level && Kin(kind, t, u.t) ==> |e.view| <= |u.view|
  }

  ghost predicate NoKin(made: seq<ViewEntry>, t: Tuple, level: nat, kind: ParentKind) {
    forall u :: u in made && Count(u.t) == level ==> !Kin(kind, t, u.t)
  }

  /** The parent is the smallest of its kind, and no view suits as a kind that is preferred. */
  ghost predicate Preferred(found: ParentKind, made: seq<ViewEntry>, t: Tuple, level: nat, parent: ViewEntry) {
    SmallestKin(made, t, level, found, parent) &&
    (found != PrefixedParent ==> NoKin(made, t, level, PrefixedParent)) &&
    (found == SmallestParent ==> NoKin(made, t, level, SharedSortParent))
  }

  /** Where the pool records a view. */
  lemma RecordedWhere(jpp: seq<Job>, lpp: seq<Layer>, made: seq<ViewEntry>, words: seq<int>, nd: nat, nm: nat, l: nat,
      e: ViewEntry) returns (i: nat)
    requires PoolOk(jpp, lpp, made, words, nd, nm) && 1 <= l <= nd && e in made && Count(e.t) == l
    ensures i < |Level(made, l)| && Level(made, l)[i] == e && Start(nd, l) + |Level(made, l)| <= |jpp| &&
            |e.t| == nd && JobOf(jpp[Start(nd, l) + i], e, words, nm)
  {
    hide Count, Level, Start, Placed, JobOf;
    PoolLayer(jpp, lpp, made, words, nd, nm, l);
    var k :| 0 <= k < |made| && made[k] == e;
    LevelMember(made, l, e.t);
    i :| 0 <= i < |Level(made, l)| && Level(made, l)[i].t == e.t;
    var k' := LevelEntry(made, l, i);
    assert TuplesMade(made)[k] == TuplesMade(made)[k'];
  }

  lemma KinRecorded(jpp: seq<Job>, lpp: seq<Layer>, made: seq<ViewEntry>, words: seq<int>, nd: nat, nm: nat, l: nat,
      kind: ParentKind, g: bv32, t: Tuple, e: ViewEntry) returns (i: nat)
    requires PoolOk(jpp, lpp, made, words, nd, nm) && 1 <= l <= nd <= 32 && e in made && Count(e.t) == l
    requires Tuple32(g, nd) == t && forall i :: nd <= i < 32 ==> !Bit32(g, i)
    ensures i < |Level(made, l)| && Start(nd, l) + i < |jpp| && jpp[Start(nd, l) + i].nRows == |e.view|
    ensures Suits(kind, g, jpp[Start(nd, l) + i].grpb) <==> Kin(kind, t, e.t)
  {
    hide Count, Level, Start, Placed, Suits, Kin, Bit32, PoolOk;
    i := RecordedWhere(jpp, lpp, made, words, nd, nm, l, e);
    SuitsIs(kind, g, jpp[Start(nd, l) + i].grpb, nd);
  }

  lemma NoneOfKind(jpp: seq<Job>, lpp: seq<Layer>, made: seq<ViewEntry>, words: seq<int>, nd: nat, nm: nat, l: nat,
      kind: ParentKind, g: bv32, t: Tuple)
    requires PoolOk(jpp, lpp, made, words, nd, nm) && 1 <= l <= nd <= 32
    requires Tuple32(g, nd) == t && forall i :: nd <= i < 32 ==> !Bit32(g, i)
    requires Best(Nobody, kind, g, jpp, Start(nd, l), |Level(made, l)|)
    ensures NoKin(made, t, l, kind)
  {
    hide Count, Level, Start, Suits, Kin, Bit32, PoolOk;
    forall u | u in made && Count(u.t) == l ensures !Kin(kind, t, u.t) {
      var i := KinRecorded(jpp, lpp, made, words, nd, nm, l, kind, g, t, u);
    }
  }

  lemma SmallestOfKind(jpp: seq<Job>, lpp: seq<Layer>, made: seq<ViewEntry>, words: seq<int>, nd: nat, nm: nat, l: nat,
      kind: ParentKind, g: bv32, t: Tuple, ig: nat, e: ViewEntry)
    requires PoolOk(jpp, lpp, made, words, nd, nm) && 1 <= l <= nd <= 32 && kind != NoneParent
    requires Tuple32(g, nd) == t && forall i :: nd <= i < 32 ==> !Bit32(g, i)
    requires Best(Entry(ig), kind, g, jpp, Start(nd, l), |Level(made, l)|)
    requires ig < |jpp| && ParentJob(jpp[ig].grpb, l, jpp[ig].nRows, jpp[ig].viewOffset, e, words, nd, nm)
    ensures SmallestKin(made, t, l, kind, e)
  {
    hide Count, Level, Start, Suits, Kin, Bit32, PoolOk, Placed;
    SuitsIs(kind, g, jpp[ig].grpb, nd);
    forall u | u in made && Count(u.t) == l && Kin(kind, t, u.t) ensures |e.view| <= |u.view| {
      var i := KinRecorded(jpp, lpp, made, words, nd, nm, l, kind, g, t, u);
    }
  }

  lemma PreferredIs(jpp: seq<Job>, lpp: seq<Layer>, made: seq<ViewEntry>, words: seq<int>, nd: nat, nm: nat, l: nat,
      found: ParentKind, g: bv32, t: Tuple, ig: nat, e: ViewEntry)
    requires PoolOk(jpp, lpp, made, words, nd, nm) && 1 <= l <= nd <= 32 && found != NoneParent
    requires Tuple32(g, nd) == t && forall i :: nd <= i < 32 ==> !Bit32(g, i)
    requires Best(Entry(ig), found, g, jpp, Start(nd, l), |Level(made, l)|)
    requires ig < |jpp| && ParentJob(jpp[ig].grpb, l, jpp[ig].nRows, jpp[ig].viewOffset, e, words, nd, nm)
    requires found != PrefixedParent ==> Best(Nobody, PrefixedParent, g, jpp, Start(nd, l), |Level(made, l)|)
    requires found == SmallestParent ==> Best(Nobody, SharedSortParent, g, jpp, Start(nd, l), |Level(made, l)|)
    ensures Preferred(found, made, t, l, e)
  {
    hide Best, Count, Level, Start, Suits, Kin, Bit32, PoolOk, ParentJob, SmallestKin, NoKin;
    SmallestOfKind(jpp, lpp, made, words, nd, nm, l, found, g, t, ig, e);
    if found != PrefixedParent { NoneOfKind(jpp, lpp, made, words, nd, nm, l, PrefixedParent, g, t); }
    if found == SmallestParent { NoneOfKind(jpp, lpp, made, words, nd, nm, l, SharedSortParent, g, t); }
  }

  /** No made superset of t has fewer than n dimensions. */
  ghost predicate NoneBelow(made: seq<ViewEntry>, t: Tuple, n: nat) {
    forall u {:trigger Subset(t, u)} :: Made(made, u) && Subset(t, u) ==> Count(u) >= n
  }

  /** No view made so far has all the dimensions. */
  lemma NoneAtAll(made: seq<ViewEntry>, t: Tuple)
    requires NoneBelow(made, t, |t| + 1)
    ensures NoSuperset(made, t)
  {
  }

  lemma SomeSuperset(made: seq<ViewEntry>, t: Tuple, e: ViewEntry)
    requires e in made && Subset(t, e.t)
    ensures Made(made, e.t) && !NoSuperset(made, t)
  {
  }

  /** The fields set by GetParent describe the parent's view. */
  ghost predicate ParentJob(grpb: bv32, level: nat, nRows: nat, offset: int, e: ViewEntry, words: seq<int>, nd: nat,
      nm: nat)
  {
    |e.t| == nd && level == Count(e.t) && JobOf(Job(grpb, level, nRows, offset), e, words, nm)
  }

  lemma PoolStarts(jpp: seq<Job>, lpp: seq<Layer>, nd: nat, nm: nat)
    requires |jpp| == Pow2(nd) && |lpp| == nd + 1 &&
             forall l :: 1 <= l <= nd ==> lpp[l] == Layer(Start(nd, l), Binomial(nd, l), 0)
    ensures PoolOk(jpp, lpp, [], [], nd, nm)
  {
    hide Start, Binomial, Pow2;
    forall l | 1 <= l <= nd ensures LayerOk(jpp, lpp, [], [], nd, nm, l) {
      LayersTile(nd);
      StartNext(nd, l);
      StartGrows(nd, l + 1, nd + 1);
    }
  }

  lemma PoolLayer(jpp: seq<Job>, lpp: seq<Layer>, made: seq<ViewEntry>, words: seq<int>, nd: nat, nm: nat, l: nat)
    requires PoolOk(jpp, lpp, made, words, nd, nm) && 1 <= l <= nd
    ensures |lpp| == nd + 1 && lpp[l].layerCurrentPopulation == |Level(made, l)| && lpp[l].layerIndex == Start(nd, l) &&
            Start(nd, l) + |Level(made, l)| <= |jpp|
    ensures forall i ::
              0 <= i < |Level(made, l)| ==>
                |Level(made, l)[i].t| == nd && JobOf(jpp[Start(nd, l) + i], Level(made, l)[i], words, nm)
  {
    assert LayerOk(jpp, lpp, made, words, nd, nm, l);
  }

  /** A prefixed or a sort-sharing parent is a superset, so the layer has one. */
  lemma Kinds(sp: Candidate, pf: Candidate, ss: Candidate, g: bv32, jpp: seq<Job>, from: nat, n: nat)
    requires Best(sp, SmallestParent, g, jpp, from, n) && Best(pf, PrefixedParent, g, jpp, from, n) &&
             Best(ss, SharedSortParent, g, jpp, from, n)
    ensures sp.Entry? ==>
              from <= sp.ig < from + n && Super(g, jpp[sp.ig].grpb) && Suits(SmallestParent, g, jpp[sp.ig].grpb)
    ensures pf.Entry? ==>
              from <= pf.ig < from + n && Super(g, jpp[pf.ig].grpb) && Suits(PrefixedParent, g, jpp[pf.ig].grpb)
    ensures ss.Entry? ==>
              from <= ss.ig < from + n && Super(g, jpp[ss.ig].grpb) && Suits(SharedSortParent, g, jpp[ss.ig].grpb)
  {
  }

  lemma Chosen(jpp: seq<Job>, lpp: seq<Layer>, made: seq<ViewEntry>, words: seq<int>, nd: nat, nm: nat, l: nat,
      ig: nat, g: bv32, t: Tuple) returns (e: ViewEntry)
    requires PoolOk(jpp, lpp, made, words, nd, nm) && 1 <= l <= nd &&
             Start(nd, l) <= ig < Start(nd, l) + |Level(made, l)| && ig < |jpp|
    requires Super(g, jpp[ig].grpb) && Tuple32(g, nd) == t
    ensures e in made && Subset(t, e.t) &&
            ParentJob(jpp[ig].grpb, l, jpp[ig].nRows, jpp[ig].viewOffset, e, words, nd, nm)
  {
    hide Level, Start, Count, Placed;
    PoolLayer(jpp, lpp, made, words, nd, nm, l);
    e := Level(made, l)[ig - Start(nd, l)];
    assert JobOf(jpp[Start(nd, l) + (ig - Start(nd, l))], e, words, nm);
    var k := LevelEntry(made, l, ig - Start(nd, l));
    SubsetTest(g, jpp[ig].grpb, nd);
  }

  lemma NoneHere(jpp: seq<Job>, lpp: seq<Layer>, made: seq<ViewEntry>, words: seq<int>, nd: nat, nm: nat, l: nat,
      g: bv32, t: Tuple)
    requires PoolOk(jpp, lpp, made, words, nd, nm) && 1 <= l <= nd <= 32 && Tuple32(g, nd) == t &&
             NoneBelow(made, t, l)
    requires Best(Nobody, SmallestParent, g, jpp, Start(nd, l), |Level(made, l)|) &&
             forall i :: nd <= i < 32 ==> !Bit32(g, i)
    ensures NoneBelow(made, t, l + 1)
  {
    hide Count, Level, Start, Placed;
    PoolLayer(jpp, lpp, made, words, nd, nm, l);
    forall u | Made(made, u) && Subset(t, u) && Count(u) == l ensures false {
      LevelMember(made, l, u);
      var i :| 0 <= i < |Level(made, l)| && Level(made, l)[i].t == u;
      var job := jpp[Start(nd, l) + i];
      assert JobOf(job, Level(made, l)[i], words, nm);
      assert !Suits(SmallestParent, g, job.grpb);
      SubsetTestComplete(g, job.grpb, nd);
    }
  }

  lemma SupersetsHigher(made: seq<ViewEntry>, t: Tuple)
    ensures NoneBelow(made, t, Count(t))
  {
    forall u | Subset(t, u) ensures Count(u) >= Count(t) { SubsetCount(t, u); }
  }

  // ---- Views from the input and from other views ------------------------------------------------------------

  lemma GroupbyFacts(x: bv64, nd: nat)
    requires nd <= 28
    ensures Tuple32(Groupby(x, nd), nd) == Tuple64(x, nd) &&
            Count(Tuple64(Wide(Groupby(x, nd)), 64)) == Count(Tuple64(x, nd))
    ensures forall i :: nd <= i < 32 ==> !Bit32(Groupby(x, nd), i)
  {
    GroupbyTuple(x, nd);
    GroupbyCount(x, nd);
    forall i | nd <= i < 32 ensures !Bit32(Groupby(x, nd), i) { GroupbyBits(x, nd, i); }
  }

  /** What is read at the place recorded for the parent. */
  lemma FromParentRows(t: Tuple, e: ViewEntry, grpb: bv32, level: nat, nRows: nat, offset: int, words: seq<int>,
      rows: seq<Row>, nd: nat, nm: nat) returns (inp: seq<Row>)
    requires |t| == nd && AllShaped(rows, nd, nm) && Subset(t, e.t) &&
             ParentJob(grpb, level, nRows, offset, e, words, nd, nm)
    ensures Tuple32(grpb, nd) == e.t && |e.t| == nd && offset >= 0 && level == Count(e.t) &&
            Readable(FromView(e), t, rows, words, nd, nm)
    ensures |inp| == nRows && AllShaped(inp, level, nm) && Reads(words, offset / 4, inp, level, nm)
    ensures Columns(FromParent(t, e.t), level) && |FromParent(t, e.t)| == Count(t)
    ensures Project(inp, FromParent(t, e.t), level, nm) == RowsRead(FromView(e), t, rows, words, nm)
  {
    hide Count, FromParent, Selected, Reads;
    inp := RecordsAt(words, offset / 4, nRows, level, nm);
    EncodeAllLength(e.view, level, nm);
    RecordsRead(words, offset / 4, nRows, level, nm);
    FromParentPicks(t, e.t);
  }

  lemma FromInputRows(t: Tuple, rows: seq<Row>, words: seq<int>, input: seq<int>, nd: nat, nm: nat)
    requires |t| == nd && AllShaped(rows, nd, nm) && Holds(input, 0, rows)
    ensures Readable(FromInput, t, rows, words, nd, nm) && Reads(input, 0, rows, nd, nm)
    ensures Columns(Selected(t), nd) && Project(rows, Selected(t), nd, nm) == RowsRead(FromInput, t, rows, words, nm)
  {
    hide Holds, Reads;
    SelectedColumns(t);
    HoldsReads(input, 0, rows, nd, nm);
  }

  /** Smaller views fit wherever the largest does. */
  lemma ViewNeeds(memoryLimit: nat, nd: nat, nv: nat, nm: nat)
    requires memoryLimit >= NodeSize(nd, nm) && 0 < nv <= nd
    ensures NodesLimit(memoryLimit, nv, nm) > 0 && RecSize(nv, nm) > 0
  {
    assert NodeSize(nv, nm) <= NodeSize(nd, nm);
    hide NodeSize;
    AtLeastOne(memoryLimit, NodeSize(nv, nm));
  }

  lemma AtLeastOne(a: nat, b: nat)
    requires a >= b > 0
    ensures a / b > 0
  {
  }

  /** The view file after the given views. */
  ghost function AllViews(ts: seq<Tuple>, rows: seq<Row>, nd: nat, nm: nat): seq<int>
    requires AllShaped(rows, nd, nm) && forall k :: 0 <= k < |ts| ==> |ts[k]| == nd
  {
    if ts == [] then [] else AllViews(ts[..|ts| - 1], rows, nd, nm) + EncodeAll(View(ts[|ts| - 1], rows, nm))
  }

  lemma ViewedWords(view: seq<Row>, w0: seq<int>, w: seq<int>, s0: seq<int>, s: seq<int>, c0: seq<int>, c: seq<int>,
      n: int, chunks: int, nm: nat)
    requires Viewed(view, w0, w, s0, s, c0, c, n, chunks, nm)
    ensures w == w0 + EncodeAll(view) && n == |view| && |s| == |c| == nm
  {
  }

  lemma NotYet(ts: seq<Tuple>, k: nat, made: seq<ViewEntry>, nd: nat)
    requires Proper(ts, nd) && k < |ts| && TuplesMade(made) == ts[..k]
    ensures !Made(made, ts[k]) && Count(ts[k]) > 0 && |ts[k]| == nd
  {
    forall i | 0 <= i < |made| ensures made[i].t != ts[k] { assert TuplesMade(made)[i] == ts[i]; }
  }

  // ---- A run whose pool is wrong --------------------------------------------------------------------------------

  lemma LargeTuples()
    ensures Tuple64(0xC000_0000_0000_0000, 2) == [true, true] && Tuple64(0x8000_0000_0000_0000, 2) == [true, false]
    ensures Proper([[true, true], [true, false]], 2)
  {
    TwoColumns();
  }

  lemma LargeMemory()
    ensures MemorySuffices(0x1000_0000, 0xFFFF_FFFF, 2, 2) && 0xFFFF_FFFF >= NodeSize(2, 2)
  {
  }

  lemma OneThin(made: seq<ViewEntry>)
    requires |made| == 2 && made[0].t == [true, true] && made[1].t == [true, false]
    ensures Level(made, 1) == [made[1]]
  {
    TwoColumns();
    assert made[..1] == [made[0]] && made[..1][..0] == [];
    hide Count;
    assert Level(made[..1], 1) == [];
  }

  lemma LargeJob(jpp: seq<Job>, lpp: seq<Layer>, made: seq<ViewEntry>, words: seq<int>)
    requires PoolOk(jpp, lpp, made, words, 2, 2)
    requires |made| == 2 && made[0].t == [true, true] && made[1].t == [true, false]
    ensures |lpp| == 3 && lpp[1].layerIndex < |jpp| && JobOf(jpp[lpp[1].layerIndex], made[1], words, 2)
  {
    hide Level, JobOf, Start, PoolOk;
    OneThin(made);
    PoolLayer(jpp, lpp, made, words, 2, 2, 1);
    assert Level(made, 1)[0] == made[1];
    assert JobOf(jpp[Start(2, 1) + 0], Level(made, 1)[0], words, 2);
  }

  lemma NothingBelow(ts: seq<Tuple>, rows: seq<Row>, nd: nat, nm: nat)
    requires AllShaped(rows, nd, nm)
    ensures AllBelow(ts, -1, rows, nd, nm) && AllBelow(ts, 0, rows, nd, nm)
  {
    hide Below32Bits;
  }

  /** With 2^28 rows of two dimensions and two measures, and nearly 2^32 bytes of memory, the views onto both dimensions
      and onto the first are made without an error, and the second view does not stand where its job says. */
  method LargeRun(inpf: File) returns (code: ReturnCode, task: Task)
    requires Holds(inpf.words, 0, LargeInput()) && inpf.pos == 0
    ensures code == ADC_OK && |task.made| == 2 && task.made[1].t == [true, false]
    ensures AllShaped(LargeInput(), 2, 2) && task.made[1].view == View([true, false], LargeInput(), 2)
    ensures |task.lpp| == 3 && task.lpp[1].layerIndex < |task.jpp|
    ensures var job := task.jpp[task.lpp[1].layerIndex];
      JobOf(job, task.made[1], task.avp.viewFile.words, 2) && job.viewOffset == 0x8000_0000 &&
      !Holds(task.avp.viewFile.words, job.viewOffset / 4, task.made[1].view)
  {
    hide LargeInput, PoolOk, View, Logged, FileOf, AllBelow, NodesLimit, NodeSize, AllShaped, Holds, MemorySuffices,
         MadeFrom, Proper, Level, Tuple64, Count;
    LargeSorted();
    LargeRow(0);
    LargeTuples();
    LargeMemory();
    task := new Task(2, 2, 0xFFFF_FFFF, inpf, LargeInput(), 0x1000_0000);
    ghost var ts := [[true, true], [true, false]];
    ghost var origins;
    code, origins := task.ComputeGivenGroupbys([0xC000_0000_0000_0000, 0x8000_0000_0000_0000], ts);
    NothingBelow(ts, LargeInput(), 2, 2);
    assert TuplesMade(task.made)[0] == ts[0] && TuplesMade(task.made)[1] == ts[1];
    assert Right(task.made[0], LargeInput(), 2) && Right(task.made[1], LargeInput(), 2);
    OffsetWraps(task.made);
    LargeJob(task.jpp, task.lpp, task.made, task.avp.viewFile.words);
  }
}
