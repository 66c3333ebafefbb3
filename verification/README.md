# Verified models of the benchmark kernels

This project models, in Dafny, the algorithms inside the benchmark programs of this repository and proves what they are relied upon
for. Each component follows its C source: code that changes arrays, nodes and files in place is modelled by classes and methods with
loops, and every such method is proved against a specification; protocols of several threads are modelled as systems of atomic steps,
and their properties are proved over every run.

- **B+ tree** (`BTree*.dfy`, `ArrayLoops.dfy`). Search, range query, insertion with leaf and internal splits, and deletion with
  coalescing and redistribution, for every order of at least 3. Nodes live in an arena; their `keys`, `pointers`, `num_keys` and
  `parent` are changed as the program changes them. A tree of links with key intervals is kept beside the arena and refined to a plain
  map.
- **Data cube** (`CubeRows`, `CubeGroups`, `CubeChecksum`, `RowFile`, `RedBlack*`, `ExternalSortModel`, `RunFormationSteps`,
  `ChunkCursors`, `MergeSteps`, `ViewControl`, `Tuples`, `ParentKinds`, `Binomials`, `Layers`, `CubePool`, `ViewLog`, `CubeTask`,
  `HeapSort`, `Schedule`, `WholeCube`). The red-black tree in a bounded pool, spilling and multi-way merging, views computed from
  earlier views, the job pool, the division of the views among tasks, and the whole run from the size file to the view files of all
  tasks. Files are sequences of 32-bit words, so that offsets mean what they mean in the program.
- **Integer sort** (`RankScatter`, `BucketScatter`, `BucketRanking`, `IntegerSort`, `ParallelSort`, `RandomStream`). The bucket variant
  for any number of threads, with every phase under any interleaving, and the random stream into which each thread skips.
- **Cross-section lookup** (`EnergyGrid`, `SkipAhead`). The unionized energy grid, and skipping ahead in the random stream.
- **System benchmark kernels** (`NumberTheory`, `UniqueRandom`, `Crc32`, `Barrier`, `Histogram`). The unique random sequence, CRC-32,
  the thread barrier and the latency histogram.

`Arith.dfy` and `SeqEdit.dfy` hold facts about numbers and sequences that several components use.

Some properties do not hold of the code as it is. The code is modelled unchanged, and the exact condition is proved:

- `find_range` reports nothing when the leaf reached for the start key has no key as large (`benchmarks/btree/btree.c:544`), even if the
  next leaf has one. The documentation above the function promises all keys in range; the contract of `BTree.BPlusTree.FindRange` states
  both cases. `BTreeRun.EarlyReturnLosesBindings` is a run in which bindings are missed, and `BTreeRun.FindRangeAfterPuts` says exactly
  when they are in runs that delete nothing.
- The two ways of writing a view do not always compute the same checksum. With one measure they do exactly when no product of a row
  number and a measure is negative as a 64-bit number (`CubeChecksum.ChecksumsAgree`, `ViewControl.RouteIrrelevant`);
  `CubeChecksum.NegativeMeasureDiffers` is an input. With two or more measures they differ already on one row of ones
  (`CubeChecksum.ChecksumsDiffer`), because they number terms differently, so that agreement on all such inputs holds exactly for at
  most one measure (`CubeChecksum.OneMeasureOnly`); `CubeChecksum.MeasuresAgree` is the exact condition for any number of measures.
- The offset of the next view is advanced by a 32-bit product. The place recorded for a view is right if and only if all views before it
  have fewer than 2^32 bytes (`ViewLog.RecordedIs`, `ViewLog.EntryStands`; on runs, in terms of the input,
  `CubeTask.Task.ComputeGivenGroupbys`). `ViewLog.OffsetWraps` is an input whose second view is not where it should be, and
  `CubeTask.LargeRun` the run that makes it and reports success.
- The barrier's error flag is never cleared. By `Barrier.LeavesInTime` a thread that is not a leader returns -1 exactly when some
  callback has failed before, of whatever generation, so a failed callback reaches the threads of all later generations, and threads of
  earlier ones that leave late (`Barrier.ErrorStays`); `Barrier.LaterGenerationFails` and `Barrier.LateLeaverFails` are runs.

## Model

| member | source | states |
|---|---|---|
| BTreeRun.Run | benchmarks/btree/btree.c:1042-1462 | For every order of at least 3 and every sequence of insertions and deletions from the empty tree, the tree is valid and represents exactly the plain map after the same operations, and every separator is a key that was once inserted |
| BTreeRun.FindAfter | benchmarks/btree/btree.c:600-628 | After any such sequence, the lookup of any key returns the value in the plain map, and nothing exactly when the map has no binding |
| BTreeRun.FindRangeAfter | benchmarks/btree/btree.c:537-555 | After any such sequence, a range query reports bindings of the map in ascending key order; it reports all bindings in the range exactly when the tree is empty, the leaf reached has a key not below the start, or nothing is in range, and in the remaining case it reports nothing; when the start key is bound it reports all |
| BTreeRun.FindRangeAfterPuts | benchmarks/btree/btree.c:537-555 | After any sequence of insertions, for every order, a range query misses bindings exactly when its start lies between the last key of a leaf and the first key of the next leaf and that key is in range |
| BTreeRun.EarlyReturnLosesBindings | benchmarks/btree/btree.c:543-544 | A run in which the early return loses bindings: at order 3, after the insertion of 1, 5 and 9, one of the queries for [4, 9] and [8, 9] finds nothing |
| BTreeSeparators.SeparatorIsFirst | benchmarks/btree/btree.c:850-855 | While no key has been deleted, each separator is the least key to its right: the first key of every leaf but the leftmost is where its interval starts |
| BTreeSeparators.LosesExactly | benchmarks/btree/btree.c:543-544 | While every key in the tree is bound, the early return loses bindings of a range if and only if the start lies between two leaves and the first key behind it is in range |
| BTreeShape.ShapeIsBPlus | benchmarks/btree/btree.c:792-957 | Between operations the nodes form one tree: all leaves at equal depth, every separator above all keys to its left and at most all keys to its right, every node filled as its order demands, keys strictly ascending, and the leaf chain reads exactly the tree's entries from left to right |
| BTreeShape.PointersAgree | benchmarks/btree/btree.c:844-852 | Between operations every child's parent pointer names the node that points to it, and the last pointers of the leaves form one chain through exactly the leaves |
| BTree.BPlusTree.FindLeaf | benchmarks/btree/btree.c:563-594 | The leaf reached is the one whose key interval contains the key |
| BTree.BPlusTree.Find | benchmarks/btree/btree.c:600-628 | A record is returned exactly when the key is bound, and it holds the bound value |
| BTree.BPlusTree.FindRange | benchmarks/btree/btree.c:537-555 | Exactly the keys and record pointers in range, in chain order, when the leaf reached has a key not below the start; nothing otherwise, so the condition is exact |
| BTree.BPlusTree.Insert | benchmarks/btree/btree.c:1042-1095 | The map gains or overwrites exactly one binding, all others survive, the tree stays valid, and no key but the new one appears anywhere in the tree |
| BTree.BPlusTree.Delete | benchmarks/btree/btree.c:1448-1462 | The map loses exactly that binding, all others survive, the tree stays valid, and no new key appears as a separator |
| BTree.BPlusTree.InsertIntoNewRoot | benchmarks/btree/btree.c:1005-1021 | A pending right sibling of the root is given a new root above both; the entries do not change |
| BTree.BPlusTree.InsertIntoParent | benchmarks/btree/btree.c:964-1003 | From any pending sibling, the recursion up the tree ends in a valid tree with the same entries |
| BTree.BPlusTree.InsertIntoNodeAfterSplitting | benchmarks/btree/btree.c:882-957 | A full internal node is split and the pending entry moves up; the result is a valid tree with the same entries |
| BTree.BPlusTree.SplitFullNode | benchmarks/btree/btree.c:907-949 | The split leaves both halves well formed and filled, their children's parents corrected, and one separator pending in the parent |
| BTree.BPlusTree.InsertIntoLeafAfterSplitting | benchmarks/btree/btree.c:792-859 | The chain of all entries gains the new entry at its sorted position; the leaf is split and linked into the chain |
| BTree.BPlusTree.StartNewTree | benchmarks/btree/btree.c:1023-1035 | The first leaf is a valid tree that represents the single binding |
| BTree.BPlusTree.AdjustRoot | benchmarks/btree/btree.c:1166-1202 | An empty root is replaced by its only child, or the tree becomes empty, and then no entry is left |
| BTree.BPlusTree.Coalesce | benchmarks/btree/btree.c:1210-1291 | Two neighbours become one, the chain skips the dead node, and exactly one parent entry is pending for deletion; the entries do not change |
| BTree.BPlusTree.RedistributeFromLeft | benchmarks/btree/btree.c:1300-1374 | An entry borrowed from the left neighbour restores the minimum filling of both nodes, with the parent's separator corrected; the entries do not change |
| BTree.BPlusTree.RedistributeFromRight | benchmarks/btree/btree.c:1300-1374 | The same from the right neighbour |
| BTree.BPlusTree.DeleteEntry | benchmarks/btree/btree.c:1377-1442 | Removing a pending entry and rebalancing upwards ends in a valid tree with the other entries unchanged, or in an empty one when there are none |
| BTree.BPlusTree.Rebalance | benchmarks/btree/btree.c:1391-1441 | A node one below its minimum is coalesced with or borrows from a neighbour, left if there is one |
| BTreeDelete.RemoveEntryFromNode | benchmarks/btree/btree.c:1129-1163 | The arrays lose exactly the first occurrence of the given key and pointer, and every pointer behind the last used entry is cleared, except the link of a leaf to the next |
| BTreeDelete.JoinArrays | benchmarks/btree/btree.c:1230-1286 | The neighbour's arrays are the concatenation of both nodes' entries, with the separator between them in an internal node |
| BTreeSteps.SplitArrays | benchmarks/btree/btree.c:907-936 | The two arrays of a split internal node hold the temporary entries before and behind the middle key |
| BTreeSteps.SplitLeafArrays | benchmarks/btree/btree.c:806-842 | The two arrays of a split leaf hold the first half and the rest of the temporary entries |
| BTreeSteps.InsertIntoLeaf | benchmarks/btree/btree.c:768-784 | The leaf's arrays gain key and pointer at the sorted position |
| BTreeSteps.InsertIntoNode | benchmarks/btree/btree.c:863-876 | The node's arrays gain the key and the pointer to its right |
| BTreeSteps.GetLeftIndex | benchmarks/btree/btree.c:755-763 | The position of the child in the parent's pointers |
| BTreeRange.RangeSlice | benchmarks/btree/btree.c:541-553 | Walking the chain from the first key not below the start collects exactly the entries in range |
| BTreeState.ParentSplits | benchmarks/btree/btree.c:882-957 | Splitting a full parent turns one pending insertion into a pending insertion one level up |
| BTreeState.LeafSplits | benchmarks/btree/btree.c:792-859 | Splitting a full leaf leaves a pending insertion in its parent and all other nodes as they were |
| BTreeDelete.CoalesceStep | benchmarks/btree/btree.c:1210-1291 | Merging two neighbours turns a short node into a pending deletion in the parent |
| BTreeDelete.BorrowStep | benchmarks/btree/btree.c:1300-1374 | Borrowing repairs a short node without touching the rest of the tree |
| CubeRows.KeyComp | benchmarks/NPB3.4-OMP/DC/rbt.c:7-14 | The result is negative exactly when the rows agree up to some dimension and the first is smaller there, positive in the mirrored case, and 0 exactly for equal dimensions |
| CubeRows.BeforeIs | benchmarks/NPB3.4-OMP/DC/rbt.c:9-12 | The order of rows is the lexicographic order from the first dimension on |
| RedBlack.RBTree.TreeInsert | benchmarks/NPB3.4-OMP/DC/rbt.c:15-147 | The tree stays red-black, and its rows in order become the old rows with the new one added to its group or inserted at its place; a free node is needed only when the group is new; the pool is full exactly when all nodes are used |
| RedBlack.RBTree.Descend | benchmarks/NPB3.4-OMP/DC/rbt.c:36-74 | The walk ends at the node with the row's dimensions or at the missing child where it belongs, the two stacks hold the path, and the stack index stays below 64 |
| RedBlack.RBTree.FixUp | benchmarks/NPB3.4-OMP/DC/rbt.c:80-144 | Recolouring and rotating from a red node under a red node ends in a red-black tree with the same nodes in the same order |
| RedBlack.RBTree.RotateLeftSide | benchmarks/NPB3.4-OMP/DC/rbt.c:83-112 | One or two rotations on the left side end the repair |
| RedBlack.RBTree.RotateRightSide | benchmarks/NPB3.4-OMP/DC/rbt.c:113-143 | The same on the right side |
| RedBlack.RBTree.InitializeTree | benchmarks/NPB3.4-OMP/DC/rbt.c:217-231 | The tree is empty, and the node limit is the memory limit divided by the node size |
| RedBlack.LimitIs | benchmarks/NPB3.4-OMP/DC/rbt.c:222-227 | The node limit is the largest number of nodes that fit into the memory |
| RedBlackModel.PathShort | benchmarks/NPB3.4-OMP/DC/rbt.h:4-39 | A red-black tree with fewer than 2^28 - 1 nodes has no path of more than 54 nodes |
| RedBlack.StackFits | benchmarks/NPB3.4-OMP/DC/rbt.c:44-57 | Because the pool bounds the number of nodes, the path stack never reaches its 64 entries |
| RedBlackSteps.RecolorStep | benchmarks/NPB3.4-OMP/DC/rbt.c:85-89 | Recolouring parent, uncle and grandparent moves the conflict two levels up and keeps all black heights |
| RedBlackSteps.OuterLeftStep | benchmarks/NPB3.4-OMP/DC/rbt.c:100-110 | The outer rotation restores the red-black rules and keeps the order of the nodes |
| RedBlackPool.RotateLeft | benchmarks/NPB3.4-OMP/DC/rbt.c:91-96 | The pointer assignments of a rotation in the pool rotate the tree that the pool holds |
| CubeRows.AggregateIs | benchmarks/NPB3.4-OMP/DC/rbt.c:66-78 | Adding row by row gives the group-by: one row per occurring combination of dimensions, in order, with the wrapped sums of the measures |
| CubeRows.AggregateOrder | benchmarks/NPB3.4-OMP/DC/rbt.c:159-170 | Of any two rows of a view the earlier one is smaller in the first dimension in which they differ |
| CubeRows.GroupByUnique | benchmarks/NPB3.4-OMP/DC/rbt.c:159-170 | There is only one group-by of given rows |
| ViewControl.AdcView.WriteChunkToDisk | benchmarks/NPB3.4-OMP/DC/rbt.c:181-190 | The in-order writer appends exactly the tree's rows in order to the chunk file |
| ViewControl.AdcView.WriteViewToDiskCS | benchmarks/NPB3.4-OMP/DC/rbt.c:159-170 | The in-order writer appends the tree's rows to the view file, and totals and checksums are those of these rows, the order number advancing once per measure |
| ViewControl.AdcView.RunFormation | benchmarks/NPB3.4-OMP/DC/extbuild.c:320-365 | Either the tree holds the aggregate of all selected rows, or the chunk file holds the aggregates of consecutive segments of them; it fails exactly when 1024 full chunks would be made, and then the view file is untouched |
| ViewControl.NoSpill | benchmarks/NPB3.4-OMP/DC/extbuild.c:328-347 | No chunk is written exactly when the groups of all rows together are fewer than the nodes of the tree |
| ViewControl.EnoughMemory | benchmarks/NPB3.4-OMP/DC/extbuild.c:944-960 | A view can be computed whenever the tree can be filled with its rows fewer than 1024 times and the memory holds 1024 records |
| ExternalSortModel.SegmentsFlat | benchmarks/NPB3.4-OMP/DC/extbuild.c:328-362 | The segments that are spilled, one after the other, are exactly the input rows |
| ViewControl.AdcView.ReadSubChunk | benchmarks/NPB3.4-OMP/DC/extbuild.c:381-417 | The chunk's records in the buffer and in the file are still exactly its remaining records, and the buffer is empty only if none remain |
| ViewControl.AdcView.FindLeast | benchmarks/NPB3.4-OMP/DC/extbuild.c:471-494 | The record chosen is the least of the first records of all chunks |
| ViewControl.AdcView.MultiWayMerge | benchmarks/NPB3.4-OMP/DC/extbuild.c:418-552 | The rows written are the group-by of the rows taken, which are a permutation of all runs: nothing is lost or read twice; it fails exactly when no record per chunk fits into memory |
| ViewControl.SubChunkIs | benchmarks/NPB3.4-OMP/DC/extbuild.c:450 | As many records of each chunk are read at a time as fit into the memory for all chunks together |
| MergeSteps.MergedNext | benchmarks/NPB3.4-OMP/DC/extbuild.c:495-521 | One pass takes exactly the least record, which joins the output buffer or replaces it |
| ViewControl.AdcView.ComputeView | benchmarks/NPB3.4-OMP/DC/extbuild.c:928-961 | Whether spilled or not, the view appended is the aggregate of the selected rows; it fails exactly when memory does not suffice, and then the view file is unchanged |
| ViewControl.RouteIrrelevant | benchmarks/NPB3.4-OMP/DC/extbuild.c:944-960 | Spilling and merging gives the same rows and the same totals as the in-memory tree, the totals are those of the input rows; the checksums are the same if and only if the term differences of every measure add up to zero, which with one measure means that no product of a row number and a measure is negative as a 64-bit number |
| ExternalSortModel.MergeDone | benchmarks/NPB3.4-OMP/DC/extbuild.c:418-552 | A group-by of a permutation of the runs is the aggregate of the original rows |
| CubeChecksum.TermsAgree | benchmarks/NPB3.4-OMP/DC/rbt.c:163-166 | The unsigned and the signed checksum term agree if and only if the 64-bit product is not negative |
| CubeChecksum.TermIs | benchmarks/NPB3.4-OMP/DC/rbt.c:165 | While the product of a number and a measure is a 64-bit number that is not negative, both terms are its remainder modulo 31415 |
| CubeChecksum.ChecksumsAgree | benchmarks/NPB3.4-OMP/DC/extbuild.c:515-518 | With one measure both writers compute the same checksum if and only if no product of a row number and a measure is negative as a 64-bit number: wrong terms are always too large, so they never cancel |
| CubeChecksum.MeasuresAgree | benchmarks/NPB3.4-OMP/DC/extbuild.c:515-518 | With any number of measures both writers compute the same checksums if and only if for every measure the differences of the terms, with each writer's numbering, add up to zero |
| CubeChecksum.NegativeMeasureDiffers | benchmarks/NPB3.4-OMP/DC/extbuild.c:515-518 | One row with the measure -1 makes the checksums differ |
| CubeChecksum.PrefixesAgree | benchmarks/NPB3.4-OMP/DC/extbuild.c:515-518 | With any number of measures the writers agree after every row if and only if their terms agree for every row and measure, each with its own numbering |
| CubeChecksum.OneMeasureOnly | benchmarks/NPB3.4-OMP/DC/rbt.c:163-166 | The writers agree on all rows whose products are not negative if and only if there is at most one measure |
| CubeChecksum.SmallMeasures | benchmarks/NPB3.4-OMP/DC/extbuild.c:545-548 | Non-negative measures that are small for the number of input rows guarantee that condition |
| CubeChecksum.ChecksumsDiffer | benchmarks/NPB3.4-OMP/DC/rbt.c:163-166 | For every number of measures from two on, a single row of ones makes the checksums differ, because the in-memory writer numbers measures and not rows |
| CubeChecksum.TotalsConserved | benchmarks/NPB3.4-OMP/DC/rbt.c:163-164 | The totals of a view are the totals of the rows it was made from |
| RowFile.ReadBack | benchmarks/NPB3.4-OMP/DC/extbuild.c:328-330 | Reading the k-th record of written rows gives the k-th row back |
| RowFile.EncodeIs | benchmarks/NPB3.4-OMP/DC/rbt.c:183-187 | A record holds its measures, as two unsigned words each with the low one first, and then its dimensions |
| RowFile.RecordsRead | benchmarks/NPB3.4-OMP/DC/extbuild.c:328-330 | Whatever words stand at a place of the file, they read as one sequence of rows of the parent's shape |
| ViewControl.SelectToView | benchmarks/NPB3.4-OMP/DC/extbuild.c:553-558 | The selected dimensions in the order of the selection, and all measures |
| CubeGroups.ViewOfView | benchmarks/NPB3.4-OMP/DC/extbuild.c:898-904 | A view computed from another view is the view of the original rows onto the corresponding columns |
| CubeGroups.ProjectAggregate | benchmarks/NPB3.4-OMP/DC/extbuild.c:928-943 | Aggregating before a projection does not change the groups and sums after it |
| Tuples.GetRegTupleFromBin64 | benchmarks/NPB3.4-OMP/DC/jobcntl.c:298-312 | The column numbers of the set dimensions, ascending |
| Tuples.GetRegTupleFromParent | benchmarks/NPB3.4-OMP/DC/jobcntl.c:328-345 | The column numbers of the child's dimensions among the parent's |
| Tuples.FromParentPicks | benchmarks/NPB3.4-OMP/DC/jobcntl.c:340-344 | The remapped column numbers pick exactly the child's columns out of the parent's, whenever the parent has them all |
| Tuples.GroupbyTuple | benchmarks/NPB3.4-OMP/DC/extbuild.c:880-883 | The 32-bit form of a tuple has exactly the dimensions of the 64-bit form |
| Tuples.NumberOfOnes | benchmarks/NPB3.4-OMP/DC/jobcntl.c:287-297 | The number of set bits |
| Tuples.SubsetTestComplete | benchmarks/NPB3.4-OMP/DC/jobcntl.c:128 | The bit test succeeds whenever the dimensions are contained |
| Tuples.CountTupleOnes | benchmarks/NPB3.4-OMP/DC/jobcntl.c:403-412 | The number of dimensions of a right-aligned tuple |
| Tuples.CreateBinTuple | benchmarks/NPB3.4-OMP/DC/jobcntl.c:346-353 | The word has exactly the dimensions named in the size file, for every number of dimensions |
| Tuples.SelectedSelects | benchmarks/NPB3.4-OMP/DC/jobcntl.c:298-312 | Turning a tuple into column numbers and selecting these gives the tuple back |
| Tuples.SelectedAscends | benchmarks/NPB3.4-OMP/DC/jobcntl.c:298-312 | The column numbers ascend |
| CubeTask.Task.constructor | benchmarks/NPB3.4-OMP/DC/extbuild.c:688-714 | The empty job pool and the layer table are valid |
| CubeTask.Task.ChooseInLayer | benchmarks/NPB3.4-OMP/DC/jobcntl.c:119-160 | Within a layer a prefixed parent is preferred, then one that shares the sort order, then any superset, each with the fewest rows |
| CubeTask.Task.GetParent | benchmarks/NPB3.4-OMP/DC/jobcntl.c:91-188 | The parent found is an earlier view with all the dimensions, described exactly by the fields set, and no superset has fewer dimensions; among the views with as many dimensions it is the smallest of its kind, and none suits as a preferred kind; none is found exactly when no earlier view has all the dimensions |
| ParentKinds.SuitsIs | benchmarks/NPB3.4-OMP/DC/jobcntl.c:115-149 | The tests by masks tell the kinds of parents exactly: a superset; one that agrees with the child on every dimension up to the last one of the child; one that has the first dimension of the child and none before it |
| CubeTask.Task.InitAdcViewCntl | benchmarks/NPB3.4-OMP/DC/extbuild.c:723-749 | The rows to read are those of the parent's view in the view file, or those of the input |
| CubeTask.Task.JobPoolUpdate | benchmarks/NPB3.4-OMP/DC/jobcntl.c:80-90 | The pool gains the job of the new view and every earlier view keeps its job |
| CubePool.PoolNext | benchmarks/NPB3.4-OMP/DC/jobcntl.c:80-90 | The slot used is inside its layer and was free; it records the offset and the row count of the new view, and every other view keeps its job |
| CubeTask.Task.ComputeGroupby | benchmarks/NPB3.4-OMP/DC/extbuild.c:873-984 | One pass appends the group-by of the rows read, those of the input or of what stands at the place recorded for an earlier view with all the dimensions, and adds its checksums to the totals. It succeeds exactly when these rows fit into memory; otherwise the views made stay as they were |
| CubeTask.Task.ComputeGivenGroupbys | benchmarks/NPB3.4-OMP/DC/extbuild.c:859-988 | For every list of different tuples: the views made are those of the list up to the first whose rows do not fit into memory, and the run succeeds exactly when all are made. The offset recorded for a view is its place in the file if and only if all views before it have fewer than 2^32 bytes; a view is the group-by of the original input, whatever views it was computed from, if all views before the last one before it have; so the file is the concatenation of the group-bys if all views but the last two have. The run succeeds whenever the input has fewer rows than the tree has nodes, or fewer than 1024 trees full with room for 1024 records |
| CubeTask.ReadRight | benchmarks/NPB3.4-OMP/DC/extbuild.c:723-749 | Read from any right parent that stands at its place, the view is the one computed from the input |
| CubeTask.LargeRun | benchmarks/NPB3.4-OMP/DC/extbuild.c:965-966 | A run of two views over 2^28 rows that reports success and after which the second view does not stand where its job says |
| ViewLog.RecordedIs | benchmarks/NPB3.4-OMP/DC/extbuild.c:965-966 | The file offset accumulated by 32-bit products is never behind the end of the view file, and is the end if and only if every view has fewer than 2^32 bytes |
| ViewLog.EntryStands | benchmarks/NPB3.4-OMP/DC/extbuild.c:965-966 | The place recorded for a view is inside the file, it is where the view begins if and only if all views before it have fewer than 2^32 bytes, and then the view stands there |
| ViewLog.SmallIs | benchmarks/NPB3.4-OMP/DC/extbuild.c:965-966 | Whether the views made are that small can be seen from the input: it is so exactly for the group-bys of the input |
| ViewLog.SmallInput | benchmarks/NPB3.4-OMP/DC/extbuild.c:965-966 | No view of an input of fewer than 2^32 bytes has more |
| ViewLog.OffsetWraps | benchmarks/NPB3.4-OMP/DC/extbuild.c:965-966 | For 2^28 rows with two dimensions and two measures, the view onto the first dimension, made after the view onto both, gets the offset 2^31 and does not stand there |
| CubePool.RoomForNext | benchmarks/NPB3.4-OMP/DC/jobcntl.c:84-89 | A layer always has room for a tuple that was not made before |
| Layers.NumOfCombsFromNbyK | benchmarks/NPB3.4-OMP/DC/jobcntl.c:74-79 | The step-by-step quotient is exactly the binomial coefficient, without 32-bit overflow for up to 28 dimensions |
| Layers.SetUpLayers | benchmarks/NPB3.4-OMP/DC/extbuild.c:706-712 | Every layer starts where the binomial sums say |
| Layers.LayersTile | benchmarks/NPB3.4-OMP/DC/extbuild.c:688-714 | The layers fill slots 1 to 2^n - 1 |
| Layers.SlotsApart | benchmarks/NPB3.4-OMP/DC/extbuild.c:706-712 | Slots of different layers never coincide, and all are in the pool |
| Layers.LayerRoom | benchmarks/NPB3.4-OMP/DC/extbuild.c:706-712 | Different tuples with k dimensions are at most as many as the slots of layer k |
| HeapSort.Restore | benchmarks/NPB3.4-OMP/DC/jobcntl.c:366-389 | Sifting one element down extends the heap by it; only the heap part is permuted |
| HeapSort.Sort | benchmarks/NPB3.4-OMP/DC/jobcntl.c:390-402 | The array ends as an ascending permutation of the pairs, the same for all tasks |
| HeapSort.HeapSortedIs | benchmarks/NPB3.4-OMP/DC/jobcntl.c:390-402 | The result that all tasks compute from the same pairs is an ascending permutation of them |
| Schedule.Deal | benchmarks/NPB3.4-OMP/DC/jobcntl.c:473-487 | Each task keeps exactly the tuples of its turns, and the counts and totals of all tasks are those of their hands |
| Schedule.DealtOnce | benchmarks/NPB3.4-OMP/DC/jobcntl.c:473-487 | Together the tasks have every view exactly once |
| Schedule.CountsFair | benchmarks/NPB3.4-OMP/DC/jobcntl.c:473-487 | The numbers of views of two tasks differ by at most one |
| Schedule.TotalsFair | benchmarks/NPB3.4-OMP/DC/jobcntl.c:473-487 | The total sizes of any two tasks differ by at most the largest single view |
| Schedule.MultiFileProcJobs | benchmarks/NPB3.4-OMP/DC/jobcntl.c:453-513 | The task's list is a permutation of its hand with the most dimensions first |
| Schedule.SupersetsFirst | benchmarks/NPB3.4-OMP/DC/jobcntl.c:494-508 | In such a list no later tuple properly contains an earlier one |
| Schedule.PartitionCube | benchmarks/NPB3.4-OMP/DC/jobcntl.c:514-560 | From the entries of the size file, with sizes clipped to the number of input records, the list of the task is its share of the views in descending order of size, rearranged with the most dimensions first |
| Schedule.DealtBySize | benchmarks/NPB3.4-OMP/DC/jobcntl.c:531-551 | The entries of the size file have an order along which the smaller of size and number of input records falls; in each turn the next entry is dealt, and the totals of these sizes of any two tasks differ by at most the largest |
| Schedule.Serpentine | benchmarks/NPB3.4-OMP/DC/jobcntl.c:473-487 | The turns go up to the last task and back again: in every double round each task has one turn on the way up and one, mirrored, on the way down |
| Schedule.ListTuples | benchmarks/NPB3.4-OMP/DC/jobcntl.c:551-553 | The views named by the list are, up to order, those that the task was dealt |
| WholeCube.RunTask | benchmarks/NPB3.4-OMP/DC/dc.c:210-235 | From the size file to the view file of one task: its list is its share of the views, in an order in which a view with a proper superset in the list is always computed from another view; the views are the group-bys of the input under the exact conditions of ComputeGivenGroupbys |
| WholeCube.ShareBySize | benchmarks/NPB3.4-OMP/DC/jobcntl.c:531-551 | The share of a task consists of the selections of exactly the entries dealt to it in the order by size |
| WholeCube.SharesTogether | benchmarks/NPB3.4-OMP/DC/jobcntl.c:473-487 | The lists of all tasks together have every entry of the size file exactly as often as the size file |
| WholeCube.EachOnce | benchmarks/NPB3.4-OMP/DC/jobcntl.c:473-487 | Every view of the size file is in the list of exactly one task, and there exactly once |
| WholeCube.MakeCube | benchmarks/NPB3.4-OMP/DC/dc.c:170-294 | For every number of tasks up to 256, the lists together have every view exactly once, each task has the views of the entries dealt to it in an order of falling sizes, and for an input of fewer than 2^32 bytes for which the memory suffices the file of each task holds exactly the group-bys of the input onto the tuples of its list |
| UniqueRandom.PermuteInjective | benchmarks/sysbench/src/sb_rand.c:299-308 | The permutation never maps two values to one |
| UniqueRandom.PermuteBijective | benchmarks/sysbench/src/sb_rand.c:299-308 | Every 32-bit value has exactly one preimage |
| UniqueRandom.PermuteIs | benchmarks/sysbench/src/sb_rand.c:299-308 | Below the prime 4294967291, the result is the number below the prime that is congruent to the square, for the upper half to the negated square; from the prime on it is the argument |
| UniqueRandom.SignedSquareOnce | benchmarks/sysbench/src/sb_rand.c:299-308 | There is only one such number |
| UniqueRandom.ValueIs | benchmarks/sysbench/src/sb_rand.c:325-326 | The result for a counter reading: its signed square, plus the offset modulo 2^32, with exactly the bits of 0x5bf03635 flipped, and the signed square of that |
| UniqueRandom.SeededIs | benchmarks/sysbench/src/sb_rand.c:311-317 | The initial counter and offset are the signed squares of the sum of a signed square and a constant |
| UniqueRandom.ReturnedIs | benchmarks/sysbench/src/sb_rand.c:321-327 | In every run of any threads, call number n returns the scrambled reading of a counter that has moved on by n |
| UniqueRandom.ValueInjective | benchmarks/sysbench/src/sb_rand.c:321-327 | Different counter readings give different results |
| UniqueRandom.UniqueValues | benchmarks/sysbench/src/sb_rand.c:321-327 | Under any interleaving of any threads, calls fewer than 2^32 increments apart return different values |
| UniqueRandom.EveryReading | benchmarks/sysbench/src/sb_rand.c:321-327 | Of any 2^32 consecutive counter readings exactly one gives a given value |
| UniqueRandom.AllReturned | benchmarks/sysbench/src/sb_rand.c:321-327 | In every run no call is lost: when none is under way, every call has returned |
| UniqueRandom.EveryValue | benchmarks/sysbench/src/sb_rand.c:321-327 | Under any interleaving of any threads, when 2^32 consecutively numbered calls have returned, each 32-bit value has been returned by exactly one of them |
| NumberTheory.PrimeP | benchmarks/sysbench/src/sb_rand.c:301 | 4294967291 is prime |
| NumberTheory.NoOppositeSquares | benchmarks/sysbench/src/sb_rand.c:306-307 | Modulo a prime that is 3 modulo 4, a square is never the negative of a nonzero square |
| RandomStream.Randlc | benchmarks/NPB3.4-OMP/IS/is.c:316-371 | On 23-bit halves, exactly a * x modulo 2^46, with every intermediate value below 2^53 |
| RandomStream.FindMySeed | benchmarks/NPB3.4-OMP/IS/is.c:390-423 | The place in the stream behind the skipped numbers, and one step further than asked when a later thread has nothing to skip |
| RandomStream.CreateSeq | benchmarks/NPB3.4-OMP/IS/is.c:431-469 | Each thread fills its share with exactly the keys that a single thread would put there |
| RandomStream.OneShare | benchmarks/NPB3.4-OMP/IS/is.c:448-451 | Every key belongs to exactly one thread's share, for every number of threads |
| RandomStream.KeyInRange | benchmarks/NPB3.4-OMP/IS/is.c:457-467 | Every generated key is at least 0 and below the largest key value |
| RandomStream.KeyIs | benchmarks/NPB3.4-OMP/IS/is.c:457-467 | The i-th key is the integer part of a quarter of the largest key value times the sum of the numbers 4i + 1 to 4i + 4 of the stream |
| RandomStream.ShareLeast | benchmarks/NPB3.4-OMP/IS/is.c:448-451 | The shares are no larger than needed to cover all keys |
| BucketScatter.CountBuckets | benchmarks/NPB3.4-OMP/IS/is.c:660-666 | The number of the thread's keys in each bucket |
| BucketScatter.BucketPointers | benchmarks/NPB3.4-OMP/IS/is.c:670-680 | The thread's pointers start behind all smaller buckets and behind the same bucket's keys of lower threads |
| BucketScatter.FinalPointers | benchmarks/NPB3.4-OMP/IS/is.c:692-696 | The pointers of every thread end at the ends of the buckets |
| BucketScatter.TargetIsRank | benchmarks/NPB3.4-OMP/IS/is.c:685-689 | The place where a key goes is its rank by bucket, thread and position |
| BucketScatter.Scattered | benchmarks/NPB3.4-OMP/IS/is.c:684-689 | Under any interleaving of the threads no write leaves the buffer, and when all are through the buffer is a permutation of the keys with the buckets in order, and every thread's pointers stand behind its keys of each bucket |
| BucketRanking.RanksAllKeys | benchmarks/NPB3.4-OMP/IS/is.c:704-734 | However the clearing, counting and adding loops of the buckets are interleaved, no write leaves the array, and when all buckets are through every entry is the number of keys up to it |
| BucketRanking.EnoughRanking | benchmarks/NPB3.4-OMP/IS/is.c:704-734 | A bucket of w key values is ranked after at most 2w + 3 iterations plus one for every key |
| IntegerSort.RanksOfKeys | benchmarks/NPB3.4-OMP/IS/is.c:717-732 | Ranks in the buffer are ranks among the original keys |
| IntegerSort.Verified | benchmarks/NPB3.4-OMP/IS/is.c:546-553 | However the buckets are interleaved, no write leaves the array, and in the end the keys are a sorted permutation |
| ParallelSort.SortsAllKeys | benchmarks/NPB3.4-OMP/IS/is.c:528-734 | From counting to the final pass, for every number of threads, every assignment of keys, every interleaving within each phase and any old array contents: no write leaves an array, the ranks behind the ranking are those of the original keys, the keys end as a sorted permutation of the original ones, and every phase ends when its threads get enough turns |
| IntegerSort.CountUnsorted | benchmarks/NPB3.4-OMP/IS/is.c:589-598 | The final count is 0 exactly when the keys are sorted |
| ParallelSort.SortBenchmark | benchmarks/NPB3.4-OMP/IS/is.c:940-976 | The whole benchmark: keys from the random stream, two of them replaced in each iteration, meet what the phases need; whatever the interleavings, once the phases are through the result is a sorted permutation of exactly these keys and the final count is 0, and they are through when the threads get enough turns |
| EnergyGrid.GridSearch | benchmarks/XSBench/src/Simulation.c:350-393 | The last grid point not above the energy, clamped to the first and the last interval |
| EnergyGrid.BuildIndexGrid | benchmarks/XSBench/src/GridInit.c:94-119 | For every union point and nuclide, the nuclide's interval at that point |
| EnergyGrid.SortedUnion | benchmarks/XSBench/src/GridInit.c:76-86 | Sorting all grid points together gives their union |
| EnergyGrid.SameInterval | benchmarks/XSBench/src/Simulation.c:234-242 | Between union points, and below and above all of them, the intervals do not change |
| EnergyGrid.Lookup | benchmarks/XSBench/src/Simulation.c:222-242 | For every energy the lookup through the index selects the same interval as the binary search in the nuclide's own grid |
| SkipAhead.LcgStep | benchmarks/XSBench/src/Simulation.c:432-440 | 2806196910506780709 * seed + 1 modulo 2^63, in wrapping 64-bit arithmetic |
| SkipAhead.FastForward | benchmarks/XSBench/src/Simulation.c:442-469 | Equals n successive steps for every 64-bit n, in as many rounds as n modulo 2^63 has binary digits |
| SkipAhead.FullPeriod | benchmarks/XSBench/src/Simulation.c:449 | Steps may be counted modulo 2^63, because 2^63 steps lead back to the seed |
| Crc32.MakeCrcTable | benchmarks/sysbench/src/tests/fileio/crc32.c:104-137 | Table k holds every byte followed by k zero bytes, and tables 4 to 7 the byte-reversed entries |
| Crc32.PolyIs | benchmarks/sysbench/src/tests/fileio/crc32.c:110-115 | The listed terms give the exclusive-or pattern |
| Crc32.UpdateIsSerial | benchmarks/sysbench/src/tests/fileio/crc32.c:188-189 | The byte-wise step computes what eight steps of the bit-serial register compute |
| Crc32.BytesAreSerial | benchmarks/sysbench/src/tests/fileio/crc32.c:217-225 | The byte-wise register equals the bit-serial register over every buffer |
| Crc32.WordStep | benchmarks/sysbench/src/tests/fileio/crc32.c:231-233 | Slicing by four equals four byte steps |
| Crc32.BigSlicedIs | benchmarks/sysbench/src/tests/fileio/crc32.c:271-273 | On reversed registers the big-endian word step is the little-endian one |
| Crc32.BigUpdateIs | benchmarks/sysbench/src/tests/fileio/crc32.c:288 | On reversed registers the big-endian byte step is the byte step |
| Crc32.CrcLittle | benchmarks/sysbench/src/tests/fileio/crc32.c:237-268 | For every buffer, length, alignment and seed, the byte-wise CRC |
| Crc32.CrcBig | benchmarks/sysbench/src/tests/fileio/crc32.c:277-310 | The same on a big-endian machine |
| Crc32.Crc32 | benchmarks/sysbench/src/tests/fileio/crc32.c:194-226 | On either kind of machine, the bit-serial CRC that starts and ends with the complement of the register, and 0 for a missing buffer |
| Crc32.CrcIsSerial | benchmarks/sysbench/src/tests/fileio/crc32.c:241-267 | The CRC is the complement of the bit-serial register that starts with the complement of the seed |
| Crc32.Residue | benchmarks/sysbench/src/tests/fileio/crc32.c:241-267 | For every seed and buffer, the CRC of the buffer followed by its own CRC, lowest byte first, is 0x2144df1c |
| Crc32.CheckValue | benchmarks/sysbench/src/tests/fileio/crc32.c:194-226 | The CRC of the digits 1 to 9 is 0xcbf43926 |
| Crc32.CrcChain | benchmarks/sysbench/src/tests/fileio/crc32.c:194-226 | The CRC of a concatenation is the CRC of the second part continued from that of the first |
| Barrier.InitInv | benchmarks/sysbench/src/sb_barrier.c:38-56 | Initialisation fails exactly for a count of 0 |
| Barrier.RunKeeps | benchmarks/sysbench/src/sb_barrier.c:59-97 | Every run of any threads, with spurious wake-ups, keeps the barrier's invariant |
| Barrier.LeavesInTime | benchmarks/sysbench/src/sb_barrier.c:65-96 | A thread about to return belongs to a generation with all arrivals, one leader and one finished callback; if the callback failed it returns a negative value, and the values of leaders and others are exact |
| Barrier.OneLeader | benchmarks/sysbench/src/sb_barrier.c:65-82 | No generation ever has two leaders, two callback runs or too many arrivals, and it has a leader exactly when all have arrived |
| Barrier.ErrorStays | benchmarks/sysbench/src/sb_barrier.c:74-96 | Once any callback has failed, then after every continuation of the run every thread about to return that is not a leader returns -1, whichever generation it belongs to |
| Barrier.LaterGenerationFails | benchmarks/sysbench/src/sb_barrier.c:74-96 | A run of two generations in which the first callback fails, the second succeeds, and a thread of the second returns -1 |
| Barrier.LateLeaverFails | benchmarks/sysbench/src/sb_barrier.c:74-96 | A run in which the second callback fails before a thread of the successful first generation has left, which then returns -1 |
| Barrier.CanLeave | benchmarks/sysbench/src/sb_barrier.c:85-93 | A waiting thread whose generation is over can leave |
| Histogram.StepKeeps | benchmarks/sysbench/src/sb_histogram.c:102-218 | Every atomic step of an update or a report keeps the conservation invariant |
| Histogram.NothingLost | benchmarks/sysbench/src/sb_histogram.c:102-292 | In every interleaving each update is counted exactly once among slots, an unfinished report, the cumulative array and checkpoint resets, and whenever the lock is free the event count is the sum of the cumulative array |
| Histogram.ReportEnds | benchmarks/sysbench/src/sb_histogram.c:245-292 | A report stays the report it is until the lock is free; a checkpoint ends with an empty cumulative array and an event count of 0, and no other report throws counts away |
| Histogram.NothingDropped | benchmarks/sysbench/src/sb_histogram.c:102-264 | In every run without checkpoints each update is in the slots, in an unfinished report or in the cumulative array |
| Histogram.FindPercentile | benchmarks/sysbench/src/sb_histogram.c:169-175 | The least bin whose prefix reaches the target, or the array size if none does |
| Histogram.EvaluatePercentile | benchmarks/sysbench/src/sb_histogram.c:225-241 | For percentiles up to 100 the bin is inside the array and is the first one with which the count exceeds the percentile of the event count less one half |

## Left out

- BTree.BPlusTree.Delete: the records and nodes that deletion frees are removed from the arenas; reuse of freed memory is not modelled.
- BTree.BPlusTree.FindRange: the caller's result arrays are returned as sequences, so their capacity is not modelled.
- RedBlack.RBTree.TreeInsert: a row of a new group needs a free node in the pool, which run formation guarantees by spilling when the pool is full; with none left the program would write behind its pool.
- ViewControl.AdcView.MultiWayMerge: the merge buffer is an array of records; that it shares its memory with the emptied tree is not modelled.
- CubeTask.Task.ComputeGivenGroupbys: when a view other than the last two has 2^32 bytes or more, the views after its successor are only said to be the aggregates of the rows that stand at the places recorded for their parents. The view-size file and its verification are left out.
- WholeCube.MakeCube: the tasks run one after the other; they share the input, which they only read. The totals that the tasks add up for the printed report are left out.
- Schedule.Deal: the totals per task do not wrap around at 64 bits; the program does not use them.
- RandomStream.Randlc: doubles are modelled by the integers they hold; rounding never occurs because every value is below 2^53.
- EnergyGrid.BuildIndexGrid: the grids and the index are two-dimensional here and flattened in the program; `qsort` is taken to sort.
- ParallelSort.SortsAllKeys: every iteration of a loop over keys is one step; reading and writing a rank are not separated, as no two threads work on one bucket.
- ParallelSort.SortBenchmark: only the last iteration's ranking is run; it overwrites what the earlier ones leave, and holds for any old contents.
- Barrier.RunKeeps: the serial number does not wrap around.
- Histogram.NothingLost: counters do not wrap around at 64 bits, and the memset of a checkpoint is one step, as it happens under the lock.
- Histogram.EvaluatePercentile: percentile arithmetic is exact, without the rounding of doubles for very large event counts.
- The byte order of the group-by file: tuples are written and read with the same byte swap, which cancels.
- The copy of the B+ tree with a throughput alarm, tree printing, the level queue, slab growth and destruction of whole trees.
- The prefixed and shared-sort aggregation of the data cube, which are compiled out, file naming and input/output failures, and the factorization that generates the input tuples.
- The hash grid, cross-section interpolation, and binary input and output of the cross-section benchmark.
- The bin arithmetic with logarithms and the printing of the histogram: the bin of an update is an arbitrary integer, clamped.
- The non-bucket variant of the integer sort, and its partial verification against constant tables.
- Database drivers, scripting bindings, timers, loggers, option parsing, scripts and machine images.
