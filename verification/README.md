# Graph, buffer and shape algorithms of the MLIR-HLO passes

This project models the algorithms of the MLIR-HLO repository that carry state, loops or index
arithmetic, and proves what they are for.

| part | modules | main results |
|---|---|---|
| incremental cycle detection | `Digraphs`, `OrderedSets`, `RankOrder`, `GraphCycles` | `InsertEdge` accepts an edge if and only if the graph stays acyclic, `IsReachable` is reachability, `ContractEdge` merges exactly and keeps the node with more edges, the post order is topological, and every public method keeps the class invariant |
| minimum broadcast shapes | `IndexArithmetic`, `BroadcastColumns`, `MinimumBroadcast` | the emitted loop stores exactly the collapsed groups, in bounds; the reduced shapes address the same data |
| live ranges and packing | `UseIntervals`, `Useranges`, `IntervalAlgebra`, `IntervalMerging`, `MergeConditions`, `BufferPacking`, `PackingStrategy` | interval operations as sets of points, with the exact conditions under which subtraction is right and merging reaches normal form; no byte of a packed buffer is shared; every allocation, in the given order, goes into the first host that can take it |
| deallocation | `BufferProgram`, `ValueClasses`, `Deallocation*`, `Deallocate`, `RetainLowering`, `Nullability` | exactly when a block can be transformed; a transformed block frees or hands out every owned buffer exactly once, and exactly when it touches no freed one; lowering and simplification refine the meaning of `retain` |
| buffer reuse | `BufferReuse` | merging a free with a later allocation keeps the discipline and the observed results; exactly which pairs are merged, and which are missed |
| constant folding | `RowMajor`, `ReverseFold`, `PadFold`, `SliceFold`, `ConcatFold`, `ConcatSlice` | the flat-buffer folders agree with the multi-index definitions; slicing a concatenation may be moved into it |
| value order | `ValueOrder` | a strict total order over nested regions |
| convolution dimension numbers | `ConvDims` | printing and parsing is a round trip if and only if no group repeats a position |

`Options` and `Sequences` hold a small option type and facts about sequences.

Code that works in place is modelled in place: `GraphCycles`, `OrderedSet`, `Deallocator` and
`Block` are classes, the emitted program of the minimum broadcast shapes and the reversal work on
arrays, and the loops of the source are loops with invariants. Vectors that the source edits through
iterators are sequences with an index as the cursor, reassigned where the source inserts or erases.
Every such method is tied to a function or a property stated independently of its loop; the lemmas
are about those functions.

Integers are unbounded. Sizes, ranks, ids and offsets that the source keeps non-negative are natural
numbers.

## Conditions the results rest on

* *Deallocation.* A run starts in a state that the pass knows about: each owned buffer is held by one
  indicator, and indicators agree with the memrefs they were recorded for (`DeallocationSafety.Admits`).
  Operations are legal (`DeallocationSteps.LegalOp`): no operation frees a memref that is merely
  borrowed. The pass then succeeds if and only if every memref that the block frees goes back to one that has
  an indicator at the entry or that an earlier operation allocates (`DeallocationSafety.TransformedExactly`;
  the failure is deallocation/transforms/deallocate.cc:518-523). Nothing else is needed for
  `DeallocationExactness.DeallocatedBlockRunsExactly`, which says
  exactly when the transformed block touches no freed buffer and yields live memrefs: no operation behind
  the place of an early retain touches its buffer, and every owned buffer that a yielded memref names is
  kept by its own class. Whenever no freed buffer is touched, every owned buffer is accounted for class by
  class (`DeallocationSafety.AccountedEnd`): it is live in the end if and only if its class keeps it, and
  it is freed or handed out exactly once if and only if it is not lost to a memref that the class yields
  twice.
* *Element types.* The pass aliases a result only with operands of its element type
  (deallocation/transforms/deallocate.cc:549-557). `DeallocationTracking.NamesCoveredExactly` says
  exactly when the alias classes still cover the run behind an operation; for a view it is so if and only
  if it has the element type of its source or is in the owner's class already. Where the classes cover the
  end of the block, as they do when all element types agree, the block is safe and accounts for every
  buffer (`DeallocationSafety.CoveredBlockIsSafe`, `DeallocationSafety.DeallocatedBlockIsSafe`).
  `DeallocationLimits` has a view of another element type whose buffer is freed before its use, and one
  that does no harm.
* *Repeated yields.* `llvm::find` maps a memref that is yielded twice to its first place
  (deallocation/transforms/deallocate.cc:284-285), so the first result of the retain is overwritten by
  the last one. `DeallocationSafety.DeallocatedBlockIsSafe` therefore states exactly when an owned
  buffer is accounted for: if and only if the first yielded memref that carries it is not yielded
  again. With distinct yielded memrefs nothing is lost.
* *Subtraction of intervals.* The last branch of `intervalSubtract` moves past an interval of B after
  it erased an interval of A (analysis/userange_analysis.cc:281-284), although that interval of B may
  reach into the next interval of A. `IntervalAlgebra.IntervalSubtract` is exact if and only if no
  interval of B that swallows the rest of an interval of A reaches the next one; it is so when every
  interval of B lies inside one of A.
* *Merging of intervals.* The source promises that all overlapping and contiguous intervals are merged
  (analysis/userange_analysis.cc:318-319). It is so if and only if the cursor never moves past an
  interval that has just been merged and reaches the next interval of B
  (analysis/userange_analysis.cc:331-335): `IntervalMerging.MergedSortedExactly` for sorted disjoint
  vectors, `IntervalMerging.MergedSpacedExactly` for vectors in normal form, which is what
  `Useranges.ComputeInterval` returns. For the latter `MergeConditions.MergedFullyExactly` puts the
  condition in terms of A and B: no interval of B that continues one of A and reaches a later one reaches,
  through it, the next interval of B. `IntervalMerging.MergeCanOverlap` has vectors on which it fails.
  Coverage holds always.
* *Slices of concatenations.* For an empty slice placed behind position zero at an operand of size zero,
  and for no other, the pattern hands a reversed range of operands to the new concatenation
  (mhlo/IR/hlo_ops.cc:5281): `ConcatSlice.BackwardsExactly`. `ConcatSlice.RangeCanBeReversed` has the
  sizes 2, 0, 2 and the slice from 2 to 2, for which the range begins at operand 2 and ends in front of
  operand 1, and the pattern rewrites.
* *Buffer reuse.* A dealloc only looks at the next alloc, and a merge takes that alloc away from the deallocs
  beside it (deallocation/transforms/buffer_reuse.cc:332-356). `BufferReuse.LeftOverExactly` says exactly when
  the result still has a dealloc that could be merged with its next alloc: when a dealloc and a static alloc of
  its type are both kept and every alloc between them is merged with others. `BufferReuse.MergeCanBeMissed` has
  two deallocs in front of two allocs of their types in the opposite order. With at most one dealloc between
  two allocs nothing is missed.
* *Documentation.* utils/cycle_detector.h:128 says that any edge is removed if it exists; the code
  needs the edge to be present, because `OrderedSet::Erase` does. The model follows the code.

## Model

| member | source | states |
|---|---|---|
| OrderedSets.OrderedSet.Insert | utils/cycle_detector.h:48-55 | adds the value, at the end of the sequence, and returns whether it was new |
| OrderedSets.OrderedSet.Erase | utils/cycle_detector.h:59-69 | removes a present value by moving the last one into its place |
| OrderedSets.OrderedSet.Clear | utils/cycle_detector.h:76-79 | leaves the set empty |
| OrderedSets.OrderedSet.Contains | utils/cycle_detector.h:81 | membership |
| OrderedSets.OrderedSet.Size | utils/cycle_detector.h:82 | the number of elements of the set, not only of the sequence |
| Digraphs.ContractedMeaning | utils/cycle_detector.cc:289-308 | a contracted graph isolates the removed node, gives the survivor the union of both nodes' other edges and leaves every other edge alone |
| Digraphs.ContractedIsAcyclic | utils/cycle_detector.cc:300-308 | merging two nodes without a path between them keeps the graph acyclic, so no re-insertion is refused |
| RankOrder.SortSorts | utils/cycle_detector.cc:222-232 | sorting different ranks gives rising ranks |
| RankOrder.MergeRanks | utils/cycle_detector.cc:211-213 | the loop of `std::merge` computes the merge of the two rank lists |
| RankOrder.MergeMembers | utils/cycle_detector.cc:211-213 | the merged list holds exactly the ranks of both lists |
| RankOrder.MergeIncreases | utils/cycle_detector.cc:211-213 | merging two rising lists of different ranks gives a rising list |
| RankOrder.MergePosition | utils/cycle_detector.cc:211-218 | a backward node never gets a greater rank and a forward node never a smaller one |
| RankOrder.ReorderedRanks | utils/cycle_detector.cc:201-219 | reordering permutes ranks: the new ranks are a ranking again |
| GraphCycles.ReorderedEdge | utils/cycle_detector.cc:201-219 | an edge whose ends the two searches treat alike rises again after the reordering |
| GraphCycles.ReorderRestoresOrder | utils/cycle_detector.cc:125-138 | after the reordering the ranks grow along every edge, the new one included |
| GraphCycles.InsertionRestoresOrder | utils/cycle_detector.cc:125-138 | the same for the ranks the class computes, with only nodes ranked between the two ends changed |
| GraphCycles.LowerRankUnreachable | utils/cycle_detector.cc:260-263 | a node of lower rank cannot be reached |
| GraphCycles.SearchIsComplete | utils/cycle_detector.cc:265-266 | a bounded search that does not meet the bound visited everything that could lead there |
| GraphCycles.MergedEdges | utils/cycle_detector.cc:289-308 | what is left of the graph and the re-inserted edges are together the contracted graph |
| GraphCycles.GraphCycles.constructor | utils/cycle_detector.cc:71-80 | no edges, no free nodes, and the class invariant with as many nodes as asked for |
| GraphCycles.GraphCycles.PushSuccessors | utils/cycle_detector.cc:162-170 | pushes the unvisited successors ranked below the bound, or reports one ranked at the bound |
| GraphCycles.GraphCycles.ForwardDfs | utils/cycle_detector.cc:147-173 | finds a node of the bounding rank only if it is reachable; otherwise the visited nodes are reachable and closed under edges below the bound |
| GraphCycles.GraphCycles.BackwardDfs | utils/cycle_detector.cc:177-197 | the visited nodes reach the start and are closed under edges from above the bound |
| GraphCycles.GraphCycles.ClearVisitedBits | utils/cycle_detector.cc:248-252 | clears exactly the listed marks |
| GraphCycles.GraphCycles.MoveToList | utils/cycle_detector.cc:235-245 | replaces nodes by ranks, clears their marks and appends them to the list |
| GraphCycles.GraphCycles.Reorder | utils/cycle_detector.cc:201-219 | hands out the merged ranks to the sorted backward and then the sorted forward nodes and clears their marks |
| GraphCycles.GraphCycles.HasEdge | utils/cycle_detector.cc:89-91 | membership in the edge set |
| GraphCycles.GraphCycles.RemoveEdge | utils/cycle_detector.cc:93-98 | takes out exactly one present edge; the invariant holds with the same ranks |
| GraphCycles.GraphCycles.InsertEdge | utils/cycle_detector.cc:108-139 | true if and only if the graph with the edge is acyclic; the edge set grows by that edge or stays, ranks change only between the two ends and not at all on refusal, and the invariant holds |
| GraphCycles.GraphCycles.IsReachable | utils/cycle_detector.cc:254-271 | equals the existence of a path, although the search is cut at the rank of the goal |
| GraphCycles.GraphCycles.ContractEdge | utils/cycle_detector.cc:273-312 | nothing and no change if another path exists; otherwise exactly the contracted graph: without the edge itself, the survivor has at least as many edges as the freed node, and is the source of the edge on a tie |
| GraphCycles.GraphCycles.Degree | utils/cycle_detector.cc:283-284 | the number of edges that begin or end at the node |
| GraphCycles.GraphCycles.SuccessorsCopy | utils/cycle_detector.cc:314-316 | every successor once |
| GraphCycles.GraphCycles.AllNodesInPostOrder | utils/cycle_detector.cc:326-340 | every live node once, after all nodes it reaches |
| BroadcastColumns.CollapsedGroups | transforms/bufferize.cc:138-144 | no group has size one and neighbours have different broadcast sets |
| BroadcastColumns.CollapseKeepsCounts | transforms/bufferize.cc:138-144 | collapsing keeps the number of elements of the broadcast and of every shape |
| BroadcastColumns.CollapseKeepsAddress | transforms/bufferize.cc:138-144 | collapsing moves no element: every flat index of the broadcast addresses the same element of every shape |
| MinimumBroadcast.ClassifyColumn | transforms/bufferize.cc:187-230 | the broadcast set and common size of a column, and whether two shapes have different sizes other than one |
| MinimumBroadcast.GroupsFit | transforms/bufferize.cc:280-303 | a shape that takes part in a group is long enough to store it, which keeps the stores in bounds |
| MinimumBroadcast.StoreDimension | transforms/bufferize.cc:270-306 | stores one more group in every shape that is long enough and changes no other position |
| MinimumBroadcast.CarriesNext | transforms/bufferize.cc:232-262 | the loop's decision to go on or stop agrees with the collapsed groups |
| MinimumBroadcast.AbsorbColumn | transforms/bufferize.cc:232-319 | one round: the open group is closed and stored or extended |
| MinimumBroadcast.ProcessColumn | transforms/bufferize.cc:168-328 | the round for one column keeps the loop state and reports a clash |
| MinimumBroadcast.CollapseColumns | transforms/bufferize.cc:138-329 | after the loop every buffer holds all groups, and the flag is set if and only if some column has two different sizes other than one |
| MinimumBroadcast.Prepare | transforms/bufferize.cc:105-136 | the ranks, the greatest rank, and separate buffers of ones |
| MinimumBroadcast.CountLeadingOnes | transforms/bufferize.cc:341-363 | the number of leading ones |
| MinimumBroadcast.RemoveLeadingOnes | transforms/bufferize.cc:365-390 | a fresh buffer without the leading ones |
| MinimumBroadcast.SelectShapes | transforms/bufferize.cc:330-335 | trimmed buffers, or the given shapes when the flag is set |
| MinimumBroadcast.MinimumBroadcastShapes | transforms/bufferize.cc:94-338 | the minimum shapes for compatible shapes, the given shapes for all others |
| MinimumBroadcast.MinimumShapesColumns | transforms/bufferize.cc:138-144 | every output column is one or one common size, none is all ones, and neighbours have different broadcast sets |
| MinimumBroadcast.MinimumShapesCounts | transforms/bufferize.cc:138-144 | no shape changes its number of elements, nor does the broadcast of all shapes |
| MinimumBroadcast.MinimumShapesAddressSameData | transforms/bufferize.cc:94-338 | for every flat index of the broadcast result each shape supplies the same flat element before and after |
| Useranges.ComputeId | analysis/userange_analysis.cc:455-463 | twice the operation's number, even if and only if the operation reads the value and does not write it |
| Useranges.ComputeInterval | analysis/userange_analysis.cc:546-565 | intervals that are sorted, more than two ids apart, and cover exactly the ids between uses at most two apart |
| Useranges.RangesInterfere | analysis/userange_analysis.cc:525-537 | true if and only if both values are in use at a common id |
| IntervalAlgebra.SubtractRound | analysis/userange_analysis.cc:252-285 | one step of the two cursors keeps the exact account of what has been taken away |
| IntervalAlgebra.IntervalSubtract | analysis/userange_analysis.cc:248-286 | the result is exactly the set difference if and only if no interval of B swallows the rest of one of A and reaches the next; in every case nothing is added and nothing outside B is taken |
| IntervalAlgebra.InsideSubtractsCleanly | analysis/userange_analysis.cc:248-286 | the condition holds when each interval of B lies inside one interval of A |
| IntervalAlgebra.SubtractionCanLoseAPoint | analysis/userange_analysis.cc:281-284 | sorted disjoint intervals for which the condition fails |
| IntervalMerging.IntersectOverlap | analysis/userange_analysis.cc:303-314 | an overlapping pair: the overlap stays and the split-off rest comes next |
| IntervalMerging.IntervalIntersect | analysis/userange_analysis.cc:289-316 | exactly the set intersection, sorted and disjoint |
| IntervalMerging.MergeWith | analysis/userange_analysis.h:59-64 | the hull of contiguous intervals, otherwise no change |
| IntervalMerging.MergeAndEraseContiguousIntervals | analysis/userange_analysis.cc:357-375 | merges one interval in and erases the contiguous ones behind it; every point stays covered |
| IntervalMerging.IntervalMerge | analysis/userange_analysis.cc:320-353 | covers both vectors, adds only ids whose two neighbours are covered, and is sorted, disjoint and fully merged if and only if no round passes too early |
| IntervalMerging.MergedSortedExactly | analysis/userange_analysis.cc:318-353 | for sorted disjoint vectors the merge is sorted and disjoint if and only if the cursor never passes an interval that reaches the next one of B |
| IntervalMerging.MergedSpacedExactly | analysis/userange_analysis.cc:318-353 | for vectors in normal form all overlapping and contiguous intervals are merged under the same condition, and only then |
| MergeConditions.MergedFullyExactly | analysis/userange_analysis.cc:318-353 | for vectors in normal form all overlapping and contiguous intervals are merged if and only if no interval of B that continues one of A and reaches a later one reaches, through it, the next interval of B |
| MergeConditions.AbsorbedExactly | analysis/userange_analysis.cc:365-372 | in a vector in normal form exactly those following intervals are taken in that the merged one reaches itself |
| IntervalMerging.MergeCanOverlap | analysis/userange_analysis.cc:331-335 | vectors in normal form that fail the condition and whose merge overlaps itself |
| BufferPacking.ComputeGaps | transforms/buffer_packing.cc:119-141 | exactly the unused times up to the last use, or up to the greatest id if that lies behind it, with a use between neighbouring gaps |
| BufferPacking.FindGapAndUpdate | transforms/buffer_packing.cc:234-294 | finds a gap if and only if one fits, takes the first, and keeps everything in the host apart |
| BufferPacking.UpdateGap | transforms/buffer_packing.cc:258-289 | replaces the gap by what is left of it: before, under and behind the packed lifetime |
| BufferPacking.PackingKeepsState | transforms/buffer_packing.cc:253-289 | packing into a fitting gap keeps entries inside the host, apart from each other and from the host's uses, and the gaps free |
| BufferPacking.AllocationInfo.NumSegments | transforms/buffer_packing.cc:50-54 | the bytes fit into the segments, and no smaller number has room for them |
| BufferPacking.FreshGapsExact | transforms/buffer_packing.cc:119-141 | the gaps of a host without entries are exactly its idle times |
| BufferPacking.PackingKeepsExact | transforms/buffer_packing.cc:253-289 | after the split the gaps are again exactly the room that is left: each of them has room from its offset on, and whatever time has room lies in one of them |
| BufferPacking.FitsExactly | transforms/buffer_packing.cc:234-249 | some gap fits if and only if the host is idle during the lifetime, no entry begins or ends in it, and the bytes above the entries suffice |
| PackingStrategy.FillHost | transforms/buffer_packing.cc:211-221 | tries every later allocation once, in order, and packs it, where the room begins, if and only if the host can take it then; what is left fits no remaining gap |
| PackingStrategy.HostPlanned | transforms/buffer_packing.cc:200-225 | a filled host joins the plan: its entries are, in order, what it could take of the allocations that were still there |
| PackingStrategy.Optimize | transforms/buffer_packing.cc:198-225 | what is kept keeps its order; the hosts are the kept allocations with a gap, in order; every allocation behind a host that is in no earlier buffer is packed into it if and only if the host can take it when it is tried; every packed buffer is safe, and no host could take in an allocation that was kept behind it |
| PackingStrategy.NoByteIsShared | transforms/buffer_packing.cc:119-294 | at no time do two entries, or an entry and the host, use one byte, and all bytes lie in the buffer |
| ValueClasses.UnionJoins | deallocation/transforms/deallocate.cc:110-113 | joining two classes keeps the classes well formed, makes the two values equivalent and separates nothing |
| Deallocation.InsertionPoint | deallocation/transforms/deallocate.cc:242-246 | the place behind the last operation that may alias the value |
| DeallocationTracking.RootAgrees | deallocation/transforms/deallocate.cc:115-125 | a value and the memref that its views are traced back to name one buffer |
| DeallocationTracking.AliasResultsJoins | deallocation/transforms/deallocate.cc:549-557 | every result becomes equivalent to every operand of its element type |
| DeallocationTracking.AliasResultsExactly | deallocation/transforms/deallocate.cc:549-557 | two values end up in one class if and only if they were in one or results connect them through operands of their element types |
| DeallocationTracking.NamesCoveredExactly | deallocation/transforms/deallocate.cc:549-557 | after an operation that names buffers the classes cover the run if and only if every new name of an owned buffer is connected to its owner |
| DeallocationTracking.ViewCoveredExactly | deallocation/transforms/deallocate.cc:549-557 | for a view of an owned buffer: if and only if it has its source's element type or is in the owner's class |
| DeallocationSteps.OpAccounted | deallocation/transforms/deallocate.cc:214-231 | one operation, whatever the element types: the owned indicators account for every owned buffer and the memory is as in the source |
| DeallocationSteps.OpsAccounted | deallocation/transforms/deallocate.cc:213-231 | the same after all operations of the block |
| DeallocationSteps.OpsCovered | deallocation/transforms/deallocate.cc:213-231 | with agreeing element types the alias classes cover the end of the block |
| DeallocationSuccess.OpSucceeds | deallocation/transforms/deallocate.cc:518-523 | one operation is transformed if and only if every memref that it frees has an indicator; the allocs of the operation itself play no part |
| DeallocationSuccess.OpsSucceed | deallocation/transforms/deallocate.cc:213-231 | in a legal run all operations are transformed if and only if every freed memref goes back to one with an indicator at the entry or to an earlier alloc |
| DeallocationSuccess.BlockReleasesExactly | deallocation/transforms/deallocate.cc:218-229 | a block passes on exactly those indicators of its parent whose memrefs its operations free |
| DeallocationShape.TransformedKeepsOps | deallocation/transforms/deallocate.cc:197-290 | the transformed block has the operations of the block in their order, and others only between them |
| DeallocationShape.NullOnlyIfHandedOut | deallocation/transforms/deallocate.cc:264-288 | a null indicator is added if and only if some yielded memref is handed out with it |
| DeallocationShape.ClassRetainsExactly | deallocation/transforms/deallocate.cc:269-281 | exactly the classes that do not hand one indicator to one yielded memref get a retain, of their yielded memrefs and owned indicators |
| DeallocationShape.HandedOverDirectly | deallocation/transforms/deallocate.cc:271-278 | an indicator and a yielded memref that are alone in their class: the indicator is handed out as it is, and no retain takes it |
| DeallocationShape.FinishedPass | deallocation/transforms/deallocate.cc:280-289 | behind the block the indicators are as before, every result of a final retain is in the class of its memref, all other values are in the classes they were in, and what is released is what the operations released |
| DeallocationShape.JoinResultsExactly | deallocation/transforms/deallocate.cc:282-283 | every result of a retain joins the class of its memref, and nothing else changes |
| DeallocationRetains.InsertRetainRuns | deallocation/transforms/deallocate.cc:240-249 | an early retain frees just its buffer at the end of the run if no operation behind it touches the buffer, and makes the run fail otherwise |
| DeallocationRetains.InsertionPointAfter | deallocation/transforms/deallocate.cc:242-248 | how a retain inserted before moves the insertion point of the next one |
| DeallocationRetains.RetainEarlyRuns | deallocation/transforms/deallocate.cc:235-250 | all early retains together free exactly the owned buffers that do not escape if they come in time, and make the run fail otherwise |
| DeallocationEnding.EndGroupEnds | deallocation/transforms/deallocate.cc:269-287 | the retain of one class, or the shortcut without it, settles every buffer of the class, whatever the alias classes |
| DeallocationEnding.EndGroupsEnds | deallocation/transforms/deallocate.cc:264-287 | the same for all classes one after the other: the final retains never fail, and free exactly the buffers that a class holds but yields no memref for |
| DeallocationSafety.FinishedIsAccounted | deallocation/transforms/deallocate.cc:235-290 | whatever the alias classes: with early retains that come in time every owned buffer is live exactly if its class keeps it, and freed or handed out exactly once unless its class loses it; other buffers are untouched |
| DeallocationSafety.LostInClass | deallocation/transforms/deallocate.cc:284-285 | a buffer whose memrefs are all in one class is lost in the block if and only if it is lost in the class |
| DeallocationSafety.TransformedExactly | deallocation/transforms/deallocate.cc:197-290 | the pass succeeds on a legal block if and only if every memref that it frees goes back to one that has an indicator at the entry or that an earlier operation allocates |
| DeallocationSafety.CoveredBlockIsSafe | deallocation/transforms/deallocate.cc:197-290 | if the alias classes cover the end of the block, the transformed block touches no freed buffer, keeps what the block does not own, and frees or hands out each owned buffer exactly once if and only if it is not lost to a repeated yield |
| DeallocationSafety.DeallocatedBlockIsSafe | deallocation/transforms/deallocate.cc:197-290 | the same for every legal run of a block whose element types agree and whose freed memrefs are traced; the pass succeeds on it |
| DeallocationExactness.DeallocatedBlockRunsExactly | deallocation/transforms/deallocate.cc:197-290 | for every legal run of any block whose freed memrefs are traced: the pass succeeds, and the transformed block touches no freed buffer and yields live memrefs if and only if no owned buffer is freed too early; if it touches none, it accounts for every owned buffer class by class |
| DeallocationExactness.CoveredFreesInTime | deallocation/transforms/deallocate.cc:197-290 | alias classes that cover the end of the block free nothing too early |
| DeallocationSafety.DistinctYieldsLoseNothing | deallocation/transforms/deallocate.cc:284-285 | with distinct yielded memrefs every owned buffer is freed or handed out exactly once |
| DeallocationLimits.ReallocIsTransformed | deallocation/transforms/deallocate.cc:518-524 | an alloc, a realloc and their uses: the pass succeeds, releases nothing to the parent, and the new buffer is freed at the end |
| DeallocationLimits.DuplicateYieldLeaks | deallocation/transforms/deallocate.cc:284-285 | a memref yielded twice: its buffer is neither freed nor handed out |
| DeallocationLimits.ViewOfOtherTypeFreesTooEarly | deallocation/transforms/deallocate.cc:549-557 | a view of another element type: the transformed block touches a freed buffer although the block did not |
| DeallocationLimits.ViewOfOtherTypeCanBeSafe | deallocation/transforms/deallocate.cc:549-557 | the same view does no harm when the alloc itself is used behind it |
| Deallocate.Deallocator.SetOwnershipIndicator | deallocation/transforms/deallocate.cc:110-113 | records the indicator and joins the two alias classes |
| Deallocate.Deallocator.TransformOp | deallocation/transforms/deallocate.cc:494-560 | owns what an operation allocates, releases what it frees or fails, and otherwise joins results with operands |
| Deallocate.Deallocator.TransformOps | deallocation/transforms/deallocate.cc:213-231 | the loop over the operations computes the pass that the theorems are about |
| Deallocate.Deallocator.FindInsertionPoint | deallocation/transforms/deallocate.cc:242-246 | the walk from the terminator stops at the earliest place that no aliasing operation follows |
| Deallocate.Deallocator.RetainNonEscaping | deallocation/transforms/deallocate.cc:235-250 | the loop over the owned indicators inserts the early retains |
| Deallocate.Deallocator.RetainPerClass | deallocation/transforms/deallocate.cc:264-287 | the loop over the classes computes the final retains and the handed out indicators |
| Deallocate.Deallocator.TransformBlock | deallocation/transforms/deallocate.cc:197-290 | the whole method, with its updates of classes and indicators, computes the transformed block of the theorem |
| RetainLowering.MatchRetained | deallocation/transforms/deallocation_to_scf.cc:73-99 | one retained memref takes the remaining alloc that shares its buffer, which is then out of consideration |
| RetainLowering.RewriteRetain | deallocation/transforms/deallocation_to_scf.cc:38-119 | results and frees are exactly those of the retain, each buffer freed once; fails if and only if neither side has one element |
| RetainLowering.EveryAllocOnce | deallocation/transforms/deallocation_to_scf.cc:68-114 | a non-null alloc is exactly one result, that of a retained memref with its buffer, and not freed; or it is no result and freed exactly once |
| RetainLowering.LoweringRefinesRetain | deallocation/transforms/deallocation_to_scf.cc:38-119 | the lowered code leaves the memory and the indicators that the retain leaves |
| Nullability.GetOwnedValue | deallocation/transforms/deallocation_simplification.cc:37-61 | the memref with as many memrefs in front of it as there are indicators in front of the value, if and only if there is one; values of other kinds count for nothing |
| Nullability.OwnedArgumentsPaired | deallocation/transforms/deallocate.cc:203-211 | whatever other arguments stand between the memrefs, the indicators that the deallocation appends are null or hold the buffers of the memrefs they are paired with |
| Nullability.GetAllocNullabilityImpl | deallocation/transforms/deallocation_simplification.cc:84-149 | what the recursion has explored covers everything it may have skipped, and reports only what it found; a never-null value comes with the memref it holds |
| Nullability.GetAllocNullability | deallocation/transforms/deallocation_simplification.cc:84-149 | null, or non-null, is reported if and only if a value that can be null, or non-null, flows in |
| Nullability.AllocIsNull | deallocation/transforms/deallocation_simplification.cc:151-154 | true if and only if only nulls flow in |
| Nullability.NullnessSound | deallocation/transforms/deallocation_simplification.cc:80-84 | in every state of every run over a possibly cyclic graph an indicator that is always null is null, and one that is never null is not |
| Nullability.NullnessExactly | deallocation/transforms/deallocation_simplification.cc:62-149 | a flag of the answer is set if and only if some run makes the indicator null, or not null |
| Nullability.RetainOfNulls | deallocation/transforms/deallocation_simplification.cc:193-201 | a retain of nulls frees nothing and returns nulls |
| Nullability.RetainOfNonNull | deallocation/transforms/deallocation_simplification.cc:203-215 | a retain of one non-null alloc and no memref is the deallocation of the memref that the indicator is paired with |
| Nullability.SimplifyRetain | deallocation/transforms/deallocation_simplification.cc:191-216 | exactly when a retain becomes nulls, and when the deallocation of which memref |
| Nullability.SimplifiedRetainSame | deallocation/transforms/deallocation_simplification.cc:191-216 | in a state that agrees with the flow the rewritten retain does what the retain does |
| BufferReuse.FindAlloc | deallocation/transforms/buffer_reuse.cc:117-125 | the first alloc at or behind an operation |
| BufferReuse.AnyMatchBetween | deallocation/transforms/buffer_reuse.cc:128-141 | whether an operation in the range is an alloc of the type |
| BufferReuse.Block.TryMerge | deallocation/transforms/buffer_reuse.cc:332-358 | a free and the next static alloc of its type become one buffer, in both modes; otherwise the cursor moves on |
| BufferReuse.Block.ReuseBuffers | deallocation/transforms/buffer_reuse.cc:328-370 | in both modes, true if and only if some dealloc can hand its buffer to the next alloc; without one the block stays as it is |
| BufferReuse.ReuseExactly | deallocation/transforms/buffer_reuse.cc:328-370 | the result is the block without the ends of the merges, in order and renamed: every static alloc takes the buffer of the first dealloc of its type behind the alloc in front of it, and nothing else is merged |
| BufferReuse.LeftOverExactly | deallocation/transforms/buffer_reuse.cc:332-356 | a dealloc of the result can still be merged with the next alloc if and only if it and a static alloc of its type are kept while every alloc between them is merged |
| BufferReuse.SingleDeallocsLeaveNothing | deallocation/transforms/buffer_reuse.cc:332-356 | with at most one dealloc between two allocs, no merge is left to do |
| BufferReuse.MergeCanBeMissed | deallocation/transforms/buffer_reuse.cc:332-356 | two deallocs and two allocs of their types in the opposite order, of which only one pair is merged although the other could be then |
| BufferReuse.MergeKeepsOutcome | deallocation/transforms/buffer_reuse.cc:349-356 | one merge keeps the discipline, what every use reads, and the memory that outlives the block |
| BufferReuse.ReuseKeepsOutcome | deallocation/transforms/buffer_reuse.cc:328-370 | so does the whole pass |
| BufferReuse.ReuseSavesAllocs | deallocation/transforms/buffer_reuse.cc:349-356 | the pass saves as many allocs as deallocs, one of each per merge |
| RowMajor.SizeIsProduct | mhlo/IR/hlo_ops.cc:2683-2686 | the number of elements is the product of the sizes |
| RowMajor.LinearOfUnlinear | mhlo/IR/hlo_ops.cc:4149-4162 | every flat position is the position of its index |
| RowMajor.UnlinearOfLinear | mhlo/IR/hlo_ops.cc:4149-4162 | every index is the index of its flat position, which lies in the buffer |
| ReverseFold.SplitIndex | mhlo/IR/hlo_ops.cc:3407-3408 | block and window of a position, in range |
| ReverseFold.Strides | mhlo/IR/hlo_ops.cc:3374-3378 | the strides are the sizes of the inner dimensions |
| ReverseFold.ReverseDimension | mhlo/IR/hlo_ops.cc:3403-3415 | the swaps in place give exactly the tensor mirrored in one dimension |
| ReverseFold.FoldReverse | mhlo/IR/hlo_ops.cc:3364-3418 | nothing for empty or too large tensors, otherwise the tensor mirrored in all listed dimensions |
| ReverseFold.MirroredAllAt | mhlo/IR/hlo_ops.cc:3380-3416 | at every multi-index stands the element at the index mirrored in the listed distinct dimensions |
| ReverseFold.MirroredAllTwice | mhlo/IR/hlo_ops.cc:3364-3418 | reversing twice gives back the tensor |
| PadFold.NextIndex | mhlo/IR/hlo_ops.cc:4138-4145 | the odometer moves to the index of the next flat position and wraps at the end |
| PadFold.TargetPosition | mhlo/IR/hlo_ops.cc:4152-4159 | the accumulated position is the flat position of the target index |
| PadFold.TargetInBounds | mhlo/IR/hlo_ops.cc:4155-4156 | the target of an input index lies in the padded shape |
| PadFold.FoldPad | mhlo/IR/hlo_ops.cc:4126-4164 | for every multi-index the input element it stands for, else the pad value; nothing for too large results |
| PadFold.PadKeepsInput | mhlo/IR/hlo_ops.cc:4147-4162 | every input element is found at its target and nowhere else |
| SliceFold.StepsExactly | mhlo/IR/hlo_ops.cc:5122-5128 | the stepping loop runs for exactly the coordinates below the limit |
| SliceFold.SliceElements | mhlo/IR/hlo_ops.cc:5110-5133 | the recursion appends the slice of the sub-tensor at its base, in order |
| SliceFold.FoldSlice | mhlo/IR/hlo_ops.cc:5136-5200 | the slice, for every shape; nothing if it would be too large and is not the whole tensor |
| SliceFold.SlicedAt | mhlo/IR/hlo_ops.cc:5110-5133 | at every multi-index the slice holds the element at start plus index times stride |
| SliceFold.WholeSliceIsIdentity | mhlo/IR/hlo_ops.cc:5178-5181 | a slice with the operand's shape is the operand |
| ConcatFold.AppendRow | mhlo/IR/hlo_ops.cc:2693-2699 | one round of the outer loop appends one row of every operand |
| ConcatFold.FoldConcatenate | mhlo/IR/hlo_ops.cc:2676-2702 | the concatenation, or nothing if it is too large |
| ConcatFold.ConcatenatedAt | mhlo/IR/hlo_ops.cc:2691-2701 | at every multi-index the concatenation holds the element of the operand that the axis coordinate falls in |
| ConcatFold.LocateUnique | mhlo/IR/hlo_ops.cc:2691-2701 | only one operand covers a coordinate |
| ConcatSlice.SelectOperands | mhlo/IR/hlo_ops.cc:5232-5262 | the first operand that reaches past the start, the end of the last one that begins before the limit, and the offset of the first; nothing for a dynamic size |
| ConcatSlice.SimplifyConcatSlice | mhlo/IR/hlo_ops.cc:5210-5297 | no match if a size is dynamic, if all operands or none are needed, or if several are needed of a concatenation with other uses; otherwise which operands and shifted bounds are used |
| ConcatSlice.NeededUnique | mhlo/IR/hlo_ops.cc:5248-5259 | the chosen range is determined by what it must cover |
| ConcatSlice.NeededCovers | mhlo/IR/hlo_ops.cc:5248-5259 | the chosen operands cover the slice |
| ConcatSlice.BackwardsExactly | mhlo/IR/hlo_ops.cc:5264-5281 | the range is reversed if and only if the slice is empty, lies behind position zero and begins at an empty operand |
| ConcatSlice.RangeCanBeReversed | mhlo/IR/hlo_ops.cc:5264-5281 | sizes and an empty slice for which the range is reversed and the pattern rewrites |
| ConcatSlice.RewriteKeepsMeaning | mhlo/IR/hlo_ops.cc:5281-5295 | slicing the chosen operands with shifted bounds gives the elements of slicing all of them |
| ValueOrder.Compare | deallocation/utils/util.h:81-132 | the walk up the two trees decides the order; arguments come before results, arguments go by number, results of one block by operation and number |
| ValueOrder.RegionLessExactly | deallocation/utils/util.h:112-131 | a region is less than another if and only if, from the inside outwards, the first level that decides says so |
| ValueOrder.LessTotal | deallocation/utils/util.h:79-80 | irreflexive, and of two different values exactly one is less |
| ValueOrder.LessTransitive | deallocation/utils/util.h:79-80 | transitive, across arguments, results and regions of different depth |
| ConvDims.PrintGroup | mhlo/IR/hlo_ops.cc:6557-6593 | the tokens of one group, with gaps as question marks |
| ConvDims.ParseGroup | mhlo/IR/hlo_ops.cc:6682-6817 | accepts exactly the readable groups and returns the group that was read |
| ConvDims.PrintConvolutionDimensions | mhlo/IR/hlo_ops.cc:6553-6606 | the tokens of the three groups with the separators |
| ConvDims.ParseConvolutionDimensions | mhlo/IR/hlo_ops.cc:6669-6850 | accepts exactly the token sequences that write dimension numbers and returns them |
| ConvDims.DimsReadUnique | mhlo/IR/hlo_ops.cc:6669-6850 | a token sequence writes at most one attribute |
| ConvDims.RoundTrip | mhlo/IR/hlo_ops.cc:6553-6850 | the printed tokens read back as the same attribute, and as no other, if and only if no group repeats a position |

## Left out

- IntervalAlgebra.IntervalSubtract: the order of the result is not stated; the split branch puts the right piece before the left one, and the contract speaks of points.
- Useranges.RangesInterfere: models values without a common alias; with one, the source scans the possibly unsorted result of a subtraction.
- PackingStrategy.Optimize: takes the allocations in the order that the comparator and the window ids give them, with their sizes in bytes and use intervals; sorting, windows and the size of a type belong to MLIR types.
- BufferReuse.AnyMatchBetween: straight-line blocks; the search inside nested regions is not modelled.
- BufferReuse.Block.ReuseBuffers: straight-line blocks; the recursion into nested regions is not modelled, and neither are views of buffers.
- Deallocate.Deallocator.TransformBlock: blocks without nested regions and calls; the retains of different classes come in the order of their first yielded memrefs, not in the order of class leaders.
- Deallocate.Deallocator.RetainPerClass: ends the classes in the order of their first yielded memrefs, not in the order of class leaders.
- Deallocate.Deallocator.TransformOp: memory operations, views and opaque operations; views whose defining operation lies outside the block are not traced back.
- RetainLowering.RewriteRetain: models the emitted code rather than the builder calls; several allocs with several retained memrefs are left to the library call, which is not part of this model.
- Nullability.OwnedArgumentsPaired: for block arguments; the results of rewritten region operations are paired the same way but not modelled.
- Nullability.SimplifyRetain: the replacement of unused `own` operations in the same pass (`valueIsUnused`) is left out.
- MinimumBroadcast.MinimumBroadcastShapes: models the emitted program rather than the builder calls; buffers are arrays of extents.
- ReverseFold.FoldReverse: element types are abstract, as in all folders; the limit on the number of elements is kept.
- ConcatSlice.RewriteKeepsMeaning: for a non-empty choice of operands; for a reversed one see `ConcatSlice.BackwardsExactly`.
- ConvDims.RoundTrip: token level, with non-negative positions; the raw form, the enclosing angle brackets and the error messages are left out.
- ValueOrder.Compare: one tree of single-block regions; values of different trees are never compared by the passes.
- The node records of the cycle detector, with their data pointers, are parallel arrays and sets indexed by node; freed nodes keep their rank and are never reused, as in the source.
- Alias classes are a map from values to leaders; the union-find structure of LLVM is not part of this model.
- Dialect and pass registration, type inference wrappers, verifiers and bindings: no logic of their own.
- `hoistAllocs`, `doubleBuffer`, `promoteToStack`, copy elimination, region operations and implicit capture: they need the full region machinery.
- `UserangeInfoBuilder` and the constructor of `UserangeAnalysis`: they rest on MLIR liveness; intervals are inputs.
- The other patterns and folders of mhlo/IR/hlo_ops.cc, and all floating-point folding.
- Overflow of `size_t` and 32-bit integers.
