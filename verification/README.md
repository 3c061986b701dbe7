# Verified model of the merge, page and nested-column cores

This project models the parts of the Parquet library where several pieces of state have to agree, and proves what
they promise. It is written in Dafny 4.11; `dafny verify dfyconfig.toml` checks all of it.

Rows and values are abstract. A comparison is any function with Go's sign conventions that is a total preorder
(`Orders.TotalPreorder`), so tied rows are told apart and the order of ties can be spoken about. Code that changes its
state step by step is modelled as methods on classes or arrays, each proved against a specification function or an
invariant; expressions and lookups are functions; concurrent code is a state machine over its atomic steps.

## What is proved

**Merging.** `LoserTree` defines the tournament on values and the merge it yields (`MergeOrder`): greedy, complete,
sorted, each input in its own order, each row once. The k-way reader (`KWayMerge.MergedRowReader`) keeps its array of
losers, buffers and winning streak in step with that merge, so that over any sequence of calls, output lengths and input
chunks it returns the same fixed sequence of rows, tie order included: run mode and buffering cannot be observed.
`TournamentTies` says which of several inputs with equal heads wins. Both readers return a failure only if an input has
reported one, and the end otherwise once all rows are out. The two-way reader keeps a greedy merge as well, and what a
call emits depends on the buffered rows and the room alone, never on the streak. Its order of *ties* is fixed for all
calls exactly when no two rows of the first input tie with each other and with a row of the second
(`TieOrder.TieOrderIsFixedExactly`); otherwise calls with room for one row and calls with room for all that is buffered
return different orders, whatever chunks the inputs are read in. After a failure while the buffers are first filled, the
k-way reader reports the end of the rows and the two-way reader goes on without the inputs it has not initialised;
`failed` records this, and the claims about completeness exclude it.

**Planning.** `RowGroupSegments` splits row groups into segments that are strictly apart and cannot be split further.
`SegmentPlanner.Refine` sweeps a segment and cuts out the stretches of a single row group; there is a plan exactly when
some such stretch is large, every row is planned once and in order, and every entry is at most all later ones.
`RefinedMerge` and `MergedSegments` conclude that reading the plan, and reading segment after segment, gives the rows of
the plain merge up to ties. `PageBounds` and `SegmentTargets` justify what the planner assumes: the bounds of a row
group enclose its rows, and the cuts are sound even where page bounds are not monotone. Both take each sorting column to
hold one value per row that is not null. `ExactBounds` says what happens otherwise: a row that begins with a null in the
leading column is always outside the bounds, and with one sorting column the bounds enclose all rows exactly when no row
begins with a null and none that holds several values begins with one that ties with the last bound. `RowComparators`
builds the order of rows from that of the columns and proves it a total preorder, the same for both ways of comparing.
`Dedupe` shows that dropping duplicates does not depend on how the rows are cut into batches.

**Reading ahead.** `AsyncPages` models the client and the goroutine as two processes over a rendezvous channel and a
seek channel of one slot. For every interleaving the results since the last seek are those of a synchronous reader,
`SeekToRow` never waits, every page is delivered or released once, and a waiting read or close can always come to
return. `AsyncAgreement` says exactly when the two readers agree. After a seek to a row they do for every interleaving
if and only if every fatal error the underlying reader can meet, from wherever it is read, is one that reading from that
row gives all along: an error met while reading ahead is reported even if the client seeks away from it. A seek to a
negative row is not passed on, but it drops what has been read ahead: the client goes on where the reader is, and if it
has read something before, it loses at least one read.

**Nested columns.** `ConvertLevels` shreds nested values, proves that shredding can be undone, and proves that the level
tables re-encode the same value under a more permissive path. For any two paths that repeat at the same nodes, it gives
the exact condition under which no two values are converted to the same encoding. `ColumnTree` rebuilds a schema tree
from its list, hands out every reserved slot exactly once, and sets the levels the schema walk computes.
`RepeatedBuffer` and `OptionalBuffer` keep a column in written-and-swapped row order; `RepeatedPages` and `BooleanPages`
slice and read pages. After swaps, the first page of an optional buffer is right in any case, but its row numbers are
right afterwards exactly when no null precedes a value (`OptionalColumnBuffer.Page`).

**Arithmetic.** `DecimalBytes` (two's complement of any integer, sign padding) and `TruncatedBounds` (bounds cut to a
size limit, with the exact condition under which the upper one still exceeds the value) rest on `BigEndian`.

## Model

| member | source | states |
|---|---|---|
| MergeTraces.GreedyIsSorted | merge.go:779-872 | taking a smallest head every time emits sorted rows, for any number of sorted inputs |
| MergeTraces.GreedyBoundsRest | merge.go:779-872 | whatever has been emitted is at most everything still to come, at every point of a merge |
| MergeTraces.OutputKeepsInputOrder | merge.go:779-872 | the rows taken from an input are a prefix of it, in its own order |
| MergeTraces.OutputConservesRows | merge.go:779-872 | emitted rows and remaining rows together are the inputs' rows, as multisets |
| MergeTraces.CompleteMergeIsSortedUnion | merge.go:779-872 | a merge that runs to the end is a sorted permutation of all rows that keeps each input's order |
| LoserTree.InitialTreeIsSettled | merge.go:896-925 | playing the initial games establishes the tree invariant: every node holds the loser of the game between the winners of its children |
| LoserTree.ReplayKeepsInvariant | merge.go:927-945 | replaying the winner's path after its head changed re-establishes the invariant at every node of the tree |
| LoserTree.WinnerIsMinimal | merge.go:893-945 | the winner's head is at most the head of every input that still has rows |
| LoserTree.EveryPlayerOnce | merge.go:893-945 | each live input occurs exactly once, as the winner or as one loser |
| LoserTree.ReplayIsShort | merge.go:927-945 | the path from a leaf to the root has at most 1 + log2(k) nodes |
| LoserTree.RunBoundIsSecondSmallest | merge.go:874-891 | the bound found on the winner's path is the smallest head of all other inputs, and absent only if there is none |
| LoserTree.BulkRunIsRowByRow | merge.go:821-856 | emitting m rows up to the bound in bulk and then replaying merges exactly as m single steps do, ties included |
| LoserTree.TournamentMerges | merge.go:779-872 | the merge the tournament yields is greedy, complete, sorted, a permutation of all rows, and keeps each input's order |
| TournamentTies.InitialWinnerIsLast | merge.go:893-922 | of the inputs with the smallest head, the initial winner is the one whose leaf comes last from left to right in the tree |
| TournamentTies.ReplayIsWonByFirst | merge.go:924-945 | a replayed input is displaced only by a strictly smaller head, and then by the first one on its path that has the smallest |
| Gallop.RunLength | merge.go:1016-1044 | the result is exactly the length of the prefix within the bound, found in at most 2 log2(n) + 3 comparisons |
| RowReaders.BufferedRowReader.Read | merge.go:996-1014 | refills the buffer behind what is left without losing, repeating or reordering rows of the source; returns the error of the source exactly when it read nothing |
| RowReaders.BufferedRowReader.Advance | merge.go:983-994 | consumes rows from the front and reports whether rows remain buffered |
| KWayMerge.MergedRowReader.constructor | merge.go:531-555 | a new reader stands at the start of the merge of its inputs |
| KWayMerge.MergedRowReader.PlayGame | merge.go:911-922 | one game: exhausted players lose, and the first player wins only with a strictly smaller head or against an exhausted one; ties go to the second |
| KWayMerge.MergedRowReader.PlayInitialGames | merge.go:893-909 | fills the losers array with the losers of all games of a subtree and returns its winner |
| KWayMerge.MergedRowReader.ReplayPath | merge.go:927-945 | the array and the winner become those of a replay, with at most 1 + log2(k) comparisons |
| KWayMerge.MergedRowReader.SecondHead | merge.go:874-891 | reads the run bound off the array |
| KWayMerge.MergedRowReader.Initialize | merge.go:750-777 | fills the buffers and plays the tournament, or fails with the first error of an input |
| KWayMerge.MergedRowReader.EmitBulk | merge.go:821-856 | a run emitted across windows and refusals of room is the next stretch of the one merge |
| KWayMerge.MergedRowReader.ReadRows | merge.go:779-872 | every call returns the next rows of the one merge of the inputs, whatever its length, the chunks of the inputs and the streak; a failure is returned only if an input has reported it; the end is returned only when all rows have been emitted, and then by every call that has room unless an input fails |
| TwoWayMerge.CallTraceIsGreedy | merge.go:583-700 | what a two-way call emits is a stretch of a greedy merge of the two inputs |
| TwoWayMerge.MergedRowReader2.constructor | merge.go:531-555 | a new two-way reader has emitted nothing |
| TwoWayMerge.MergedRowReader2.ReadRows | merge.go:583-716 | the rows of all calls are one greedy merge; a call's rows are a function of the buffered rows and the room, so run mode cannot be observed; the end is reported only when the merge is complete; a failure is returned only if an input has reported it |
| TieOrder.TieOrderIsFixedExactly | merge.go:583-697 | all complete sequences of calls return the same order, that of preferring the first input at ties, exactly when no two rows of the first input tie with each other and with a row of the second |
| TieOrder.RoomDecidesTies | merge.go:639-696 | calls with room for one row prefer the first input at ties, calls with room for all that is buffered pair tied rows, and the two orders are the same only in that case |
| TieOrder.CallsFollow | merge.go:639-696 | calls of either kind return a prefix of the order they keep to, whatever is buffered when they are made |
| TieOrder.ReadRowsCalls | merge.go:583-697 | a call of the reader that merges is one of these calls, and its trace goes on where theirs ended |
| TieOrder.CallsMerge | merge.go:583-697 | calls that return all rows are a greedy and complete merge of the two inputs |
| Sorting.SortIsStable | merge_refine.go:218-233 | the stable sort keeps tied elements in their order |
| Sorting.SortedArrangementsTie | merge_refine.go:26-32 | two sorted arrangements of the same rows agree position by position up to ties |
| RefinePlan.Extend | merge_refine.go:258-269 | moving the next rows of a row group into the open region keeps the plan well formed |
| RefinePlan.CloseKeeps | merge_refine.go:271-285 | closing the region keeps the plan well formed when its rows are at most all unplanned rows |
| RefinePlan.CloseInOrder | merge_refine.go:276-282 | a merged region lists its parts in the order of the targets |
| RefinePlan.EachRowGroupIsCovered | merge_refine.go:200-365 | in a finished plan the parts of each row group are consecutive ranges that are its rows, each once and in order |
| RefinePlan.PlanReadsEverything | merge_refine.go:200-365 | reading a finished plan entry by entry gives a sorted permutation of all rows |
| RefineSegment.SortedEventsAreSwept | merge_refine.go:205-233 | the sorted events hold one start and one end of every target, in key order, starts before ends at equal keys |
| RefineSegment.SweepFrontier | merge_refine.go:329-358 | at every point of the sweep what has ended lies at or below what has not started |
| RefineSegment.CutsAreLone | merge_refine.go:291-310 | the rows cut out of a lone stretch are above all that has ended and below all that has not started |
| RefineSegment.LargeStretchHasRows | merge_refine.go:294-310 | a lone stretch is large exactly when 1024 rows of its target lie between the cuts at the keys around it |
| RefineSegment.SliceKeeps | merge_refine.go:312-326 | closing the region below a slice and emitting the slice keeps the plan well formed |
| SegmentPlanner.Planner.constructor | merge_refine.go:242-256 | the sweep begins with an empty plan and untouched cursors |
| SegmentPlanner.Planner.Remainder | merge_refine.go:258-269 | hands out the rows from the cursor to the end, at most once |
| SegmentPlanner.Planner.CloseRegion | merge_refine.go:271-285 | closes the region as nothing, its only part, or a merge in target order |
| SegmentPlanner.Planner.ResolveLone | merge_refine.go:287-327 | slices a lone stretch exactly when both cuts exist and leave at least 1024 rows, and keeps the plan well formed |
| SegmentPlanner.Planner.Start | merge_refine.go:329-340 | a start event keeps the sweep's invariant |
| SegmentPlanner.Planner.End | merge_refine.go:341-357 | an end event keeps the sweep's invariant |
| SegmentPlanner.Refine | merge_refine.go:200-365 | there is a plan exactly when some lone stretch is large, and then it covers every row once, in order, with every entry at most all later ones |
| RefinedMerge.RefinedReadsLikePlain | merge_refine.go:26-32 | reading the plan gives the rows of any merge of the segment, sorted, in an order that differs at most between ties, and keeps the order of the rows of each row group |
| RefinedMerge.TournamentMergesEntry | merge.go:545-554 | an entry may be merged by the k-way reader |
| RefinedMerge.SinglesAreRead | merge_refine.go:271-277 | an entry of a single part is read as it is |
| RefinedMerge.TwoWayMergesEntry | merge.go:537-544 | an entry of two parts may be merged by the two-way reader, however it is called |
| RowGroupSegments.SplitSegments | merge.go:192-212 | consecutive segments that cover the groups, each connected, each strictly below all later ones |
| RowGroupSegments.OverlappingRowGroups | merge.go:155-214 | segments of the non-empty groups in some order by smallest key; one segment of all groups without bounds when some bounds are missing |
| RowGroupSegments.RowsStrictlyBelow | merge.go:151-154 | every row of a segment is strictly less than every row of a later one |
| RowGroupSegments.SegmentsReadEverything | merge.go:91-118 | reading the segments one after the other gives a sorted permutation of all rows, for every order of tied groups and without bounds as well |
| MergedSegments.MergedSegmentIsRead | merge.go:113-117 | any greedy merge of the row groups of a segment gives a sorted permutation of its rows |
| MergedSegments.TournamentReadsSegment | merge.go:545-554 | the k-way reader makes such a merge |
| MergedSegments.TwoWayReadsSegment | merge.go:537-544 | so does the two-way reader for a segment of two row groups, however it is called |
| MergedSegments.RefinedSegmentIsRead | merge.go:97-111 | so does reading a refined plan of the segment, whichever way its entries are merged |
| MergedSegments.SegmentsReadLikePlain | merge.go:91-118 | whichever way each segment is read, the result is that of any merge of all row groups up to ties |
| PageBounds.Search | merge_refine.go:166-168 | binary search over a test that need not be monotone still ends between a failing and a succeeding position |
| PageBounds.LookupsExist | merge_refine.go:112-137 | there are cut lookups exactly when the chunk has both indexes, of as many pages, and no page of nulls |
| PageBounds.CutAboveIsSound | merge_refine.go:158-173 | every row from the cut on is strictly greater than the key, for ascending and descending columns, without monotone page bounds |
| PageBounds.CutBelowIsSound | merge_refine.go:175-190 | every row before the cut is strictly less than the key, under the same conditions |
| PageBounds.CutsAreTight | merge_refine.go:158-190 | no page boundary beyond a cut could be cut at: between the two lies a page that its bound does not show to be on the far side of the key |
| PageBounds.ColumnRange | merge.go:256-291 | the first and last bounds in sort order, taken from the first and last pages that have one |
| PageBounds.RowGroupRange | merge.go:216-302 | bounds exist exactly when every sorting column has them, and hold them at their columns with nulls elsewhere |
| PageBounds.BoundsEnclose | merge.go:250-257 | the bounds enclose every row of a sorted row group, over all sorting columns together |
| SegmentTargets.LookupsAreSound | merge_refine.go:112-193 | the lookups of a target are sound for every bounds row |
| SegmentTargets.TargetsAreDescribed | merge_refine.go:74-110 | targets built from row groups whose page indexes describe their rows meet all the planner assumes |
| ExactBounds.NullsEscapeBounds | merge.go:256-291 | for every schema with an optional leading sorting column, a row that begins with a null there lies below the first bound or above the last one, as nulls are sorted |
| ExactBounds.RepeatedValuesEscapeBounds | merge.go:256-291 | a row whose first value in the leading column ties with the last bound and is followed by more lies above the bounds; with one sorting column, no other row up to that bound does |
| ExactBounds.BoundsEncloseExactly | merge.go:256-291 | with one sorting column, the bounds enclose all rows exactly when no row begins with a null and none with several values begins with one that ties with the last bound |
| RowComparators.DescendingIsTotal | compare.go:11-17 | reversing a total preorder gives one |
| RowComparators.NullsAreTotal | compare.go:19-57 | putting nulls first or last gives a total preorder |
| RowComparators.ValuesAreOrdered | compare.go:429-443 | values are ordered as their type says or the other way round, and nulls come at the end that is asked for |
| RowComparators.FirstPairDecides | compare.go:489-502 | the values of one column are ordered by the first pair that does not tie, and by their number if none does |
| RowComparators.RowOrderIsTotal | compare.go:424-506 | comparing the value lists of the sorting columns one after the other is a total preorder on rows |
| RowComparators.FirstDifferenceDecides | compare.go:480-504 | the first sorting column in which the values of two rows do not tie decides, and rows tie exactly when they tie in all |
| RowComparators.FirstKeyDecides | compare.go:217-226 | for rows with one value in each sorting column, the first difference decides as its type and direction say |
| RowComparators.ColumnSpans | compare.go:459-478 | one scan of a row finds exactly the values of each column |
| RowComparators.CompareValues | compare.go:480-503 | compares two value lists pairwise, the shorter first when all pairs tie |
| RowComparators.CompareScanning | compare.go:424-506 | the scanning comparison computes the order of rows |
| RowComparators.CompareIndexed | compare.go:216-226 | the direct comparison computes the same order, where no column repeats and no sorting column is optional |
| RowComparators.CompareRowsFunc | compare.go:182-212 | whichever comparison the schema selects computes the one order |
| Dedupe.KeptConcat | dedupe.go:78-107 | what is kept of rows cut into batches is what is kept of all of them |
| Dedupe.KeptAt | dedupe.go:90-99 | kept and dropped rows are those at complementary positions, in order; a row is dropped exactly when it compares equal to the row kept last before it |
| Dedupe.KeptBeginRuns | dedupe.go:3-7 | the kept rows are the first of each run of ties, so every row ties with a kept row or with the row kept before the batch |
| Dedupe.KeptIncreases | dedupe.go:3-7 | on sorted rows what is kept is strictly increasing |
| Dedupe.KeptNeighboursDiffer | dedupe.go:90-99 | a kept row never equals the row kept before it |
| Dedupe.Deduper.Deduplicate | dedupe.go:78-107 | the batch array becomes the kept rows followed by the dropped ones, a permutation of itself, and the last kept row is remembered |
| Dedupe.DedupeRowReader.constructor | dedupe.go:8-10 | a new reader will hand out what is kept of everything its reader still has |
| Dedupe.DedupeRowReader.ReadRows | dedupe.go:18-27 | the rows of all calls, one after the other, are what is kept of the whole input, whatever batches it arrives in; a call returns rows or an error, and the error is that of the last read of its reader |
| AsyncPages.StepRefines | page.go:162-293 | every atomic step of client or goroutine keeps the invariant that ties versions, pending seeks and read position together |
| AsyncPages.RunKeeps | page.go:162-293 | the invariants hold after every run of steps, in any interleaving |
| AsyncPages.ReadsAreSynchronous | page.go:182-203 | what the client reads after a seek is, read by read, what a synchronous reader gives; exactly so without fatal errors |
| AsyncPages.SeekNeverBlocks | page.go:205-224 | the slot of the seek channel is free whenever a seek is sent |
| AsyncPages.PagesAreDisposedOnce | page.go:233-293 | no page is delivered or released twice or both, and none is lost once the goroutine has exited |
| AsyncPages.NoDeadlock | page.go:162-203 | a client that waits in a read or a close always has a step that can be taken |
| AsyncProgress.CloseCanReturn | page.go:162-180 | from every reachable state in which a client waits in a close, some run of steps lets it return |
| AsyncProgress.ReadCanReturn | page.go:182-203 | from every reachable state in which a client waits in a read, some run of steps lets it return with a result |
| AsyncPages.CloseReportsError | page.go:162-180 | the first close returns the error of closing the underlying reader |
| AsyncPages.ReadsAfterCloseEnd | page.go:182-188 | a read that finds the channel closed returns the end of the pages, and only after a close |
| AsyncAgreement.NegativeSeekGoesOn | page.go:254-291 | in every run, what the client gets after a seek to a negative row are consecutive reads at the position where the reader is, or the fatal error that broke it |
| AsyncAgreement.NegativeSeekSkips | page.go:280-291 | if the client has read something before such a seek, these are reads of the same position, and at least one read is lost |
| AsyncAgreement.NegativeSeekAgreesExactly | page.go:254-291 | over all runs, reading after a seek to a negative row is what a synchronous reader gives exactly when, besides, it makes no difference where the underlying reader is |
| AsyncAgreement.ReadAheadErrorSticks | page.go:261-291 | any fatal error that can be met at any position, or on any seek, can be the result of any read after a seek to any row |
| AsyncAgreement.AgreesExactly | page.go:182-293 | over all runs, reading after a seek to a row is what a synchronous reader gives if and only if every fatal error that can be met is one that reading from the row gives all along |
| ConvertLevels.LevelTables | convert.go:438-478 | the filled tables give, for each source level, the target level of the deepest node with that level |
| ConvertLevels.TableIsMonotone | convert.go:438-478 | for a more permissive target the definition table is strictly increasing and sends the largest level to the largest |
| ConvertLevels.RepetitionsStay | convert.go:438-478 | repetition levels are not changed when both paths repeat at the same nodes |
| ConvertLevels.IdentityTable | convert.go:551-558 | the table is the identity exactly when the paths are the same |
| ConvertLevels.MapsShredded | convert.go:438-482 | looking up the levels of an encoded value encodes the same nested value under the target path |
| ConvertLevels.ShredRoundTrip | convert.go:198-219 | assembling an encoded value gives the nested value back, for every path and value |
| ConvertLevels.IsDirectLevelMapping | convert.go:551-558 | tells whether every level is mapped to itself |
| ConvertLevels.ConvertToLevels | convert.go:198-219 | replaces all levels in place, and values with levels outside the tables by the zero value |
| ConvertLevels.ConvertColumn | convert.go:438-482 | a converted column holds, and reads back as, the same nested value under the target path; the conversion is left out exactly when the paths are the same |
| ConvertLevels.TableRisesExactly | convert.go:458-478 | for any two paths of one length, the definition levels stay apart exactly when, from each source node that adds a level up to the next one, the target adds a level |
| ConvertLevels.ConversionLosesNothingExactly | convert.go:438-482 | where both paths repeat at the same nodes, different nested values are converted to different encodings exactly when the target adds a level there for each source level but the last |
| ColumnTree.Measure | column.go:303-334 | the walk over the list counts the leaves of the tree and sums the lengths of all its paths |
| ColumnTree.ColumnLoader.constructor | column.go:303-353 | the slabs have exactly the sizes the tree needs |
| ColumnTree.ColumnLoader.Open | column.go:369-521 | rebuilds the tree of the next element and takes exactly its slots; succeeds exactly when every row group has enough columns |
| ColumnTree.OpenColumns | column.go:211-232 | the tree is rebuilt, every slot is handed out once in order, every leaf gets its chunks, and levels and indexes are set; fails only for wrong row groups or trees too deep or too wide |
| ColumnTree.SetLevels | column.go:234-280 | leaves get the index and levels that the schema walk computes, and storing them in bytes loses nothing |
| ColumnRoutes.StoredOnPath | column.go:234-280 | every column, groups included, stores its depth, the numbers of repeated and of not required nodes on its path below the root, and the number of leaves before it if it is a leaf |
| ColumnRoutes.LeafOnRoute | column_path.go:64-96 | the schema walk numbers each leaf by the leaves before it, and its levels count the nodes on its path, the root included |
| ColumnTree.RootMustBeRequired | column_path.go:64-96 | the stored levels are those of the schema walk exactly when the root is required |
| RepeatedBuffer.RepeatedColumnBuffer.constructor | column_buffer_repeated.go:47-54 | a new buffer has no rows |
| RepeatedBuffer.RepeatedColumnBuffer.WriteRow | column_buffer_repeated.go:255-284 | a piece that begins a row becomes the last row; any other continues the row stored last, wherever it has been swapped to |
| RepeatedBuffer.RepeatedColumnBuffer.WriteValues | column_buffer_repeated.go:223-253 | written values become rows split at repetition level 0 after the rows there were |
| RepeatedBuffer.RepeatedColumnBuffer.Swap | column_buffer_repeated.go:212-221 | swaps two rows and stores nothing else |
| RepeatedBuffer.RepeatedColumnBuffer.SwapReorderingBuffer | column_buffer_repeated.go:165-170 | exchanges the stores of two buffers |
| RepeatedBuffer.RepeatedColumnBuffer.Page | column_buffer_repeated.go:101-163 | the buffer denotes the same rows as before and is in order again; the page holds the rows one after the other |
| RepeatedBuffer.InOrderRows | column_buffer_repeated.go:32-45 | while rows are in order, the rows after the values of no row are all that is stored |
| RepeatedBuffer.RepeatedRowLength | column_buffer_repeated.go:438-451 | a row ends where the next repetition level 0 is |
| OptionalBuffer.OptionalColumnBuffer.constructor | column_buffer_optional.go:32-38 | a new buffer has no rows |
| OptionalBuffer.OptionalColumnBuffer.WriteValues | column_buffer_optional.go:169-221 | appends the written rows, values and nulls in order |
| OptionalBuffer.OptionalColumnBuffer.Swap | column_buffer_optional.go:157-167 | swaps two rows and leaves the base column alone |
| OptionalBuffer.CycleSort | column_buffer_optional.go:107-112 | puts every base value where its row's rank says, in fewer swaps than there are values |
| OptionalBuffer.RenumberedMaps | column_buffer_optional.go:115-122 | the renumbered rows index the sorted base column exactly when no null precedes a value |
| OptionalBuffer.DenseRoundTrip | column_buffer_optional.go:127-128 | dense values beside definition levels read back as the rows |
| OptionalBuffer.OptionalColumnBuffer.Page | column_buffer_optional.go:83-128 | the page reads back as the rows in their swapped order; the buffer stays well formed exactly when it was not reordered or no null precedes a value |
| RepeatedPages.SliceIsRows | page_repeated.go:60-114 | a slice by row is exactly those rows, also when the page starts in the middle of a row |
| RepeatedPages.SlicesCompose | page_repeated.go:60-114 | a slice of a slice is a slice of the page |
| RepeatedPages.Slice | page_repeated.go:60-114 | the scan finds the slice and its number of rows is j - i |
| RepeatedPages.SliceReadsRows | page_repeated.go:60-177 | reading a slice in chunks of any sizes returns rows i to j - 1 of the page, one after the other |
| RepeatedPages.SliceOptional | page_optional.go:54-64 | an optional page is sliced at its levels, which gives the same slice |
| RepeatedPages.PageValues.ReadValues | page_repeated.go:122-177 | reading in buffers of any size over a base reader with short reads returns the page's values in order; the end is reported with the last value |
| BooleanPages.ValueIsShifted | page_boolean.go:50-55 | a value is the bit that a shift to the right leaves at the bottom of its byte |
| BooleanPages.PackedRoundTrip | page_boolean.go:50-55 | values packed at any bit offset, the lowest bit first, read back as they are |
| BooleanPages.SliceIsValues | page_boolean.go:104-122 | a slice holds exactly values i to j - 1, at any bit offset |
| BooleanPages.SlicesCompose | page_boolean.go:104-122 | a slice of a slice is a slice of the page, bytes included |
| BooleanPages.BooleanPageValues.ReadBooleans | page_boolean.go:135-145 | returns the next values in order and reports the end with the last one |
| BigEndian.Increment | column_index.go:703-710 | adds one to the number in place, with a carry exactly when all bytes are 0xFF |
| BigEndian.GreaterNumber | column_index.go:691-714 | of strings of one length the greater number is the greater string, whatever follows the smaller |
| DecimalBytes.BigIntToByteArray | column_buffer_reflect.go:1010-1041 | the bytes decode as two's complement to the integer, for every integer |
| DecimalBytes.PadToFixedLen | column_buffer_reflect.go:1043-1061 | padding with the sign to any sufficient length keeps the integer |
| TruncatedBounds.TruncateLargeMin | column_index.go:684-689 | the cut minimum is the longest prefix within the limit, and at most the value |
| TruncatedBounds.IncrementByteArrayInplace | column_index.go:701-714 | adds one in place, or leaves a string of 0xFF bytes as it is |
| TruncatedBounds.TruncateLargeMax | column_index.go:691-699 | the kept prefix grows by one as a number, or stays if all its bytes are 0xFF; the cut maximum exceeds the value exactly when some kept byte is not 0xFF |

## Left out

- Files, Thrift, encryption, compression, bloom filters, buffer pools, vectorised loops, reflection and printing.
- 32-bit offsets and row counts: sizes are unbounded; levels are narrowed to bytes where the code does so.
- `RowReaders.BufferedRowReader`: the buffer is a sequence of the rows not consumed, so its growth and the reuse of row memory are not captured; inputs return at least one row or an error, in chunks the model does not fix.
- Nil reader pointers of the two-way reader are flags, and its reader objects are never shared.
- Sorting functions of the Go library are modelled by one stable sort; only sortedness, stability and being a permutation are used; of the unstable sort of row groups, not even stability.
- NaN and the order of single values: every column type's comparison is taken to be a total preorder; the typed comparisons of the fast path are taken to be the type's own.
- Looking up sorting columns by path, and sorting columns that occur twice.
- Order of ties across row groups when duplicates are dropped: refinement is not used then.
- `Dedupe.DedupeRowReader.ReadRows`: a call without room, where the code loops until the reader below reports an error; the deduplicating writer, which passes each batch through the same step.
- Wrapping of the seek version after 2^63 seeks, data races of a client that seeks and reads at the same time, and liveness under an unfair scheduler.
- `AsyncPages.ReadsAreSynchronous`: says nothing after a seek to a negative row; `AsyncAgreement` does.
- `PageBounds.BoundsEnclose`: goes one way for several sorting columns, where a null or further values in a later column matter only to rows that tie with a bound in the earlier ones; `ExactBounds.BoundsEncloseExactly` is exact for one.
- Level tables where a target repeats at a node the source does not, and conversion of missing or variant columns.
- `ColumnTree.ColumnLoader.Open`: lists that are not the depth-first list of a tree are not modelled, nor are column and offset index slabs, which are cut like the chunk slab; columns are values, so updates in place are returned.
- Row lengths and Less of the repeated buffer, ReadValuesAt of both buffers, and the second page of an optional buffer whose rows are not well formed.
- `RepeatedPages.PageValues.ReadValues`: read errors of the base page other than its end; the optional reader, which differs only in setting no repetition level.
- `BooleanPages.Slice`: the making of a page from a caller's bits (newBooleanPage), which may be shorter than its values.
- Variant shredding, value conversions, and the pages that are built from dictionary or encoded data.
