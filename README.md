# RsDefrag core in Dafny

RsDefrag defragments the files of an NTFS volume one at a time. It reads the
volume's allocation bitmap and collects the maximal runs of free clusters
("gaps"). It chooses one gap for a file and moves the file's extents into that
gap, in order. This project models the two versions of that engine.

- `VolumeDefragmenter` (`Src/VolumeDefragmenter.cs`) keeps the gaps in a
  `GapStore`. The store holds two views of the same gaps. One is a list ordered
  by start address, searched by binary search. The other is a dictionary of
  per-length lists with the longest lengths first. Every move takes its
  clusters out of the store (`DeleteGap`). `AddGap` deliberately does nothing.
- `Program.DefragOne` (`Src/Program.cs`) is the older version. It puts the gaps
  into a `SortedSet<Gap>` ordered by `Gap.CompareTo` and keeps no record of
  the clusters it consumes.

Both versions choose the gap with the same policy. They walk the gaps longest
first. An exact fit wins at once. Otherwise the last gap of at least twice the
file's length, seen before the first gap shorter than the file, is kept. Both
versions also relocate with the same two-cursor walk over the file map.

Files:

- `gaps.dfy` (module `Gaps`): the `Gap` value, ordering predicates over
  sequences of gaps, and the total number of clusters.
- `bitmap_scan.dfy` (`BitmapScan`): the bitmap scan, proved against the
  decomposition of the bitmap into maximal free runs.
- `placement.dfy` (`Placement`): the selection loop, proved against a
  functional definition, with the lemmas that state the policy.
- `relocation.dfy` (`Relocation`): the extent walk as a function from the file
  map to the list of `MoveFile` calls, with its properties.
- `gap_store.dfy` (`GapRegistry`): class `GapStore`, with the dictionary
  modelled as a key list in descending order plus a map of lists.
- `volume_defragmenter.dfy` (`Defragmenter`): class `VolumeDefragmenter`.
- `program.dfy` (`LegacyDefrag`): `Gap.CompareTo`, the `SortedSet` as an
  ordered sequence, and `DefragOne`.

External calls are inputs:

- `GetVolumeMap` becomes a `seq<bool>`, with `true` meaning the cluster is in use.
- `GetFileMap` becomes a sequence of `Extent(vcn, lcn)`. Here `vcn` is the VCN
  one past the extent's last cluster, as in the source.
- The `MoveFile` calls a run makes are returned as a list of `Move`.
- `failAt` gives the number of the `MoveFile` call that throws, if any.

Exceptions are the `Failed` outcomes.

Behaviour of the code the model keeps:

- The "already in place" test is `curLcn == extent.Lcn + count`, and a skipped
  extent advances only the VCN cursor, not both cursors.
  `Relocation.AbuttingFirstExtentStays` states what this does for every file
  map, and `Relocation.SkipKeepsExtentAbuttingGap` is one instance. A first
  extent that ends exactly where the chosen gap begins is left in place, and
  the rest of the file goes right after it.
- An empty file map throws at `filemap[filemap.Length - 1]`.
- `Gap.CompareTo` in `Program.cs` orders gaps of equal length by descending
  start address, so among equal exact fits `DefragOne` picks the highest address.

## Model

| member | source | states |
|---|---|---|
| BitmapScan.SkipUsed | Src/VolumeDefragmenter.cs:109-110 | the inner loop over used clusters stops at the first free cluster at or after `i` (or the end), having passed only used clusters |
| BitmapScan.SkipFree | Src/VolumeDefragmenter.cs:112-116 | the inner loop over free clusters stops at the first used cluster at or after `i` (or the end), having passed only free clusters |
| BitmapScan.SkipUsedClusters | Src/VolumeDefragmenter.cs:109-110 | the loop's result is the position `SkipUsed` specifies |
| BitmapScan.CountFreeRun | Src/VolumeDefragmenter.cs:112-116 | the loop ends at the end of the free run and adds one to `freeClusters` per free cluster passed |
| BitmapScan.RunsFrom | Src/VolumeDefragmenter.cs:107-119 | the runs the outer scan loop records once it stands at cluster `i`: skip the used clusters, record the free ones that follow as one run if there are any, repeat; its properties are stated by `RunsFromDecomposes` |
| BitmapScan.FreeRuns | Src/VolumeDefragmenter.cs:104-119 | the runs the whole scan records, from cluster 0; its properties are stated by `FreeRunsDecompose` and `FreeRunsPartition` |
| BitmapScan.RunsFromDecomposes | Src/VolumeDefragmenter.cs:107-119 | the runs found from cluster `i` on have positive lengths, lie inside the volume, come in ascending order with a used cluster between neighbours, and cover exactly the free clusters |
| BitmapScan.FreeRunsDecompose | Src/VolumeDefragmenter.cs:104-119 | the same for the scan of the whole bitmap |
| BitmapScan.FreeRunsPartition | Src/VolumeDefragmenter.cs:107-119 | every free cluster lies in exactly one run, and no used cluster lies in any |
| BitmapScan.RunsAreStorable | Src/VolumeDefragmenter.cs:117-120 | the runs are positive, pairwise disjoint and sorted by start, which the GapStore constructor relies on without checking |
| BitmapScan.NoRunsIffFull | Src/VolumeDefragmenter.cs:117-122 | the scan finds no run exactly when every cluster is in use, which is when `First()` throws |
| BitmapScan.ScanRound | Src/VolumeDefragmenter.cs:107-119 | one round of the outer loop ends strictly further on, and the run it records is the next run of the decomposition |
| BitmapScan.ScanVolumeMap | Src/VolumeDefragmenter.cs:104-119 | the scan yields exactly the maximal free runs in address order, and `freeClusters` is their total length |
| Placement.SelectFrom | Src/VolumeDefragmenter.cs:136-147 | the choice from the remaining gaps is the one held so far, or one of those gaps that is an exact fit or at least twice the file |
| Placement.Select | Src/VolumeDefragmenter.cs:135-147 | the chosen gap is `default(Gap)` or one of the gaps, and is an exact fit or at least twice the file |
| Placement.SelectGap | Src/VolumeDefragmenter.cs:135-147 | the `foreach` with its two `break`s leaves in `bestGap` the gap `Select` defines (the loop is repeated at Src/Program.cs:85-97) |
| Placement.SelectAvoidsSlackBand | Src/VolumeDefragmenter.cs:138-146 | a gap strictly longer than the file but shorter than twice it is never chosen, and a chosen gap holds the file |
| Placement.SelectNothingIffZero | Src/VolumeDefragmenter.cs:149 | over positive gaps, `bestGap.Length == 0` holds exactly when no gap was chosen |
| Placement.SelectFromExactFit | Src/VolumeDefragmenter.cs:140-144 | over gaps of non-increasing length, the first exact fit is chosen whatever was held before |
| Placement.SelectFromKeeps | Src/VolumeDefragmenter.cs:138-146 | with no exact fit and no gap of twice the file's length, the gap held so far stands |
| Placement.SelectFromLastAmple | Src/VolumeDefragmenter.cs:138-146 | with no exact fit, the last gap of at least twice the file's length is chosen |
| Placement.SelectPolicy | Src/VolumeDefragmenter.cs:135-147 | the whole policy: the first exact fit if any, else the last gap of at least twice the file, else nothing |
| Placement.SelectPrefersExactFit | Src/VolumeDefragmenter.cs:140-144 | if any gap fits exactly, an exact fit is chosen over every larger gap |
| Relocation.FileLength | Src/VolumeDefragmenter.cs:132 | `fileLength`, the VCN that ends the last extent; `WalkCursors` states that the walk ends with `curVcn` at it and moves no more clusters than it |
| Relocation.Step | Src/VolumeDefragmenter.cs:161-173 | one pass of the extent loop as written (repeated at Src/Program.cs:111-121): an extent with `curLcn == Lcn + count` is skipped and only `curVcn` advances; otherwise `Move(curVcn, curLcn, count)` is issued and both cursors advance by `count`; stated by `StepCursors` and `WalkAdvance` |
| Relocation.Walk | Src/VolumeDefragmenter.cs:157-174 | the cursors and the MoveFile calls after the whole loop when no call throws, from VCN 0 and the gap's start; stated by `WalkCursors` and `WalkStaysInDestination` |
| Relocation.WalkPrefix | Src/VolumeDefragmenter.cs:159-174 | the moves of the walk over the first `i` extents are a prefix of the moves of the whole walk |
| Relocation.StepCursors | Src/VolumeDefragmenter.cs:161-173 | one iteration keeps the cursor facts: `curLcn` is the gap start plus the clusters moved, and each move lands right after the previous one |
| Relocation.WalkCursors | Src/VolumeDefragmenter.cs:157-174 | after the walk, `curVcn` is the file length, `curLcn` is the start plus the clusters moved, the moves are consecutive, and no more clusters are moved than the file has |
| Relocation.WalkStep | Src/VolumeDefragmenter.cs:159-174 | visiting extent `i` is one step from the walk over the extents before it, and the VCN cursor lies between 0 and that extent's end |
| Relocation.WalkAdvance | Src/VolumeDefragmenter.cs:161-173 | a skipped extent advances `curVcn` only; a moved one issues `Move(curVcn, curLcn, count)` and advances both cursors by `count` |
| Relocation.Issued | Src/VolumeDefragmenter.cs:159-174 | the MoveFile calls made when the call numbered `failAt` throws: the plan's calls before it, or the whole plan when none throws; stated by `WalkStopsBeforeMove` and the `ensures` of `Relocate` and `MoveExtents` |
| Relocation.WalkOutcome | Src/VolumeDefragmenter.cs:169-177 | the walk's result: a failure when a MoveFile call throws, otherwise `bestGap.Length == fileLength` (also Src/Program.cs:125); stated by the `ensures` of `Relocate`, `DefragFile` and `DefragOne` |
| Relocation.WalkStopsBeforeMove | Src/VolumeDefragmenter.cs:169 | when a MoveFile call throws, the calls already made are exactly the part of the plan before it |
| Relocation.WalkOneExtent | Src/VolumeDefragmenter.cs:159-174 | one pass of the extent loop: an extent passing the skip test advances only the VCN cursor; otherwise either the MoveFile call at the LCN cursor fails and nothing is issued, or one move of the clusters up to the extent's end is issued right after those already moved, and the walk reaches the next extent |
| Relocation.WalkStaysInDestination | Src/VolumeDefragmenter.cs:157-174 | every move lands in `[bestGap.StartLcn, bestGap.StartLcn + fileLength)`, and each starts where the previous one ended |
| Relocation.FirstExtentStays | Src/VolumeDefragmenter.cs:159-167 | when the first extent ends at the gap start, it passes the skip test, and no move issued while walking the first `i` extents covers any of its clusters |
| Relocation.AbuttingFirstExtentStays | Src/VolumeDefragmenter.cs:157-174 | for every file map whose first extent ends at the gap start, that extent is left in place (no move covers its clusters), and the first move, if any, goes to the gap start |
| Relocation.SkipKeepsExtentAbuttingGap | Src/VolumeDefragmenter.cs:162-167 | an instance: a 3-cluster extent at LCN 97 before a gap at 100 stays, and only the 2 clusters after it are moved, to LCN 100 |
| GapRegistry.Flatten | Src/VolumeDefragmenter.cs:41 | the enumeration, `SelectMany` over the dictionary: the buckets in key order, each in its own order; stated by `FlattenNonIncreasing` and `FlattenMember` |
| GapRegistry.Remainder | Src/VolumeDefragmenter.cs:71 | `newgap`: what is left of a gap after its first `length` clusters |
| GapRegistry.WithoutGap | Src/VolumeDefragmenter.cs:64 | the buckets after `_gapsByLength[oldgap.Length].Remove(oldgap)` (also at line 72); stated by `RemoveFromBucket` |
| GapRegistry.WithGap | Src/VolumeDefragmenter.cs:74-76 | the buckets after `newgap` is appended to the bucket of its length, created empty if missing; stated by `AppendToBucket` |
| GapRegistry.KeysWith | Src/VolumeDefragmenter.cs:74-75 | the dictionary's keys after `ContainsKey`/`Add`: unchanged when the length is a key, otherwise the length inserted in descending order; stated by `InsertDescending` and `InsertDescendingSorted` |
| GapRegistry.InsertDescending | Src/VolumeDefragmenter.cs:29 | adding a new key to the dictionary adds exactly that key |
| GapRegistry.InsertDescendingSorted | Src/VolumeDefragmenter.cs:27-29 | the keys stay in the descending order of `comparerLongDesc` |
| GapRegistry.RemoveFirst | Src/VolumeDefragmenter.cs:64 | `List.Remove` takes out one occurrence of the gap if present and leaves the list unchanged otherwise |
| GapRegistry.Filter | Src/VolumeDefragmenter.cs:36-37 | the `GroupBy` group of one length: the input's gaps of that length, in input order; stated by `FilterMembers` and `FilterHeadLowest`, and the bucket contents in the `ensures` of `GapStore.constructor`, `VolumeDefragmenter.constructor` and `RebuildVolumeMap` |
| GapRegistry.FilterMembers | Src/VolumeDefragmenter.cs:36-37 | a length group holds exactly the gaps of that length |
| GapRegistry.FilterHeadLowest | Src/VolumeDefragmenter.cs:36-37 | over gaps sorted by start, the first gap of a length group has the lowest start of all gaps of that length |
| GapRegistry.FlattenNonIncreasing | Src/VolumeDefragmenter.cs:41 | the enumeration (`SelectMany` over the dictionary) lists gaps in non-increasing length order |
| GapRegistry.FlattenMember | Src/VolumeDefragmenter.cs:41 | every enumerated gap comes from the bucket of some key |
| GapRegistry.FlattenUpdate | Src/VolumeDefragmenter.cs:64 | replacing one bucket changes the enumeration's multiset by exactly that bucket's difference |
| GapRegistry.FlattenInsertKey | Src/VolumeDefragmenter.cs:74-75 | adding a key adds its bucket's gaps to the enumeration |
| GapRegistry.ViewsAgree | Src/VolumeDefragmenter.cs:62-64 | in a consistent store, a gap of the address view is in the bucket of its length, so the "Inconsistent data structure" throws cannot happen |
| GapRegistry.RemoveFromBucket | Src/VolumeDefragmenter.cs:64 | removing a gap from its bucket removes exactly that gap from the enumeration and keeps the dictionary well formed |
| GapRegistry.AppendToBucket | Src/VolumeDefragmenter.cs:74-76 | adding a gap to the bucket of its length, creating the key if missing, adds exactly that gap to the enumeration |
| GapRegistry.RemoveAtKeepsOrder | Src/VolumeDefragmenter.cs:63 | `RemoveAt` keeps the address view ordered and positive, and removes exactly that gap |
| GapRegistry.UpdateAtKeepsOrder | Src/VolumeDefragmenter.cs:77 | replacing a gap by a positive sub-range keeps the address view ordered |
| GapRegistry.WholeRemovalValid | Src/VolumeDefragmenter.cs:60-66 | case 1 keeps the store consistent and removes the gap's clusters from the total |
| GapRegistry.PrefixRemovalValid | Src/VolumeDefragmenter.cs:67-78 | case 2 keeps the store consistent and removes exactly `length` clusters from the total |
| GapRegistry.DeletedAtEnsures | Src/VolumeDefragmenter.cs:56-78 | a deletion at the index the binary search found is the deletion at the one index holding that start, and it keeps the store consistent |
| GapRegistry.DeletedAt | Src/VolumeDefragmenter.cs:60-78 | DeleteGap's two cases at index `i`: the whole gap leaves both views, or its rest replaces it in the address view and joins the end of the bucket of its new length, created if missing; the `ensures` of `DeleteGap`, `DeleteWhole` and `DeletePrefix` state their effect through it, and `DeletedAtPreservesValid` states it keeps the store consistent |
| GapRegistry.DeletedAtPreservesValid | Src/VolumeDefragmenter.cs:56-78 | either case keeps the two views consistent and lowers the total by `length` |
| GapRegistry.InsertByLcn | Src/VolumeDefragmenter.cs:35 | inserting into the stable sort adds exactly that gap |
| GapRegistry.SortByLcn | Src/VolumeDefragmenter.cs:35 | `OrderBy(g => g.StartLcn)` is a permutation of its input |
| GapRegistry.InsertByLcnSorted | Src/VolumeDefragmenter.cs:35 | the insertion keeps starts sorted |
| GapRegistry.SortByLcnSpec | Src/VolumeDefragmenter.cs:35 | the sort's output is sorted by start, and disjoint when the input is |
| GapRegistry.SortByLcnOfSorted | Src/VolumeDefragmenter.cs:35 | sorting gaps already in address order (as the scan yields them) changes nothing |
| GapRegistry.SortedView | Src/VolumeDefragmenter.cs:34-35 | the address view built from positive, non-overlapping gaps is ordered and positive |
| GapRegistry.GroupStep | Src/VolumeDefragmenter.cs:36-37 | adding one more gap to the grouping keeps bucket k equal to the gaps of length k in input order |
| GapRegistry.GroupByLength | Src/VolumeDefragmenter.cs:36-37 | `GroupBy(g => g.Length)` gives one non-empty bucket per occurring length, holding that length's gaps in input order, with the same multiset as the input |
| GapRegistry.BuiltState | Src/VolumeDefragmenter.cs:32-38 | the sorted address view and the grouping by length form a consistent store |
| GapRegistry.OrderedStartsUnique | Src/VolumeDefragmenter.cs:58 | in a consistent store, no two gaps share a start, so the binary search's hit is the only candidate |
| GapRegistry.BinarySearchByLcn | Src/VolumeDefragmenter.cs:58 | `List.BinarySearch` by start returns an index holding that start, or the complement of the insertion point, with smaller starts before it and larger ones after it |
| GapRegistry.GapStore.constructor | Src/VolumeDefragmenter.cs:32-38 | the address view is the sort by start, bucket k holds the input's gaps of length k in order, only occurring lengths have a bucket, and the store is consistent |
| GapRegistry.GapStore.Count | Src/VolumeDefragmenter.cs:40 | in a consistent store, the address list's count is the number of enumerated gaps |
| GapRegistry.GapStore.Elements | Src/VolumeDefragmenter.cs:41-42 | the enumeration holds the same gaps as the address view, longest first |
| GapRegistry.GapStore.AddGap | Src/VolumeDefragmenter.cs:44-54 | the store is left unchanged |
| GapRegistry.GapStore.DeleteGap | Src/VolumeDefragmenter.cs:56-85 | a whole gap or a prefix of a gap starting at `startLcn` is removed; in the prefix case the rest replaces it in both views; any other range leaves the store unchanged (NotImplementedException); the Inconsistent and key-missing throws only happen in an inconsistent store; a consistent store stays consistent with `length` fewer clusters |
| GapRegistry.GapStore.DeleteWhole | Src/VolumeDefragmenter.cs:60-66 | case 1: the gap leaves the address list and its bucket, or the method throws on a missing key or gap |
| GapRegistry.GapStore.DeletePrefix | Src/VolumeDefragmenter.cs:67-78 | case 2: the gap leaves its bucket, the rest joins the bucket of its length (created if missing) and replaces the gap in the address list |
| Defragmenter.ShrinkFurther | Src/VolumeDefragmenter.cs:170 | one `DeleteGap(curLcn, count)` at the front of what is left of the chosen gap shrinks it by `count` more clusters, or removes it once it is used up, and leaves every other gap of the address view as it was |
| Defragmenter.LocateChosen | Src/VolumeDefragmenter.cs:135-147 | the chosen gap is at some index of the address view and holds the file |
| Defragmenter.LongestFirst | Src/VolumeDefragmenter.cs:122 | `First()` of the enumeration is a gap of the volume as long as any other |
| Defragmenter.FirstOfStoreIsLowest | Src/VolumeDefragmenter.cs:36-41 | the first gap the new store enumerates is the first of the longest bucket, so over runs sorted by start it has the lowest start among the gaps of its length |
| Defragmenter.VolumeDefragmenter.constructor | Src/VolumeDefragmenter.cs:93-97 | the new object holds a consistent store whose address view is the volume's free runs and whose bucket for each length holds the runs of that length in scan (ascending address) order |
| Defragmenter.VolumeDefragmenter.RebuildVolumeMap | Src/VolumeDefragmenter.cs:99-123 | the new store's address view is the volume's free runs and each length's bucket holds the runs of that length in scan order; `freeClusters` is their total; the reported largest gap (`First()`) is a longest run, the one with the lowest address among the longest, or absent (`First()` throws) exactly when the volume is full |
| Defragmenter.VolumeDefragmenter.TakeFromGap | Src/VolumeDefragmenter.cs:170-171 | one DeleteGap/AddGap pair takes `count` clusters off the front of what is left of the chosen gap: the address view is the one the walk started from with the chosen gap shrunk by all clusters used so far, or without it once used up, every other gap unchanged, and the total lower by exactly those clusters; both views change exactly as `DeletedAt` prescribes for that gap's index: the gap leaves its length bucket, and its rest replaces it in the address view and goes to the end of the bucket of its new length, created if missing |
| Defragmenter.VolumeDefragmenter.WalkingStarts | Src/VolumeDefragmenter.cs:157-158 | before the loop, `curVcn` is 0, `curLcn` is the chosen gap's start, nothing is moved, and the store is the one the selection ran over |
| Defragmenter.VolumeDefragmenter.ConsumeMove | Src/VolumeDefragmenter.cs:170-171 | when a turn of the loop issued a move right after the clusters already moved, its clusters leave the front of the chosen gap (every other gap unchanged), and both views change exactly as `DeletedAt` prescribes for that gap's index; otherwise the store is left exactly as it was |
| Defragmenter.VolumeDefragmenter.VisitExtent | Src/VolumeDefragmenter.cs:159-174 | one loop iteration advances the walk by one extent, issuing at most one MoveFile call and taking its clusters off the front of the chosen gap (every other gap unchanged), or stops at the failing call with the store untouched |
| Defragmenter.VolumeDefragmenter.Relocate | Src/VolumeDefragmenter.cs:157-177 | the calls made are the walk's plan up to the failing call; the result is MoveFailed or whether the gap fitted exactly; the store stays consistent, its total is lower by exactly the clusters moved, and its address view is the old one with the chosen gap (at `k`) shrunk from the front by those clusters, or removed when all were used, every other gap unchanged; with no move the store is untouched |
| Defragmenter.VolumeDefragmenter.DefragFile | Src/VolumeDefragmenter.cs:125-178 | a single-extent file returns false and an empty map throws, without moves; no suitable gap throws before any move; otherwise the walk into the policy's gap runs as `Relocate` states, and the new address view is the old one with that gap (at index `at`) shrunk from the front by the clusters moved, or removed when all were used, every other gap unchanged |
| LegacyDefrag.CompareTo | Src/Program.cs:135-146 | the result is -1, 0 or 1, and 0 exactly when both fields are equal |
| LegacyDefrag.CompareAntisymmetric | Src/Program.cs:135-146 | swapping the operands negates the result |
| LegacyDefrag.CompareTransitive | Src/Program.cs:135-146 | "comes before" is transitive, so the order is a strict total order |
| LegacyDefrag.CompareIsLengthThenAddressDescending | Src/Program.cs:137-144 | a gap comes first exactly when it is longer, or equally long at a higher address |
| LegacyDefrag.SetAdd | Src/Program.cs:80 | `SortedSet.Add` adds exactly the new gap, and adding a present gap adds nothing |
| LegacyDefrag.PutInFront | Src/Program.cs:80 | a gap that comes before the set's first element goes in front, and is not yet in the set |
| LegacyDefrag.PutBehind | Src/Program.cs:80 | an element before every other keeps the set ordered at its head |
| LegacyDefrag.SetAddKeepsOrder | Src/Program.cs:80 | `Add` keeps the set in CompareTo order and leaves it unchanged when the gap is present |
| LegacyDefrag.SetOf | Src/Program.cs:67-81 | the set built by successive adds is in CompareTo order and holds exactly the gaps added |
| LegacyDefrag.SetOfDistinct | Src/Program.cs:67-81 | adding distinct gaps gives a set with each gap exactly once |
| LegacyDefrag.OrderedLengthsNonIncreasing | Src/Program.cs:86-97 | the set is enumerated in non-increasing length order, as the selection loop relies on |
| LegacyDefrag.RunsDistinct | Src/Program.cs:79-80 | the scan never adds the same gap twice |
| LegacyDefrag.LegacySetOfRuns | Src/Program.cs:66-81 | the set holds every free run exactly once, with positive lengths, in CompareTo order |
| LegacyDefrag.ScanIntoSortedSet | Src/Program.cs:66-81 | the scan builds the set of the volume's free runs, and `freeClusters` is their total length |
| LegacyDefrag.ExactFitHighestAddress | Src/Program.cs:85-97 | among equally long exact fits, the one at the highest address is chosen |
| LegacyDefrag.AmpleFitLowestAddress | Src/Program.cs:85-97 | with no exact fit, the shortest gap of at least twice the file is chosen, and among those the one at the lowest address |
| LegacyDefrag.LegacyChoice | Src/Program.cs:85-97 | the gap the selection loop leaves in `bestGap` when it runs over the SortedSet of the volume's free runs; stated by `ExactFitHighestAddress`, `AmpleFitLowestAddress` and `NoSuitableGapIff` |
| LegacyDefrag.NoSuitableGapIff | Src/Program.cs:85-104 | nothing is chosen (and the method throws) exactly when no gap fits exactly and none is twice the file |
| LegacyDefrag.LegacyMovesLandOnFreeClusters | Src/Program.cs:85-122 | the chosen gap holds the file, and every move lands on consecutive clusters inside it that were free in the bitmap |
| LegacyDefrag.MoveExtents | Src/Program.cs:107-122 | the MoveFile calls made are the walk's plan up to the failing call, and the loop reports a failure exactly when one occurs |
| LegacyDefrag.DefragOne | Src/Program.cs:53-126 | a single-extent file returns false and an empty map throws; a full volume throws at `First()`; no suitable gap throws before any move; otherwise the calls are the walk's plan into the chosen gap up to the failing call, and the result is whether the gap fitted exactly |

## Left out

- Console output, `Console.Title`, `ToString` and the volume and file names are left out. They are reporting only.
- `Main`, `AnalyzeDirectory`, `AnalyzeFile` and `DefragDirectory` are left out. They enumerate directories and count files.
- `IOWrapper` is not part of this model. The volume bitmap and file map are inputs. MoveFile's only effect on the model is whether it throws, given by `failAt`.
- `GapStore.Gap.ComparerByLengthDesc` is left out because nothing uses it.
- `DeleteGap`'s throws (KeyNotFound, "Inconsistent data structure", NotImplementedException) are results of a `DeleteOutcome` type. The store's state is what it is at the throw.
- The multiset lemmas in `gap_store.dfy` behind DeleteGap and the constructor's grouping (such as `CancelAdd` and `UnionFrame`) only support the proofs.
- Defragmenter.VolumeDefragmenter.DefragFile: it requires file maps as GetFileMap produces them, with strictly increasing VCNs and a last VCN within Int32. So the `checked((int) ...)` cast never throws and the int `curVcn` never wraps. The OverflowException is not modelled.
- LegacyDefrag.DefragOne: it makes the same file-map assumption as DefragFile, for the same reason.
- BitmapScan.ScanVolumeMap: `freeClusters` is an unbounded integer. The source's `int` counter would wrap on a volume with more than 2^31 - 1 free clusters.
- LegacyDefrag.ScanIntoSortedSet: its `freeClusters` is also unbounded, as in ScanVolumeMap.
- Defragmenter.VolumeDefragmenter.constructor: on a volume with no free cluster, the source's constructor throws from `First()` inside RebuildVolumeMap. The model builds the object with an empty store, because a Dafny constructor cannot fail. RebuildVolumeMap itself reports this case as `None`.
- Defragmenter.VolumeDefragmenter.DefragFile: the length view after the walk is stated only through the store's consistency, which fixes the multiset of each bucket (the address view's gaps of that length) but not their order within the bucket, nor the empty buckets the source leaves behind when a remainder's length bucket empties again. The address view is stated exactly.
- Defragmenter.VolumeDefragmenter.Relocate: the same holds for the length view after the walk.
- Defragmenter.VolumeDefragmenter.VisitExtent: the same holds for the length view after one move.
- Defragmenter.VolumeDefragmenter.DefragFile: a move that throws leaves the moves already made in place. Nothing is rolled back, in the source or in the model.
- `SortedSet<Gap>` is modelled by the sequence its enumeration yields, not as a red-black tree. Only that order and its contents are observable in `DefragOne`.
