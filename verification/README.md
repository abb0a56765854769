# Verified models of vaultic

Vaultic is a backup program: it reads files, cuts them into chunks, stores the chunks and the
directory trees by the hash of their content, and later merges, compares, copies, recovers and
forgets the snapshots made of them. This project models its most intricate algorithms and
protocols in Dafny and proves what they promise, for every input and every interleaving.

Each file is one module:

| file | what it models |
|---|---|
| `Wrappers.dfy` | optional values and results, shared by all |
| `FileSaver.dfy` | completion of a file whose chunks are uploaded asynchronously, over every interleaving |
| `WorkerPools.dfy` | the pools of file and tree workers whose jobs wait for the results of other jobs |
| `DirectoryStream.dfy` | the bounded directory look-ahead with memory reservations and an orderly close |
| `StreamSafety.dfy` | what every run of the look-ahead keeps: one job for each result, each reservation released once |
| `StreamClosing.dfy` | how long closing the look-ahead takes |
| `Chunking.dfy` | cutting a file into chunks through a reused read buffer |
| `SnapshotStore.dfy` | the content-addressed store of trees shared by the next four |
| `MergeTrees.dfy` | the n-way merge of snapshot trees |
| `DiffTrees.dfy` | the comparison of two snapshots with its shortcut for identical subtrees |
| `CopySnapshots.dfy` | copying snapshots in batches while skipping trees already visited |
| `RecoverTrees.dfy` | finding the roots of trees that no snapshot refers to |
| `PathComponents.dfy` | taking an absolute path apart |
| `TargetTree.dfy` | folding backup targets into a tree and unrolling it |
| `BlobCache.dfy` | the byte-budgeted least-recently-used cache of blobs |
| `BlobCacheCalls.dfy` | concurrent lookups that share one computation per blob |
| `MonitorWindow.dfy` | the bounded store of monitoring samples, compacted in place |
| `MonitorChange.dfy` | when two monitoring snapshots say the same |
| `MonitorBaseline.dfy` | the search for the baseline of a monitoring window |
| `MarkerCache.dfy` | the two-level cache of exclusion decisions |
| `Forget.dfy` | forgetting snapshots in two phases while others write |
| `Duration.dfy` | printing and parsing durations |

Protocols are transition systems: a datatype of steps, a predicate that says when a step is
possible, a function that applies it, and theorems about the state after any run of steps.
Objects whose fields the program updates are classes; their methods are proved against functions
on values, about which the theorems are stated. Run `dafny verify dfyconfig.toml` to check
everything.

## Where the code and its promises differ

- The comment above the file saver says that the end of reading is always reported before the file
  is completed. This holds for every successful file (`FileSaver.SavedIsComplete`). It fails exactly
  when an upload fails before the report (`FileSaver.ReadingReportedLate`).
- `copy` passes over a blob that the source's index does not list, without an error. A saved snapshot
  is complete exactly if everything it reaches was in the destination before or is listed by the
  source (`CopySnapshots.CopyInto`); `CopySnapshots.UnlistedBlobIsLost` is a copy that succeeds and
  saves an incomplete snapshot.
- When a directory becomes something else between two snapshots, `diff` does not look below it. Blob by
  blob, `DiffTrees.WrongWhenMisled` says exactly when the report is wrong, in terms of what such a
  change hides in the two trees.
- `merge` treats a directory without a subtree like a file: it hides what older snapshots have below
  it (`MergeTrees.NilSubtreeHides`).
- `recover` hands the new roots to the tree writer in map order, while the writer accepts only
  ascending names. Every order is accepted exactly when there is at most one root
  (`RecoverTrees.AcceptedAlways`), at most one order is accepted for any set of roots
  (`RecoverTrees.AcceptedOnce`), and one is exactly when the short names differ
  (`RecoverTrees.AcceptedSometimes`).
- A duration with a field equal to the smallest 64-bit integer prints as text on which the parser
  panics; every other duration survives the round trip (`Duration.RoundTrip`).
- Snapshots named on the command line bypass the retention policy, so a group can lose all its
  members (`Forget.ExplicitCanEmptyGroup`). A group keeps one exactly if a member is not selected in
  one of the two observations (`Forget.RunForget`), which for named snapshots means protected or not
  found (`Forget.ExplicitSpares`).

## Model

| member | source | states |
|---|---|---|
| `FileSaver.FileSaveCompletion.CompleteBlob` | internal/archiver/file_saver.go:193-213 | the counter goes down by one; at zero a file that has not failed is finished with its content, size and statistics, and a null ID or a second completion is a recorded fault |
| `FileSaver.FileSaveCompletion.CompleteError` | internal/archiver/file_saver.go:215-231 | the first error finishes the file as failed; later errors and later completions change nothing |
| `FileSaver.FileSaveCompletion.Perform` | internal/archiver/file_saver.go:193-341 | every step of the reader and of the callbacks does to the shared record what the transition system says |
| `FileSaver.ErrorSettles` | internal/archiver/file_saver.go:193-231 | after an error neither another error nor a completion delivers anything |
| `FileSaver.ReachableInv` | internal/archiver/file_saver.go:193-341 | every run of reader, upload callbacks, upload errors and cancellation keeps the invariant that ties the counter to the uploads issued and counted |
| `FileSaver.NeverPanics` | internal/archiver/file_saver.go:193-231 | in no interleaving is a panic reached or `finish` called twice, and every issued upload has a slot in the content list |
| `FileSaver.SettledFinishedOnce` | internal/archiver/file_saver.go:193-341 | once the reader has returned and all callbacks have run, `finish` was called exactly once, and with a node exactly when reading ended normally and no upload failed |
| `FileSaver.SavedIsComplete` | internal/archiver/file_saver.go:193-341 | a successful finish comes after the end of reading and the last upload; there is one ID for each chunk read, in file order and as that chunk's own callback was given it; the size is the total length of the chunks; and the statistics are the number, the length and the stored size of exactly the chunks whose callback said they were not known |
| `FileSaver.ReportedOnce` | internal/archiver/file_saver.go:296-314 | no report of a callback is lost or overwritten, so each chunk is reported on at most once |
| `FileSaver.StatsAreSums` | internal/archiver/file_saver.go:296-314 | the statistics kept while callbacks come in any order are the sums over the chunks that are not known |
| `FileSaver.UnsettledHasStep` | internal/archiver/file_saver.go:234-341 | a job that is not settled can always take a step |
| `FileSaver.ReadingReportedFirst` | internal/archiver/file_saver.go:71-74 | a finish that precedes the report of the end of reading is a failure after a rejected upload |
| `FileSaver.ReadingReportedLate` | internal/archiver/file_saver.go:71-74 | in any run, the file is finished before the end of reading is reported exactly when an upload fails before that report |
| `FileSaver.ReadingReportedAfterFailure` | internal/archiver/file_saver.go:215-231 | a run in which the failure is delivered before the end of reading is reported |
| `SnapshotStore.LessPrecedes` | cmd/vaultic/cmd_merge.go:148-152 | a name comes before another exactly if it is a proper prefix of it or has the smaller character where the two first differ |
| `SnapshotStore.ReachByChains` | cmd/vaultic/cmd_diff.go:133-140 | a snapshot needs a tree exactly if a chain of subtrees leads to it, and data exactly if a chain leads to a tree with a node that lists it |
| `SnapshotStore.LoadsByChains` | cmd/vaultic/cmd_diff.go:183-245 | everything below a tree loads exactly if every chain of subtrees ends at a stored tree |
| `WorkerPools.SubmitShape` | internal/archiver/archiver.go:378-433 | the traversal hands over a tree job only after the jobs of all its children, and every future has one owner |
| `WorkerPools.SubmitValue` | internal/archiver/archiver.go:378-433 | the future returned for an item stands for what a sequential traversal builds for it |
| `WorkerPools.NotYetTaken` | internal/archiver/archiver.go:508-526 | the channel of a future that its job has not taken yet still holds or will hold the result |
| `WorkerPools.NoDeadlock` | internal/archiver/tree_saver.go:46-125 | whenever a handed-over job is unfinished, the workers can take a step by themselves |
| `WorkerPools.NeverStuck` | internal/archiver/tree_saver.go:46-62 | with at least one worker of each kind, the traversal and the pools together can always go on until the root is delivered |
| `WorkerPools.StepDoesWork` | internal/archiver/tree_saver.go:76-125 | every step does exactly one unit of a finite amount of work |
| `WorkerPools.BackupNeverDeadlocks` | internal/archiver/file_saver.go:75-105 | in every run for any source and any worker counts: no future is read twice, no pool has more busy workers than it has workers, and some step is possible until the root is delivered |
| `WorkerPools.BackupDeliversTree` | internal/archiver/tree_saver.go:76-125 | every run is finite, and one that cannot go on has delivered exactly the tree of the sequential traversal with all jobs finished |
| `DirectoryStream.SecondReleaseSeen` | internal/crawl/cwalk_stream.go:129-212 | a second release of a reservation is always noticed and never forgotten |
| `StreamSafety.StepKeepsInv` | internal/crawl/cwalk_stream.go:91-301 | every step of the workers, of the one consumer and of `Close` keeps the whole invariant |
| `StreamSafety.ReachableInv` | internal/crawl/cwalk_stream.go:53-117 | the invariant holds after every run from a new stream |
| `StreamSafety.OneJobPerUnfinished` | internal/crawl/cwalk_stream.go:214-301 | in every run, pending and queue stay within the capacity, and every pending result that is not done has exactly one job, queued or in the hands of one worker |
| `StreamSafety.LeasesReleasedOnce` | internal/crawl/cwalk_stream.go:129-212 | in every run no reservation is released twice, and none is left once `Close` has returned |
| `StreamSafety.ClosedHoldsNothing` | internal/crawl/cwalk_stream.go:364-403 | after `Close` nobody is left who owns a reservation |
| `StreamSafety.CloseNotStuck` | internal/crawl/cwalk_stream.go:364-385 | once `Close` has been called, until it returns a worker, the consumer or `Close` itself can take a step |
| `StreamClosing.CancelledRun` | internal/crawl/cwalk_stream.go:91-301 | once the stream is cancelled, every run is bounded by the work that is left and the entries still found |
| `StreamClosing.CloseReturns` | internal/crawl/cwalk_stream.go:364-385 | from the moment `Close` cancels, all take at most seven steps for each worker, eight for each place, eleven, and nine for each entry of the one directory that may still be taken in |
| `Chunking.ScanInPieces` | internal/vaultic/chunker.go:5-13 | feeding a chunker two pieces one after the other finds the same boundary as feeding them at once |
| `Chunking.ChunksPartition` | internal/archiver/file_saver.go:258-325 | the reference chunks are non-empty and concatenate to the content |
| `Chunking.FileReader.ReadFull` | internal/archiver/file_saver.go:137-160 | a full read takes as much as the buffer holds or the file still has |
| `Chunking.FileChunkState.Reset` | internal/archiver/file_saver.go:125-131 | nothing of an earlier file stays in the buffer |
| `Chunking.FileChunkState.ReadNextChunk` | internal/archiver/file_saver.go:133-172 | returns the first chunk of the unread bytes, whatever part of them is buffered, and leaves exactly the rest unread |
| `Chunking.FileChunkState.ReadFile` | internal/archiver/file_saver.go:258-325 | whatever an earlier, possibly aborted file left behind, the chunks are those of feeding this file's content at once; a read error leaves a prefix of them |
| `MergeTrees.NewestWins` | cmd/vaultic/cmd_merge.go:122-160 | a path shows the node of the newest tree that decides about it, and is absent if that tree has something other than a directory at a proper prefix |
| `MergeTrees.MergeLookup` | cmd/vaultic/cmd_merge.go:122-160 | a path is in the merge exactly when some tree shows it with no newer tree deciding otherwise, and then with that tree's node |
| `MergeTrees.MergeStepwise` | cmd/vaultic/cmd_merge.go:122-160 | merging `xs + [c]` is merging the result for `xs` with `c` |
| `MergeTrees.MergedStable` | cmd/vaultic/cmd_merge.go:122-160 | if no tree was missing, the merge shows what the trees showed before it, whatever is saved meanwhile |
| `MergeTrees.NilSubtreeHides` | cmd/vaultic/cmd_merge.go:137-138 | a store in which a directory without a subtree hides an older file |
| `MergeTrees.SortedNodes` | cmd/vaultic/cmd_merge.go:148-159 | the nodes come out once each, and of two names the earlier one is a proper prefix of the later one or has the smaller character where they first differ |
| `MergeTrees.Repository.MeetNode` | cmd/vaultic/cmd_merge.go:133-145 | a node of the newer tree replaces the older one, except that two directories are merged recursively |
| `MergeTrees.Repository.MergeTrees` | cmd/vaultic/cmd_merge.go:122-160 | in any repository, also one with missing trees: on success all given trees were there, every path of the saved tree shows what the reference merge shows, now and after any further saving, its names are in ascending order in the sense above, and no existing tree is changed |
| `DiffTrees.WalkCovers` | cmd/vaultic/cmd_diff.go:247-359 | the sets collected by the walk, together with the blobs of skipped directories, are exactly what the two trees reach |
| `DiffTrees.WalkFinds` | cmd/vaultic/cmd_diff.go:247-359 | the walk collects for each side what the side shows, and misses what lies below a directory that meets something else at the same path, at any depth |
| `DiffTrees.ReachIsVisibleOrHidden` | cmd/vaultic/cmd_diff.go:247-359 | a snapshot reaches exactly what it shows and what it hides |
| `DiffTrees.ReportsVisible` | cmd/vaultic/cmd_diff.go:445-455 | for any two snapshots, removed is what the first shows and the second does not, and added the other way round |
| `DiffTrees.WrongWhenMisled` | cmd/vaultic/cmd_diff.go:445-455 | for each blob, the report is wrong exactly when a type change hides the blob on one side: missing if it is only hidden and the other side lacks it, reported wrongly if the other side only hides it |
| `DiffTrees.ReportedExactly` | cmd/vaultic/cmd_diff.go:445-455 | the removed and the added blobs are reported right exactly when no blob is hidden in this way, a condition on the two trees alone |
| `DiffTrees.DiffIsExact` | cmd/vaultic/cmd_diff.go:247-359 | if no name switches between directory and non-directory, removed and added are exactly the differences of the reachable blobs, although identical subtrees are never compared |
| `DiffTrees.TypeChangeIsMissed` | cmd/vaultic/cmd_diff.go:316-326 | for any two snapshots that load and a type change at any depth: a blob only below such directories that the second does not use is not reported as removed |
| `DiffTrees.TypeChangeExample` | cmd/vaultic/cmd_diff.go:316-326 | a concrete pair of snapshots with a wrong report |
| `DiffTrees.Comparer.CollectDir` | cmd/vaultic/cmd_diff.go:183-245 | collects everything reachable below a tree into one set; a tree that does not load adds nothing |
| `DiffTrees.Comparer.DiffPair` | cmd/vaultic/cmd_diff.go:277-326 | two nodes of the same name: a common subtree is only collected, different subtrees are compared, anything else is not followed |
| `DiffTrees.Comparer.DiffTree` | cmd/vaultic/cmd_diff.go:247-359 | the loop over both trees adds exactly the reference walk to the three sets |
| `DiffTrees.RunDiff` | cmd/vaultic/cmd_diff.go:445-455 | removed and added are what one side shows and the other does not; when the trees load and no name switches kind, they are what chains of subtrees lead to from one snapshot and not from the other |
| `DiffTrees.UpdateBlobs` | cmd/vaultic/cmd_diff.go:162-181 | the counters are the numbers of data and tree blobs and their total size, unknown sizes adding nothing |
| `CopySnapshots.VisitedReach` | cmd/vaultic/cmd_copy.go:304-326 | if every visited tree's own available blobs are there and its subtrees are visited, everything available and reachable from a visited tree is there |
| `CopySnapshots.CompleteWhen` | cmd/vaultic/cmd_copy.go:217-340 | a saved snapshot is complete exactly when everything it reaches was available |
| `CopySnapshots.Destination.CopyBlobs` | internal/repository/repack.go:58-150 | success means that the blobs listed by the source's index are handed over, and nothing else is |
| `CopySnapshots.Copier.EnqueueTree` | cmd/vaultic/cmd_copy.go:292-323 | after a tree is enqueued its own blobs are in the destination, on the way or to be copied, listed or not |
| `CopySnapshots.Copier.StreamTrees` | cmd/vaultic/cmd_copy.go:304-329 | visits every tree below the root that was not visited before, keeping the property above |
| `CopySnapshots.Copier.CopyTree` | cmd/vaultic/cmd_copy.go:285-340 | on success the tree is visited and everything available that it needs is there or on the way; it succeeds if the repositories work and all trees below load |
| `CopySnapshots.Copier.SaveBatch` | cmd/vaultic/cmd_copy.go:271-279 | saves the snapshots of a durable batch in order, stopping at the first failure |
| `CopySnapshots.Copier.CopyTreeBatched` | cmd/vaultic/cmd_copy.go:217-283 | in every state passed through, also after an abort, what a saved snapshot lacks is exactly what it reaches and what neither the destination had nor the source lists; the snapshots are saved in order and once each, all of them if nothing fails |
| `CopySnapshots.CopyInto` | cmd/vaultic/cmd_copy.go:217-372 | in every state of a copy a saved snapshot is complete if and only if everything it reaches was there before or is listed by the source's index; each is a copy of the one selected at its place: the same tree, no parent, and the original that one had or else that one itself |
| `CopySnapshots.UnlistedBlob` | cmd/vaultic/cmd_copy.go:292-302 | a source with one file whose trees all load and whose content is not listed |
| `CopySnapshots.UnlistedBlobIsLost` | cmd/vaultic/cmd_copy.go:292-340 | copying it succeeds and saves the snapshot without the content |
| `RecoverTrees.FindRecoverTrees` | cmd/vaultic/cmd_recover.go:142-176 | the map holds the indexed trees and the children found, marked exactly if some loadable tree has them as a child, whether or not keys added during the traversal are visited |
| `RecoverTrees.RecoverRoots` | cmd/vaultic/cmd_recover.go:74-95 | the roots are exactly the indexed trees that are neither a child of a loadable tree nor a snapshot's tree |
| `RecoverTrees.NothingLost` | cmd/vaultic/cmd_recover.go:74-95 | in an acyclic store every indexed tree is reachable from a recovered root or an existing snapshot |
| `RecoverTrees.ReachTransitive` | cmd/vaultic/cmd_recover.go:74-95 | what a reachable tree reaches is reachable |
| `RecoverTrees.WriteRoots` | cmd/vaultic/cmd_recover.go:107-136 | the new tree is written exactly when the traversal is in ascending order of the short names, and then has one directory for each root |
| `RecoverTrees.SomeOrderFails` | cmd/vaultic/cmd_recover.go:107-136 | of any two or more roots some traversal is refused |
| `RecoverTrees.AcceptedAlways` | cmd/vaultic/cmd_recover.go:107-136 | every traversal of the roots is accepted exactly when there is at most one |
| `RecoverTrees.AcceptedOnce` | cmd/vaultic/cmd_recover.go:107-136 | two accepted traversals of the same roots are equal |
| `RecoverTrees.AcceptedSometimes` | cmd/vaultic/cmd_recover.go:107-136 | some traversal is accepted exactly when the short names differ |
| `PathComponents.LastComponent` | internal/archiver/tree.go:45-54 | the base of a path is its last component, and its directory is the path of the others |
| `PathComponents.PathOfInjective` | internal/archiver/tree.go:34-73 | different components make different paths, so a path can be given by its components |
| `PathComponents.Reverse` | internal/archiver/tree.go:56-60 | swapping from the middle outwards reverses in place |
| `PathComponents.Components` | internal/archiver/tree.go:34-73 | the loop and the reversal give back the components a clean absolute path is made of |
| `TargetTree.AddRepresents` | internal/archiver/tree.go:159-202 | adding below a node succeeds exactly when the target is not there yet, and gives the tree for one target more |
| `TargetTree.AddTopRepresents` | internal/archiver/tree.go:100-156 | adding to the whole tree fails only without components, and gives the tree for one target more |
| `TargetTree.RepresentsUnique` | internal/archiver/tree.go:100-202 | the set of targets determines the tree |
| `TargetTree.OrderIrrelevant` | internal/archiver/tree.go:288-305 | the same targets in any order and with repetitions are the same set |
| `TargetTree.ExpandCanonical` | internal/archiver/tree.go:240-265 | a node in its place never collides with an entry: expanding it fails only for what cannot be listed |
| `TargetTree.ExpandNode` | internal/archiver/tree.go:240-265 | going through the directory's entries in any order gives the reference expansion |
| `TargetTree.Unroll` | internal/archiver/tree.go:236-277 | unrolling the subtrees in any order gives the reference result |
| `TargetTree.UnrolledOnlyLeaves` | internal/archiver/tree.go:236-277 | no node of an unrolled tree has both a path and children |
| `TargetTree.UnrolledCovers` | internal/archiver/tree.go:236-277 | an existing file that any node covered before unrolling is covered by exactly one leaf afterwards, any other by none |
| `TargetTree.UnrolledLabelled` | internal/archiver/tree.go:236-277 | in an unrolled tree exactly the inner nodes have a metadata path, each its own place, and exactly the leaves at explicit targets are explicit |
| `TargetTree.UnrollFailsWhen` | internal/archiver/tree.go:240-265 | unrolling fails exactly when something between two nested targets is found but cannot be listed |
| `TargetTree.FoldTargets` | internal/archiver/tree.go:290-305 | the folded tree is the one for the set of targets, and folding fails exactly for a target without components |
| `TargetTree.NewTree` | internal/archiver/tree.go:288-315 | paths only at leaves, each leaf's path is its position, metadata paths exactly at the inner nodes, every existing file under a target covered exactly once and no other, the result depends on the set of targets only, and the exact failure condition |
| `BlobCache.AlwaysBalanced` | internal/bloblru/cache.go:15-79 | after any sequence of operations, free is the size less the lengths of the buffers and 96 bytes for each, and is not negative; IDs are distinct and the entries are within the list's own limit |
| `BlobCache.AlwaysInUseOrder` | internal/bloblru/cache.go:48-89 | after any sequence of operations the entries are in the order of their last use, so the one used longest ago is the first to go |
| `BlobCache.OnlyWhatWasAdded` | internal/bloblru/cache.go:48-89 | the cache never holds a blob under an ID it was not added under |
| `BlobCache.SurvivesWhen` | internal/bloblru/cache.go:65-76 | an entry survives an addition exactly when it, everything used after it and the new blob fit together |
| `BlobCache.DropCountIsLeast` | internal/bloblru/cache.go:65-73 | the loop evicts no more than it has to: the longest fitting suffix stays |
| `BlobCache.Cache.constructor` | internal/bloblru/cache.go:27-46 | a new cache is empty with all its size free |
| `BlobCache.Cache.MakeRoom` | internal/bloblru/cache.go:65-73 | the loop ends without ever popping an empty list, and keeps the first of the largest evicted buffers |
| `BlobCache.Cache.Add` | internal/bloblru/cache.go:50-79 | an addition is the reference addition, the list's own limit never evicts, and the returned buffer is the first of the largest evicted |
| `BlobCache.Cache.Get` | internal/bloblru/cache.go:81-89 | a hit returns the stored blob and makes it the newest; a miss changes nothing |
| `BlobCache.Cache.Clear` | internal/bloblru/cache.go:143-154 | every cached buffer is overwritten and the whole size is free again |
| `BlobCacheCalls.ReachableInv` | internal/bloblru/cache.go:91-140 | the invariant on values, registrations, channels and waits holds in every interleaving |
| `BlobCacheCalls.ReturnsWhatWasProduced` | internal/bloblru/cache.go:91-140 | a returned blob is one that was computed for the ID asked for |
| `BlobCacheCalls.OneRegistered` | internal/bloblru/cache.go:99-105 | two calls are never registered for the same ID |
| `BlobCacheCalls.CacheChanges` | internal/bloblru/cache.go:50-137 | only an eviction removes a blob, nothing replaces one, a blob comes in exactly when a call stores one that fits and is not there, and every computation is counted |
| `BlobCacheCalls.StaysCached` | internal/bloblru/cache.go:50-137 | in every run a blob stays in the cache, unchanged, until it is evicted |
| `BlobCacheCalls.ClosedOnce` | internal/bloblru/cache.go:111-117 | a channel about to be closed is open, and a call that returned has closed the channel it registered once and no other |
| `BlobCacheCalls.NothingLeftBehind` | internal/bloblru/cache.go:111-117 | when all calls have returned nothing is registered |
| `BlobCacheCalls.NeverStuck` | internal/bloblru/cache.go:107-109 | while a call has not returned some call can go on |
| `BlobCacheCalls.RunLength` | internal/bloblru/cache.go:91-140 | however calls and evictions interleave, the calls take at most eight steps each |
| `BlobCacheCalls.ComputedOnce` | internal/bloblru/cache.go:119-137 | if computing succeeds, blobs fit and nothing is evicted, each ID is computed at most once however many calls ask for it |
| `MonitorWindow.Compact` | cmd/vaultic/cmd_monitor_watch.go:292-302 | in-place compaction never overwrites an unread sample and leaves the recent samples and the one before the first of them, for samples in any order |
| `MonitorWindow.WindowStore.Add` | cmd/vaultic/cmd_monitor_watch.go:284-306 | a new sample is dropped exactly if the newest is less than 15 seconds old and says the same, else appended, compacted and cut to 62 |
| `MonitorWindow.StoreShowsLog` | cmd/vaultic/cmd_monitor_watch.go:284-306 | after any observations in order of time, the bounded store is exactly the view of an unbounded log: its last 15 minutes and one older sample, cut to 62 |
| `MonitorWindow.StoreShowsWindow` | cmd/vaultic/cmd_monitor_watch.go:284-306 | the same on the log alone: its end from the first sample of the last 15 minutes, or the one before it, and of these the last 62 |
| `MonitorWindow.StoreInvariant` | cmd/vaultic/cmd_monitor_watch.go:284-306 | in order of time, at most 62, at most one older than 15 minutes before the newest, the newest less than 15 seconds behind |
| `MonitorWindow.LimitNeverBinds` | cmd/vaultic/cmd_monitor_watch.go:303-305 | unless a change forces a sample within 15 seconds, the limit of 62 never discards one |
| `MonitorWindow.FindsFirstComponent` | cmd/vaultic/cmd_monitor_watch.go:863-870 | the first component of that name, or none has it |
| `MonitorWindow.FindsAlikeMetric` | cmd/vaultic/cmd_monitor_watch.go:872-880 | the first metric of the same kind and identity, or none is |
| `MonitorWindow.RegressedIff` | cmd/vaultic/cmd_monitor_watch.go:848-861 | a metric went down exactly unless it is a counter that is not below, or a histogram with as many buckets none of which is |
| `MonitorChange.SameIffAgree` | cmd/vaultic/cmd_monitor_watch.go:308-325 | counting and looking up one way is exactly agreement on every component and metric asked for: one that appears, disappears, restarts, changes its condition or goes down forces a sample |
| `MonitorChange.CountedAgree` | cmd/vaultic/cmd_monitor_watch.go:314-322 | metrics that are as many and found one way agree both ways |
| `MonitorChange.CompactAnswers` | cmd/vaultic/cmd_monitor_watch.go:327-345 | a compact list answers for counters and histograms what the full one answers, and nothing else |
| `MonitorChange.CompactSnapshotAnswers` | cmd/vaultic/cmd_monitor_watch.go:327-345 | a compact snapshot knows every component that the full one knows, unchanged but for the metrics that are neither counters nor histograms |
| `MonitorBaseline.RegressedTransitive` | cmd/vaultic/cmd_monitor_watch.go:848-861 | not going down is transitive for counters and histograms |
| `MonitorBaseline.Judge` | cmd/vaultic/cmd_monitor_watch.go:771-806 | a sample is a candidate exactly if it is exact, of the same process and older, and stops the search exactly if it is a restart or a gap inside the window |
| `MonitorBaseline.Search` | cmd/vaultic/cmd_monitor_watch.go:765-832 | a baseline is returned exactly when no sample breaks the window, the examined samples never go down and one can serve; it is that sample, and otherwise the reason is that of the first obstacle |
| `MonitorBaseline.JustifiedBridgesNothing` | cmd/vaultic/cmd_monitor_watch.go:771-820 | on the samples themselves: after the start of the window every sample shows the component in the process of the latest capture, with an exact value if older, and the exact values from 15 seconds before the window on never go down |
| `MonitorBaseline.WindowBaseline` | cmd/vaultic/cmd_monitor_watch.go:748-832 | without a latest capture of the component that is exact, not stale and of a known process, the reason why not; otherwise, with the window ending at that capture, a baseline exactly if the window is answerable: the one sample that serves, of an age that is positive and at most the window and 15 seconds; and then every sample captured after the latest snapshot minus the window is of that process and exact if older, and from 15 seconds before on the values never go down |
| `MonitorBaseline.CounterWindow` | cmd/vaultic/cmd_monitor_watch.go:714-727 | what the baseline above makes of the metric: its own reason if it is not exact, the reason for no baseline, a reset if the value is below the baseline, else the difference over the time between them, never negative; a rate bridges neither a restart nor a gap |
| `MarkerCache.ParseSpec` | internal/archiver/exclude.go:123-137 | a specification is refused exactly if it is empty or starts with a colon, and is split at its first colon |
| `MarkerCache.ExcludedByTag` | internal/archiver/exclude.go:185-227 | a directory is excluded exactly if it holds a file of the tag's name that can be read and begins with the header, any file if there is no header |
| `MarkerCache.KeyInjective` | internal/archiver/marker_store.go:54-90 | for directories without NUL, as all are, a key determines specification and directory, whatever the specifications hold |
| `MarkerCache.ClashNeedsNul` | internal/archiver/marker_store.go:54-90 | two decisions can share a key only with a NUL both in a directory and in a specification |
| `MarkerCache.MarkerStore.Get` | internal/archiver/marker_store.go:45-67 | an answer is the decision for the key, or the error is set; it is set for good, and exactly if it was before, the read fails or brings back damaged bytes |
| `MarkerCache.MarkerStore.Spill` | internal/archiver/marker_store.go:69-98 | every value stays the decision of its key, also when writing stops half way; the error is set exactly if it was before, the database does not open or one of the writes fails, and otherwise all are written |
| `MarkerCache.RejectionCache.Get` | internal/archiver/exclude.go:86-95 | without error, a decision is found exactly if it is in memory or in the database, is right, and nothing known is lost |
| `MarkerCache.RejectionCache.Store` | internal/archiver/exclude.go:100-110 | the map stays within its limit, and without error the new and all earlier decisions are still known |
| `MarkerCache.RejectionCache.IsExcluded` | internal/archiver/exclude.go:151-183 | with any other calls in between, on this cache and on those sharing its database, a file is excluded exactly if its directory holds the tag file with the header, or the error is set |
| `Forget.ListUnprotected` | cmd/vaultic/cmd_forget.go:228-245 | the candidates are what was found and is not protected, the rest is counted |
| `Forget.UnprotectedMembers` | internal/data/delete_option.go:107-115 | a snapshot that was found is passed over exactly if protection is not overridden and it is never to be deleted or not before a time that has not passed |
| `Forget.GroupSnapshots` | internal/data/snapshot_group.go:95-133 | one group for each key with its members in order |
| `Forget.BuildPlan` | cmd/vaultic/cmd_forget.go:226-296 | the plan selects exactly the reference selection, has one split group for each key, and is refused exactly for a failed listing, a missing policy, a cancellation or a group that would be emptied |
| `Forget.RevalidatedAgainst` | cmd/vaultic/cmd_forget.go:335-347 | the selection is the intersection of both plans and every group's list is filtered to it |
| `Forget.FilterInPlace` | cmd/vaultic/cmd_forget.go:337-345 | the in-place filter never overwrites an unread entry and keeps the order |
| `Forget.GroupsListRemoved` | cmd/vaultic/cmd_forget.go:335-347 | after revalidation the groups list exactly what is to be removed |
| `Forget.SelectedMeans` | cmd/vaultic/cmd_forget.go:230-250 | what is selected was found and is not protected |
| `Forget.GroupKeepsMember` | cmd/vaultic/cmd_forget.go:269-272 | under a policy that is not empty every group found keeps a member |
| `Forget.ExplicitSelects` | cmd/vaultic/cmd_forget.go:246-251 | with snapshots named explicitly, selected is exactly what was found and is not protected |
| `Forget.ExplicitSpares` | cmd/vaultic/cmd_forget.go:246-251 | a named snapshot is spared exactly if it is protected in the second observation, or in the first was protected or not found |
| `Forget.GroupSurvivesWhen` | cmd/vaultic/cmd_forget.go:335-347 | when everything selected twice is gone, a group keeps a member exactly if one is not selected in one of the observations |
| `Forget.ExplicitCanEmptyGroup` | cmd/vaultic/cmd_forget.go:246-251 | then a group can lose all its members although a policy is given |
| `Forget.RunForget` | cmd/vaultic/cmd_forget.go:387-422 | whatever others did between the phases, only what both observations select is deleted, nothing the first did not find, and without the override nothing that is never to be deleted or whose time has not passed when the second observation is made; groups keep a member under a policy, and in general exactly if one is not selected twice; a refusal or a dry run deletes nothing |
| `Duration.NextNumber` | internal/data/duration.go:38-77 | an optional sign and the longest run of digits, an error without digits and a panic if they do not fit |
| `Duration.ParseDuration` | internal/data/duration.go:80-116 | the loop is the reference parser |
| `Duration.TrimSpaceIff` | internal/data/duration.go:80-116 | trimming takes away exactly the spaces at both ends |
| `Duration.AcceptsExactly` | internal/data/duration.go:80-116 | accepted is exactly, after trimming, a list of numbers with units whose digits fit, and the last number for each unit counts |
| `Duration.DigitsValue` | internal/data/duration.go:17-36 | the decimal digits of a number stand for that number |
| `Duration.RoundTrip` | internal/data/duration.go:17-116 | parsing the printed form gives the duration back exactly when no field is the smallest integer; otherwise parsing panics |
| `Duration.SmallestPanics` | internal/data/duration.go:66-70 | a duration whose days are the smallest integer prints as text on which parsing panics |
| `Duration.AcceptedIsStable` | internal/data/duration.go:17-116 | whatever is accepted, printing and parsing again changes nothing |

## Assumptions

- An asynchronous upload calls its callback exactly once. A chunker returns -1 or a position within
  the bytes it was given and depends only on the bytes fed so far.
- The directory stream has one consumer.
- Trees are stored under the hash of their content, so different trees have different IDs and the
  store has no cycles; trees were written by the tree writer, so their names are ascending. This
  is `Ranked` and `Sorted` in `SnapshotStore.dfy`. Trees may be missing.
- A blob that the source's index lists is copied or its loading fails the copy. Nobody else writes to
  the destination meanwhile.
- Directory names hold no NUL.
- Monitoring snapshots have been validated, which rules out repeated components and metrics
  (internal/telemetry/monitor_schema.go:247-300 and 504-560).
- The LRU list is an ordered map with an entry limit and a callback for each entry that leaves it.
- A retention policy splits a group in any way at all; a listing under the exclusive lock shows
  snapshots that are in the repository.
- A damaged value read from the marker database is not mistaken for a decision.
- Calls to `compute` return, and so do reads of directories.

## Left out

- Command-line flags, terminal and JSON output, telemetry, logging and wall-clock timing.
- The bodies of the repository, of packs, indexes and locks, of the retention policy and of pruning.
- Cancellation and errors in the worker pools: the deadlock theorems are about runs without them.
- `allBlobsPresent`, change detection and the choice of parent nodes in the archiver.
- The cached metadata entries of the directory stream, beyond the reservation held for them: their accounting is that of the blob cache again.
- In `TargetTree`: relative targets, symbolic links, Windows volume names and the renaming of equal
  names under different roots. Trees are values, so sharing of nodes is not captured; the program
  never shares them.
- In `DiffTrees`: the counters of files and directories and the printed list of changes.
- In `CopySnapshots`: the sizes and times that decide where a batch ends; a batch may end after any snapshot.
- `CopySnapshots.Copier.CopyTreeBatched`: that all snapshots are saved needs a positive batch size; the program uses a hundred times the pack size, which is positive.
- `PathComponents.Components`: is about clean absolute paths; relative paths, cleaning and volume names are not modelled.
- `MonitorChange.SameIffAgree`: is about snapshots without repeated components or metrics, as validation ensures.
- `MonitorChange.CountedAgree`: is about components without repeated metrics, as validation ensures.
- `MergeTrees.Repository.MergeTrees`: says nothing about the result when a tree cannot be loaded or saved, because the merge is then abandoned with an error.
- In `BlobCache`: the length of a slice is not told apart from its capacity. A size too small for one entry makes the program panic, so the constructor asks for more.
- In `BlobCacheCalls`: clearing the cache while calls run, and a `compute` that panics.
- `MonitorBaseline.CounterWindow`: rates are real numbers, without rounding to floating point.
- Percentiles of histogram windows.
- In `MonitorWindow`: the comparison of snapshots is a parameter of the theorems, which hold for any; the store's method uses the program's comparison. Metric identities are given, not built from labels. Backing arrays are not shared between calls.
- In `MarkerCache`: closing the store, and calls that wait for the decision of a call already running and share its answer.
- In `Forget`: retention horizons, the JSON form of groups, and pruning afterwards. Groups are values reassigned where the program updates them through pointers.
- In `Duration`: setting a flag through `Set`, which parses and stores.
