# Verified model of the memory debugger's search, compare and agent cores

The repository is an Android memory debugger: an agent on the device and a Windows client. Five of its cores make fast,
threaded or chunked code agree with a simple statement of what is wanted. This project models them in Dafny and proves
that agreement, or, where it does not hold, exactly when it does.

- **Pointer search.** `PointerTasks` cuts regions, `PointerLevels` scans a task in pieces of the size `ReadPace` sets,
  `ScanThreads` says which schedules get them whole, `PointerLookup` answers from the sorted block index, `PointerScan`
  builds one level on worker threads, and `PointerChains` is the whole scan: sound, complete and exactly once, down to the bytes of the file. `ScanWorkerPool` is
  the condition-variable pool as a step machine, with safety over all runs and a measure that makes runs end.
  `ClaimQueue` is the shared shape of the workers: an atomic cursor, private result vectors, one stop flag.
- **Files.** `Varint`, `PointerFile`, `PointerIndexFile` and `PointerPreview`: round trips for every input and equality
  of the two preview paths.
- **Comparison.** `Intersection` holds the sort-merge, the bucketed sort-merge and the seen-counter map;
  `AdaptiveVerify` checks candidates in spans of changing size over one session and `VerifyWorkers` over several;
  `Resolver` has the walks they rest on; `PointerCompare` puts them together from input files to output file.
- **Value scanner.** `ScanQuery` says what one place answers, `FirstScanTasks` scans a piece on the scalar and on the
  vector branch, `MemoryScanner` is the object with its first and next scans and whole runs of them.
- **Agent and codecs.** `SafeReader` reads and writes by pages or chunks, `ReadableCache` merges and searches ranges,
  `BreakpointText` and `Breakpoints` patch instructions into 64-bit words and `BreakpointRuns` is about whole runs of that,
  `AgentIndex` builds and serves the pointer index and `ClientIndex` is the client's side of it, `Compression` is the
  zero-run code and the choice between codes, `IconAtlas` packs and loads icons.
- **In plain terms.** `ChainMeaning`, `WalkMeaning`, `ScanMeaning` and `TransferMeaning` say what scans report, chains
  resolve to, value scans keep and requests touch, by bytes, fields and numbers, without the functions they are computed by.

`Machine`, `Ordering`, `Collecting` and `Grid` hold what these share: fixed-width integers and little-endian loads, sort,
unique and lower_bound, appending loops, and walks over address grids.

Code that updates state is modelled by methods and classes with loops, each proved against a function or predicate that
says what it is for; the laws are then lemmas about those. Threads are scheduled arbitrarily: each turn of a loop lets any
live thread take one step on the shared state. The debugged process is one frozen memory. Whether a read, a request or a
system call succeeds is left open, so the contracts hold for every pattern of failures.

## Where the code does not do what it is for

These are stated as exact conditions, each with a case in which it fails.

- A scan stores the offset nearest the target first, while the resolver applies the first stored offset first. A stored
  chain therefore resolves as it is stored, on every memory, if and only if its offsets read the same in both directions
  (`ChainOrder.StoredOrderNeedsPalindrome`, `ChainOrder.NotAPalindrome`). Read in reverse it always resolves
  (`ChainOrder.LeadsIffResolves`).
- The vector collectors take a length in bytes and are given a number of start positions. They lose the last slot of
  every piece, and nothing else (`FirstScanTasks.NeonIsExactIff`, `MemoryScanner.VectorScanExactIff`), so they serve only
  regions without a slot (`MemoryScanner.VectorScanServesIff`, `MemoryScanner.VectorScanMisses`).
- A pattern is found wherever it lies if and only if it is no longer than a chunk
  (`MemoryScanner.ScanFindsPatternIff`, `MemoryScanner.LongPatternMissed`).
- Setting a breakpoint at one address under two sizes saves the BRK as the original instruction. Which runs leave the
  text changed is `BreakpointRuns.RunRestoresIff`; `BreakpointRuns.TwoSizesLeaveBrk` is one.
- The manager keeps the last reported count by address, past the life of a breakpoint and, when a process exits, past
  that of the process. Reports are true in a run if and only if no breakpoint is set over such a count
  (`BreakpointRuns.RunReportsTrulyIff`); else hits are invented or lost (`BreakpointRuns.StaleCounter`,
  `BreakpointRuns.LostHit`, `BreakpointRuns.NextProcessInherits`).
- The two batch commands keep the same chain on every memory if and only if its last offset is at most every target
  (`Resolver.BatchCommandsAgreeIff`, `Resolver.HighOffsetDiffers`), and then every comparison is exact
  (`AdaptiveVerify.EveryRunIsFilterIff`, `PointerCompare.ConfirmedIsExact`).
- A scanning thread doubles its pieces after four answered batches, beyond what the agent returns of one. Whether every
  schedule gets all pieces whole is `PointerScan.NeverCutIff`, for one region `ScanThreads.OneRegionIff`: up to 17 MiB. A
  strict scan of regions that hold more whole 8 MiB than two for each thread never succeeds
  (`PointerChains.LongStrictScanFails`).
- An index is accepted whatever regions it covers, and a byte-step index for an aligned scan. It gives the chains of the
  selected ranges if and only if it has exactly their nonzero slots (`PointerScan.IndexStandsInIff`,
  `PointerChains.SameChainsIff`, `PointerScan.WiderIndexAddsNodes`).
- An agent build that fails leaves the index held before, or the first pages under its notes, and the scan goes on with
  that if process and pointer size agree. Over a run every index used is whole and of the kind wanted if and only if no
  build fails so (`ClientIndex.RunIsRightIff`, `ClientIndex.OldIndexIsUsed`, `ClientIndex.FirstPagesAreUsed`,
  `ClientIndex.OtherProcessIsUsed`).
- A strict agent index takes a chunk of which no byte could be read for an empty one. An index is exact on every memory
  if and only if every slot's chunk was read in full (`AgentIndex.ExactOnEveryMemoryIff`,
  `AgentIndex.StrictMissesEmptyReads`).
- `bytes_read` counts bytes. It is the length of a valid prefix, whatever the system returns, if and only if all the
  request may touch is one piece at its start (`SafeReader.PrefixAlwaysIff`, `SafeReader.ReadIsNoPrefix`).
- The icon loader adds sizes in 64 bits. A file it accepts has all its pixels if and only if the sum does not wrap
  (`IconAtlas.PixelsAreThereIff`, `IconAtlas.AcceptedWithoutPixels`).

## Model

| member | source | states |
|---|---|---|
| `PointerLevels.WindowIsDistance` | src/windows_client/ClientUI.cpp:8406-8445 | both saturating 64-bit windows, centred on the value or on the target, say that the two lie at most the limit apart; so membership is symmetric |
| `PointerLevels.WindowDecides` | src/windows_client/ClientUI.cpp:8384-8429 | whether a value and a wanted address make a node is decided by the window and by whether their difference fits a signed 64-bit integer, nothing else |
| `PointerLevels.ProcessValue` | src/windows_client/ClientUI.cpp:8406-8429 | the lower_bound walk over the sorted targets yields every target near the value, in order, and no other |
| `PointerLevels.ScanChunk` | src/windows_client/ClientUI.cpp:8580-8602 | one buffer contributes the nodes of exactly the slots that start before the scan limit and end inside the buffer |
| `PointerLevels.PlanBatch` | src/windows_client/ClientUI.cpp:8511-8537 | up to four requests that follow each other without a gap, overlapping by less than a pointer in byte mode; none is planned only when no slot is left |
| `PointerLevels.BatchLeaves` | src/windows_client/ClientUI.cpp:8511-8537 | a batch takes the start positions of four full pieces, or all there are; one of its pieces is longer than a read iff the first one is |
| `PointerLevels.ScanBatch` | src/windows_client/ClientUI.cpp:8563-8612 | what the replies of a batch show: all slots of a piece iff it came whole, fewer otherwise; in strict mode a short one fails |
| `PointerLevels.ScanOneTask` | src/windows_client/ClientUI.cpp:8495-8618 | for every pace, every failing batch and every short reply: the nodes of the slots looked at, which are all of the task's, in order, iff every piece came whole; failure exactly when a strict piece did not; if the agent returns all it can, that is so iff no piece is cut, and the next pace follows |
| `PointerTasks.CutTasks` | src/windows_client/ClientUI.cpp:7922-7931 | the loop over ranges produces the recursive cut into 8 MiB pieces with their overlap |
| `PointerTasks.TasksCover` | src/windows_client/ClientUI.cpp:7922-7931 | exactly which slots the cut pieces visit, for any start: all in byte mode, otherwise the aligned ones that no cut runs through (iff) |
| `PointerTasks.AlignedRegionsAreCovered` | src/windows_client/ClientUI.cpp:7922-7931 | pointer-aligned regions are visited without a gap (iff), in both step modes |
| `PointerTasks.TasksVisitSlots` | src/windows_client/ClientUI.cpp:7922-7931 | over all aligned regions together, the tasks visit an address iff it is a slot of some region |
| `ReadPace.BatchStep` | src/windows_client/ClientUI.cpp:8612-8617 | answered batch by answered batch, whether a thread will be cut depends on its batches so far and on the positions left, in closed form |
| `ReadPace.PaceMeaning` | src/windows_client/ClientUI.cpp:8550-8617 | pieces halve with every failed batch and double with every four answered ones, within 64 KiB and 4 MiB |
| `ScanThreads.EveryScheduleIff` | src/windows_client/ClientUI.cpp:8482-8620 | no piece is cut under any schedule iff none is when one thread takes every task |
| `ScanThreads.AloneIsCutIff` | src/windows_client/ClientUI.cpp:8482-8620 | which can be computed from the lengths of the tasks alone |
| `ScanThreads.TooManyLongTasks` | src/windows_client/ClientUI.cpp:8482-8620 | with more than two long tasks for each thread some piece is cut, whoever takes what |
| `ScanThreads.OneRegionIff` | src/android_agent/main.cpp:2856-2860 | an aligned region is read without a cut under every schedule iff it is no longer than 17 MiB |
| `ScanThreads.LongTasksOf` | src/windows_client/ClientUI.cpp:7922-7931 | every whole 8 MiB of the selected regions is such a long task |
| `PointerLookup.BuildBlocks` | src/windows_client/ClientUI.cpp:8223-8235 | the blocks partition the sorted index and know the least and greatest value they hold |
| `PointerLookup.LookupBlock` | src/windows_client/ClientUI.cpp:8456-8475 | lower_bound and the walk inside one block find exactly what that block contributes |
| `PointerLookup.LookupTarget` | src/windows_client/ClientUI.cpp:8439-8476 | skipping blocks below the window and stopping above it finds exactly what a pass over the whole index finds |
| `PointerScan.ReadTasks` | src/windows_client/ClientUI.cpp:8482-8620 | one item per piece: sound always, full when its reads succeed; altogether never more nodes than there are; if the agent returns all it can, the reads are complete iff this schedule cuts no piece |
| `PointerScan.LevelFromMemory` | src/windows_client/ClientUI.cpp:8480-8655 | for any interleaving of workers the sorted, duplicate-free level holds only nodes over scanned slots near a wanted address, and all of them with complete reads; the node limit is only reported if that many nodes exist, and always then if no read failed; a strict scan never returns an incomplete level |
| `PointerScan.NeverCutIff` | src/windows_client/ClientUI.cpp:8482-8620 | what the caller can check: no schedule cuts a piece iff each task is short enough for the batches before it |
| `PointerScan.LongScanIsIncomplete` | src/windows_client/ClientUI.cpp:8482-8620 | a level over too many long tasks is never read completely |
| `PointerScan.LevelFromIndex` | src/windows_client/ClientUI.cpp:8431-8479 | for every index of true nonzero pairs: the level over the addresses of the index; the node limit is reported iff it is reached |
| `PointerScan.IndexStandsInIff` | src/windows_client/ClientUI.cpp:7981-8034 | an index gives the levels that reading the selected ranges would give iff it has exactly their nonzero slots |
| `PointerScan.SameSlotsSameLevel` | src/windows_client/ClientUI.cpp:8639-8655 | then the memory path and the index path give the same vector |
| `PointerScan.WiderIndexAddsNodes` | src/windows_client/ClientUI.cpp:7984-7988 | for every nonzero slot outside the selected ranges, an index the client accepts that adds a node reading does not find |
| `PointerScan.LevelIsUnique` | src/windows_client/ClientUI.cpp:8639-8655 | two complete levels over the same wanted addresses are equal |
| `PointerChains.WantedRefs` | src/windows_client/ClientUI.cpp:8357-8378 | the sorted search list of a level is exactly the targets, or the nodes of the level below under their indices |
| `PointerChains.NormalizeTargets` | src/windows_client/ClientUI.cpp:7866-7888 | the targets are exactly the untagged nonzero inputs, each once |
| `PointerChains.NodeLeads` | src/windows_client/ClientUI.cpp:8353-8662 | soundness: a node of level k describes a chain of k + 1 steps from its slot to a target |
| `PointerChains.ChainHasNode` | src/windows_client/ClientUI.cpp:8353-8662 | completeness: every chain that leads to a target over scanned slots is described by some node of its level |
| `PointerChains.ChainHasOneNode` | src/windows_client/ClientUI.cpp:8639-8655 | exactly once: two nodes of a level with the same slot and the same offsets are the same node |
| `PointerChains.ExtractOffsets` | src/windows_client/ClientUI.cpp:8694-8706 | following parent indices down from a node collects the offsets of its chain, level by level |
| `PointerChains.ExtractChains` | src/windows_client/ClientUI.cpp:8690-8717 | the chains written are those of the last level, one per node |
| `PointerChains.ChainsMeanLevels` | src/windows_client/ClientUI.cpp:8690-8717 | the extracted list has no repetition, every chain leads to a target, and with complete reads none is missing |
| `PointerChains.EmptyLevel` | src/windows_client/ClientUI.cpp:8657-8660 | a complete but empty level proves that no chain of the requested depth exists |
| `PointerChains.BuildLevels` | src/windows_client/ClientUI.cpp:8353-8662 | level after level: the levels are good, an early end has its reason, and each level stayed below the limit, or the last one tried reached it |
| `PointerChains.ScanWith` | src/windows_client/ClientUI.cpp:8353-8728 | the levels and the file together: what each ending says about the chains there are |
| `PointerChains.LeadsIsChainOver` | src/windows_client/ClientUI.cpp:8353-8662 | a chain over what the tasks visit is a chain over the slots themselves |
| `PointerChains.SameChainsIff` | src/windows_client/ClientUI.cpp:7981-8034 | two sets of slots give the same chains, whatever is looked for, iff they differ in null slots only |
| `PointerChains.ExtraSlotAddsChain` | src/windows_client/ClientUI.cpp:7984-7988 | a pointer that only one of them has begins a chain that the other has not |
| `PointerChains.RunPointerScan` | src/windows_client/ClientUI.cpp:7865-8749 | the whole scan: reading is complete if the agent does its part and no schedule cuts a piece, and only under one that does not; the written bytes decode to a duplicate-free list that, for aligned regions and complete reads, holds exactly the chains over the regions' slots, or over the index; "nothing found" is right; the limit was reached if it is reported; refusal is characterised; a strict or indexed scan is complete or says why not |
| `PointerChains.LongStrictScanFails` | src/windows_client/ClientUI.cpp:8566-8571 | a strict scan whose regions hold more whole 8 MiB than two for each thread never succeeds, whatever memory and replies; a scan that is not strict is incomplete |
| `Machine.SlotValueMeaning` | src/windows_client/ClientUI.cpp:8585-8596 | what a slot holds, byte by byte: four bytes, or the lower seven of eight |
| `Machine.StripTagMeaning` | src/windows_client/ClientUI.cpp:394-396 | whatever the top byte is, the other seven remain |
| `ChainMeaning.ChainIsPath` | src/windows_client/ClientUI.cpp:8353-8717 | a reported chain is a path, hop by hop and in bytes: from its base over nonnull slots, each as far on as the offset says, the last stored offset first, into a target |
| `ChainMeaning.TagsDoNotMatter` | src/windows_client/ClientUI.cpp:8592-8596 | memories that differ in the eighth bytes of the slots only have the same chains |
| `ChainMeaning.RegionSlotsMeaning` | src/windows_client/ClientUI.cpp:7922-7931 | the slots searched: every address of a selected range that leaves room for a pointer, aligned unless the scan goes byte by byte |
| `ChainMeaning.WrittenMeans` | src/windows_client/ClientUI.cpp:8690-8749 | in these terms: the file lists paths of the depth asked for, by ascending base, each once, and with complete reading all |
| `ChainMeaning.NothingFoundMeans` | src/windows_client/ClientUI.cpp:8657-8660 | and "nothing found" with complete reading means that there is no path |
| `ChainMeaning.LimitReachedMeans` | src/windows_client/ClientUI.cpp:8624-8632 | a scan stops when as many nodes as allowed were found around the addresses looked for, and, with complete reading, no level sooner |
| `ChainMeaning.NodesMean` | src/windows_client/ClientUI.cpp:8353-8662 | a node of a level is a slot whose pointer leads, as far on as the offset says, to a target or to its parent in the level before |
| `ChainOrder.LeadsIffResolves` | src/android_agent/SafeMemoryReader.cpp:719-798 | a chain is one of the scan's iff the resolver, given its stored offsets in reverse, stays on scanned slots within the offset limit and arrives at a target |
| `ChainOrder.StoredOrderNeedsPalindrome` | src/windows_client/ClientUI.cpp:8696-8715 | for either pointer size, the stored order itself resolves to the same place on every memory iff the offsets read the same in both directions |
| `ChainOrder.NotAPalindrome` | src/android_agent/SafeMemoryReader.cpp:737-792 | for each other offset list and either pointer size, a memory of values of that size on which the reversed offsets arrive and the stored ones do not |
| `ScanWorkerPool.RunIsABarrier` | src/windows_client/ClientUI.cpp:8286-8327 | in every interleaving, whenever no Run is in progress each worker has executed the function of every call exactly once, in order, and none is inside one |
| `ScanWorkerPool.JoinedMeansGone` | src/windows_client/ClientUI.cpp:8329-8340 | when the destructor returns no worker is left |
| `ScanWorkerPool.WrapIs` | src/windows_client/ClientUI.cpp:8292-8296 | the generation is the number of calls modulo 2^64 |
| `ScanWorkerPool.TaskIsCurrent` | src/windows_client/ClientUI.cpp:8302-8327 | a worker only executes the function of the call in progress, and the guard pending_ > 0 never fails |
| `ScanWorkerPool.NeverStuck` | src/windows_client/ClientUI.cpp:8286-8340 | no wake-up is lost: during a call or the shutdown some thread can always move without a spurious wake-up |
| `ScanWorkerPool.StepsRunOut` | src/windows_client/ClientUI.cpp:8286-8340 | every real step brings the pool closer to rest, so Run and the destructor return |
| `ClaimQueue.RunWorkers` | src/android_agent/MemoryScanner.cpp:704-965 | any scheduler, any claim size, any late notice of the stop flag: without failure or overflow the workers' vectors together hold every item once; each flag is raised only for a real reason |
| `Varint.DecodeEncode` | src/windows_client/ClientUI.cpp:398-429 | the code is prefix-free and exact for every number, whatever bytes follow, and no longer than the bound |
| `Varint.UintRoundTrip` | src/windows_client/ClientUI.cpp:398-429 | every u64 takes at most ten bytes and is read back with the cursor right behind it |
| `Varint.OverlongFails` | src/windows_client/ClientUI.cpp:411-429 | ten bytes that all announce another one are refused, whatever follows |
| `Varint.ZigZagBijection` | src/windows_client/ClientUI.cpp:406-440 | zigzag and its inverse are mutually inverse on all signed and unsigned 64-bit integers, with the usual closed form |
| `Varint.IntRoundTrip` | src/windows_client/ClientUI.cpp:406-440 | every i64 is read back exactly, whatever follows |
| `Varint.WriteVarUint` | src/windows_client/ClientUI.cpp:398-404 | the loop appends the code of the value |
| `Varint.WriteVarInt` | src/windows_client/ClientUI.cpp:406-409 | the loop appends the code of the zigzag value |
| `Varint.ReadVarUint` | src/windows_client/ClientUI.cpp:411-429 | the shift-and-or loop reads what the recursive decoder reads, bits past the 64th dropped, and fails on the same inputs |
| `Varint.ReadVarInt` | src/windows_client/ClientUI.cpp:431-440 | the same for signed numbers |
| `PointerFile.ChainsRoundTrip` | src/windows_client/ClientUI.cpp:9069-9103 | a data section decodes to exactly the chains written, for every base order: base differences wrap modulo 2^64 |
| `PointerFile.WriteChains` | src/windows_client/ClientUI.cpp:9769-9793 | the buffered writer with its 64 KiB flushes emits the encoding of the list and counts it |
| `PointerFile.StreamFile` | src/windows_client/ClientUI.cpp:9069-9103 | the streaming reader returns what the file holds or fails, with and without a count in the header |
| `PointerIndexFile.EntriesRoundTrip` | src/windows_client/ClientUI.cpp:639-657 | pairs are recovered in order, including addresses below their predecessor |
| `PointerIndexFile.IndexAscends` | src/windows_client/ClientUI.cpp:620-630 | an index ascends by value, and by address where values are equal |
| `PointerIndexFile.SaveIndex` | src/windows_client/ClientUI.cpp:597-659 | the file holds the sorted permutation of the entries given |
| `PointerIndexFile.LoadIndex` | src/windows_client/ClientUI.cpp:710-727 | the reader returns what the file holds, or fails iff an entry cannot be read |
| `PointerIndexFile.SaveThenLoad` | src/windows_client/ClientUI.cpp:597-728 | loading a saved index returns exactly the saved pairs, sorted, for every list of u64 pairs |
| `PointerPreview.BuildPreviewIndex` | src/windows_client/ClientUI.cpp:999-1031 | checkpoint k stands behind k * stride chains with the base reached there; a file that decodes gets all of them |
| `PointerPreview.PreviewPage` | src/windows_client/ClientUI.cpp:7362-7416 | from the last checkpoint at or before the page, decoding no chain before it: the same items as the whole file's, and it fails iff the file does not decode up to the page end |
| `PointerPreview.PreviewLinear` | src/windows_client/ClientUI.cpp:7417-7480 | the filtered loop with every filter off: the page of the list and its total; a counted file must decode, one without a count is shown as far as it can be read |
| `PointerPreview.ReadableIsStream` | src/windows_client/ClientUI.cpp:7421-7429 | a file without a count that decodes is shown whole |
| `PointerPreview.PathsAgree` | src/windows_client/ClientUI.cpp:7336-7480 | both paths show the same items and total, for every stride, page size and start |
| `Resolver.ResolvePointerChainAfterDeref` | src/android_agent/SafeMemoryReader.cpp:719-798 | the loop computes the recursive walk: dereference, strip, reject null, add the offset without wrapping |
| `Resolver.ShiftedWalk` | src/windows_client/ClientUI.cpp:9932-9954 | walking offset-first equals resolving from the base shifted by the first offset with the rest of the offsets and a final 0 |
| `Resolver.RunPointerVerify` | src/windows_client/ClientUI.cpp:9932-9995 | the form's answer is the offset-first walk, whether the agent answered or the client walked |
| `Resolver.BatchCommandsAgree` | src/android_agent/main.cpp:3567-3596 | on one memory: what the first batch command keeps the second keeps, and the other way round except for a result past the untagged range |
| `Resolver.LowOffsetsAgree` | src/android_agent/main.cpp:3567-3596 | a last offset that is at most every target suffices on every memory, whatever the other offsets |
| `Resolver.HighOffsetDiffers` | src/android_agent/main.cpp:3567-3596 | for a last offset above some target, a memory on which the commands differ |
| `Resolver.BatchCommandsAgreeIff` | src/android_agent/main.cpp:3567-3596 | the two commands keep the same chain on every memory iff its last offset is at most every target, or pointers have 32 bits |
| `Resolver.VerifyBatchFilter` | src/android_agent/main.cpp:3548-3596 | the agent returns exactly the accepted indices, ascending, through its sorted list and binary search; without a filter or without targets, every chain that resolves |
| `Resolver.PrefixCache.VerifyChain` | src/windows_client/ClientUI.cpp:9423-9514 | on one memory the walk with the shared three-step prefix cache returns what the plain walk returns, and keeps the cache right |
| `WalkMeaning.ResolvesIff` | src/android_agent/SafeMemoryReader.cpp:719-798 | a chain resolves to an address iff a trip leads there: at every place the stored pointer without its top byte, not null, plus the next offset, nowhere wrapping |
| `WalkMeaning.FirstCommandKeepsIff` | src/android_agent/main.cpp:3440-3480 | the first batch command keeps the chains whose trip ends in a target |
| `WalkMeaning.SecondCommandKeepsIff` | src/android_agent/main.cpp:3548-3596 | the second keeps those whose trip ends in one up to top bytes, or all that resolve if it is not to filter or has no targets |
| `WalkMeaning.EmptyChainKept` | src/android_agent/main.cpp:3570-3592 | a chain without offsets stands for its base |
| `Intersection.ChainOrderIsTotal` | src/windows_client/ClientUI.cpp:9143-9148 | the sort comparison is a strict total order on chains |
| `Intersection.MergeCommon` | src/windows_client/ClientUI.cpp:9310-9330 | the two-cursor merge with its run skipping appends each shared chain once and stops iff the candidate limit is reached |
| `Intersection.LoadAll` | src/windows_client/ClientUI.cpp:9273-9297 | a list is kept iff the file decodes and has no more chains than the limit |
| `Intersection.IntersectDirectly` | src/windows_client/ClientUI.cpp:9273-9332 | the result is the duplicate-free intersection; it is unread iff a file does not load, and too much iff the intersection reaches the limit |
| `Intersection.MaskIsRemainder` | src/windows_client/ClientUI.cpp:9180-9181 | with a power of two, masking the hash is taking the remainder |
| `Intersection.BucketCount` | src/windows_client/ClientUI.cpp:9153-9158 | a power of two up to 256, enough for 32 MiB buckets unless capped |
| `Intersection.Distribute` | src/windows_client/ClientUI.cpp:9177-9205 | a chain is in a bucket iff it is in the file and hashes there |
| `Intersection.IntersectByBuckets` | src/windows_client/ClientUI.cpp:9152-9270 | for every hash function and every bucket count: the duplicate-free intersection; unread iff a file is bad, too much iff the intersection reaches the limit |
| `Intersection.IntersectPair` | src/windows_client/ClientUI.cpp:9134-9332 | whichever of the two ways is taken: the intersection of both files, and exactly when each failure occurs |
| `Intersection.KeyInjective` | src/windows_client/ClientUI.cpp:442-450 | different chains have different map keys |
| `Intersection.IntersectMany` | src/windows_client/ClientUI.cpp:9333-9377 | the seen-counter map leaves exactly the chains in every file, each once; it fails iff a bad file is met before nothing is left |
| `Intersection.AlgorithmsAgree` | src/windows_client/ClientUI.cpp:9134-9377 | the three algorithms return the same multiset of chains on the same two files |
| `AdaptiveVerify.Tuning.constructor` | src/windows_client/ClientUI.cpp:9396-9408 | start and limits of the batch size; a batch of the largest size fits the 16 MiB payload |
| `AdaptiveVerify.Tuning.Succeeded` | src/windows_client/ClientUI.cpp:9542-9548 | the shared size stays, or doubles up to the limit, and only from the span just used |
| `AdaptiveVerify.Tuning.Failed` | src/windows_client/ClientUI.cpp:9601-9608 | the shared size stays or halves down to the minimum; at the minimum batches are given up |
| `AdaptiveVerify.HandleSpan` | src/windows_client/ClientUI.cpp:9527-9618 | whichever of filter, batch or per-chain walk gets through, the span contributes its accepted chains in order |
| `AdaptiveVerify.VerifyOnSession` | src/windows_client/ClientUI.cpp:9520-9620 | every candidate is decided exactly once and in order for every pattern of failures and size changes; the loop ends |
| `VerifyWorkers.ClaimedStep` | src/windows_client/ClientUI.cpp:9648-9720 | what one worker does between two accesses to the shared flags and size: look, send, or walk; a span leaves its hands decided |
| `VerifyWorkers.Step` | src/windows_client/ClientUI.cpp:9622-9723 | any single step of any worker keeps the books of who holds what, and brings the end nearer |
| `VerifyWorkers.VerifyOnWorkers` | src/windows_client/ClientUI.cpp:9621-9733 | any interleaving of single steps: if one worker connects, every candidate is decided exactly once and the valid lists together are the accepted ones; the run ends |
| `AdaptiveVerify.RunIsFilter` | src/windows_client/ClientUI.cpp:9520-9733 | on one memory a run reports precisely the candidates that lead to a target iff the filter never decided on a chain that straddles the untagged range |
| `AdaptiveVerify.LowOffsetsNeverStraddle` | src/windows_client/ClientUI.cpp:9520-9733 | a chain whose last offset is at most every target straddles on no memory |
| `AdaptiveVerify.EveryRunIsFilterIff` | src/windows_client/ClientUI.cpp:9520-9733 | every memory and every way the commands get through give precisely the candidates that lead to a target iff each last offset is at most every target |
| `AdaptiveVerify.KeptMeaning` | src/windows_client/ClientUI.cpp:9589-9618 | a candidate is reported as often as it is listed if it leads to a target, and never otherwise |
| `VerifyWorkers.RunsAgree` | src/windows_client/ClientUI.cpp:9516-9733 | one session and any number of workers report the same multiset |
| `PointerCompare.TargetUnion` | src/windows_client/ClientUI.cpp:9042-9056 | the union of all files' targets, untagged and without null, or the first header's own target if there are none |
| `PointerCompare.FindCandidates` | src/windows_client/ClientUI.cpp:9134-9377 | the candidates are exactly the chains all files hold, each once; unread iff a file stops the comparison, too much iff two files share more than allowed |
| `PointerCompare.SelectedIsConfirmed` | src/windows_client/ClientUI.cpp:9516-9793 | whatever was decided how: what is left is in all files, leads to a target or straddles, and no chain that leads is missing |
| `WalkMeaning.IsTargetIff` | src/windows_client/ClientUI.cpp:9042-9056 | a target is a nonzero address that some file lists, up to the top byte of 64-bit pointers |
| `WalkMeaning.StraddlesIff` | src/android_agent/main.cpp:3587-3592 | a chain straddles iff its trip ends past the untagged range, on a target up to the top byte |
| `WalkMeaning.GivesUpIff` | src/windows_client/ClientUI.cpp:9134-9377 | when a comparison gives up, by what the files hold, how long they are, and which of them share a chain |
| `WalkMeaning.ConfirmedMeans` | src/windows_client/ClientUI.cpp:9516-9793 | what is confirmed, place by place: in every file, each once; every chain whose trip ends in a target, and otherwise only straddlers |
| `PointerCompare.ConfirmedIsExact` | src/windows_client/ClientUI.cpp:9516-9793 | with last offsets at most every target, it is exactly what all files hold and the process leads from to a target |
| `PointerCompare.RunPointerCompare` | src/windows_client/ClientUI.cpp:8900-9815 | the whole comparison: the file written decodes to chains that every input holds and the process confirms, each once and none missing; refusal for different depths or pointer sizes, an unread file, too many shared chains and none at all are each reported exactly when they occur; with a session, "nothing valid" is right |
| `FirstScanTasks.NextTaskCovers` | src/android_agent/MemoryScanner.cpp:674-688 | one cut piece visits exactly the region's places up to the next piece |
| `FirstScanTasks.ScanBuffer` | src/android_agent/MemoryScanner.cpp:763-945 | the scalar loop finds exactly the matches at the piece's places, with their value bits, for typed, pattern and ALL scans |
| `FirstScanTasks.CollectEqOffsetsNeon` | src/android_agent/MemoryScanner.cpp:182-242 | the vector collectors return the offsets of all equal values that end within the byte length they are given |
| `FirstScanTasks.ScanBufferNeon` | src/android_agent/MemoryScanner.cpp:785-808 | as called, they see the slots of the piece without the last one |
| `FirstScanTasks.NeonLosesLastSlot` | src/android_agent/MemoryScanner.cpp:776-808 | the scalar result is the vector result plus the match at the last slot |
| `FirstScanTasks.NeonIsExactIff` | src/android_agent/MemoryScanner.cpp:776-808 | the vector branch is exact on a piece iff its last slot does not hold the target |
| `MemoryScanner.TasksFindRegion` | src/android_agent/MemoryScanner.cpp:674-688 | whatever the cut, the pieces together find every match of a region once and in order, for patterns up to the chunk size |
| `MemoryScanner.RegionHitsMeaning` | src/android_agent/MemoryScanner.cpp:617-689 | an address is a result iff it lies on the scan's grid, wholly inside the region, and its bytes match; the value reported is the one stored |
| `ScanMeaning.NumberIsFoundIff` | src/android_agent/MemoryScanner.cpp:398-436 | for every numeric type and condition: an address is a result iff the number in its bytes, signed ones by the highest bit, stands in that relation to the target, wholly inside the region and on its grid |
| `ScanMeaning.PatternIsFoundIff` | src/android_agent/MemoryScanner.cpp:819-825 | a pattern is found exactly where its bytes lie |
| `ScanMeaning.AnyReadingIsFoundIff` | src/android_agent/MemoryScanner.cpp:826-884 | an ALL scan finds exactly the places at which some reading, as far as bytes are left, stands in the relation |
| `ScanMeaning.SelectedIsSearched` | src/android_agent/MemoryScanner.cpp:634-689 | searched is what selected regions have in common with the scan range |
| `MemoryScanner.HitsAscend` | src/android_agent/MemoryScanner.cpp:763-945 | the matches of a region come in ascending order, so none is reported twice |
| `MemoryScanner.LongPatternsAreMissed` | src/android_agent/MemoryScanner.cpp:681-683 | a pattern longer than a chunk yields no piece at all |
| `MemoryScanner.LongPatternMissed` | src/android_agent/MemoryScanner.cpp:681-683 | on a memory that holds the pattern it is a match, and a pattern longer than a chunk is not reported there |
| `MemoryScanner.PatternFoundIff` | src/android_agent/MemoryScanner.cpp:674-688 | a region with room for the pattern is searched rightly on every memory iff the pattern is no longer than a chunk |
| `MemoryScanner.ScanFindsPatternIff` | src/android_agent/MemoryScanner.cpp:630-689 | the whole scan finds a pattern on every memory iff it is no longer than a chunk or no selected region has room for it |
| `MemoryScanner.TasksFindAll` | src/android_agent/MemoryScanner.cpp:630-689 | the pieces of all clipped regions find all their matches |
| `MemoryScanner.CutRegions` | src/android_agent/MemoryScanner.cpp:630-689 | the nested loops cut all selected, clipped regions |
| `MemoryScanner.VectorScanLoss` | src/android_agent/MemoryScanner.cpp:785-808 | a whole vector scan misses the last slot of every piece and nothing else |
| `MemoryScanner.VectorScanExactIff` | src/android_agent/MemoryScanner.cpp:785-808 | it is exact iff no piece ends in a slot that holds the target |
| `MemoryScanner.VectorScanMisses` | src/android_agent/MemoryScanner.cpp:785-808 | for every region with a slot, a memory on which the vector scan over its pieces misses the target |
| `MemoryScanner.VectorScanServesIff` | src/android_agent/MemoryScanner.cpp:785-808 | the vector scan of a region is exact on every memory iff the region has no slot |
| `MemoryScanner.ReadTasks` | src/android_agent/MemoryScanner.cpp:724-808 | the workers' items are the matches of all pieces if every read succeeded, and never more; a failure is among them iff a strict read failed |
| `MemoryScanner.Scanner.FirstScan` | src/android_agent/MemoryScanner.cpp:570-980 | independent of worker count and interleaving nothing but matches is reported, none too often, and all of them with complete reads; it fails for want of maps or pattern, for a strict read, or because there are too many matches, and with complete reads exactly then; a failure leaves nothing |
| `MemoryScanner.NarrowOnThreads` | src/android_agent/MemoryScanner.cpp:1041-1238 | any interleaving of batch-claiming workers keeps exactly the matching entries; it fails iff a strict read fails, never for the result cap |
| `MemoryScanner.MergedIsOrdered` | src/android_agent/MemoryScanner.cpp:1222-1238 | sorting by position restores the old order |
| `MemoryScanner.Scanner.NextScan` | src/android_agent/MemoryScanner.cpp:983-1242 | on success the results are the old ones that still match, in order, with new values; on failure nothing changes; success is characterised exactly |
| `ScanMeaning.OutcomeIs` | src/android_agent/MemoryScanner.cpp:1067-1200 | what becomes of an entry, by the bytes read: for numbers, patterns and ALL |
| `ScanMeaning.IsLeftIff` | src/android_agent/MemoryScanner.cpp:1067-1204 | an entry is left iff an old one at its address can be read and satisfies the query, with the value just read |
| `ScanMeaning.UnchangedAreOld` | src/android_agent/MemoryScanner.cpp:1185-1186 | of an UNCHANGED scan the old entries themselves are left that still hold their number |
| `ScanMeaning.ChangedOrUnchanged` | src/android_agent/MemoryScanner.cpp:1183-1186 | CHANGED and UNCHANGED divide the readable entries between them |
| `ScanMeaning.UnreadableFails` | src/android_agent/MemoryScanner.cpp:1069-1182 | an entry fails a strict scan iff nothing, or for a number not enough, comes back |
| `MemoryScanner.ReplayIsTracking` | src/android_agent/MemoryScanner.cpp:983-1242 | a run of next scans is each first-scan entry followed through all conditions, each against its value one scan earlier |
| `SafeReader.ReadPiece` | src/android_agent/SafeMemoryReader.cpp:418-447 | one system call and what follows from its answer: bytes stored, piece skipped, or request ended |
| `SafeReader.ReadByPages` | src/android_agent/SafeMemoryReader.cpp:524-561 | the page loop over one region moves exactly the resident, successfully read bytes to their offsets and ends |
| `SafeReader.ReadByChunks` | src/android_agent/SafeMemoryReader.cpp:475-505 | the same for the chunk loop |
| `SafeReader.ValidateAndRead` | src/android_agent/SafeMemoryReader.cpp:380-570 | the buffer gets exactly the delivered bytes at their own offsets and is untouched elsewhere; bytes_read is their number, read and skipped add up to the size; it fails iff some piece meets a fatal error |
| `TransferMeaning.DeliveredIff` | src/android_agent/SafeMemoryReader.cpp:449-561 | which bytes move, by the fields of the request: permitted region, resident page unless waived, and the call for the page or chunk, in closed form, that covers the byte |
| `TransferMeaning.SurvivesIff` | src/android_agent/SafeMemoryReader.cpp:475-561 | a request fails iff such a call fails with another error than EIO and EFAULT |
| `TransferMeaning.ReadsReadable` | src/android_agent/SafeMemoryReader.cpp:475-561 | a stored byte is the memory's and lies in a readable region unless permissions are ignored |
| `TransferMeaning.WholeRead` | src/android_agent/SafeMemoryReader.cpp:475-561 | with every page there and every call in full exactly the requested bytes of such regions are stored |
| `SafeReader.Process.WriteByPages` | src/android_agent/SafeMemoryReader.cpp:621-661 | the page loop of a write over one region |
| `SafeReader.Process.ValidateAndWrite` | src/android_agent/SafeMemoryReader.cpp:572-670 | a write changes exactly the delivered bytes of writable resident pages, counts them, and fails iff some piece meets a fatal error |
| `TransferMeaning.WritesWritable` | src/android_agent/SafeMemoryReader.cpp:611-661 | a byte that changes was asked for, lies in a writable region, and is what was given |
| `TransferMeaning.WholeWrite` | src/android_agent/SafeMemoryReader.cpp:611-661 | with every page there and every call in full exactly the requested bytes of writable regions change |
| `SafeReader.CompleteIff` | src/android_agent/SafeMemoryReader.cpp:554-568 | bytes_read equals the size iff every byte was delivered: the test callers rely on |
| `SafeReader.CompleteReadIsExact` | src/android_agent/SafeMemoryReader.cpp:380-570 | a complete read returns the memory's bytes |
| `SafeReader.PrefixIff` | src/android_agent/SafeMemoryReader.cpp:506-507 | for one call: the first bytes_read bytes are the memory's iff no delivered byte follows a missing one |
| `SafeReader.PrefixAlwaysIff` | src/android_agent/SafeMemoryReader.cpp:475-561 | whatever the system calls return and whichever pages are resident, a successful read counts a valid prefix iff all it may touch is one piece that starts at the first byte asked for |
| `SafeReader.OnePageIsTruthful` | src/android_agent/SafeMemoryReader.cpp:524-561 | which holds for every request that stays in one page |
| `SafeReader.ReadIsNoPrefix` | src/android_agent/SafeMemoryReader.cpp:524-561 | two bytes across a page border, the first page not resident: the read succeeds, reports one byte and has not delivered the first |
| `SafeReader.PathsAgree` | src/android_agent/SafeMemoryReader.cpp:449-570 | when every call returns in full, chunk path and page path give the same buffer, count and outcome |
| `SafeReader.WriteThenRead` | src/android_agent/SafeMemoryReader.cpp:380-670 | a complete read after a complete write returns what was written |
| `ReadableCache.MergedMeaning` | src/android_agent/main.cpp:2476-2484 | merging sorted ranges leaves them sorted, separated by gaps, and covers the same addresses |
| `ReadableCache.MergeInPlace` | src/android_agent/main.cpp:2476-2484 | the in-place compaction with a write index computes that merge |
| `ReadableCache.Cache.Refresh` | src/android_agent/main.cpp:2451-2488 | the cache stays searchable; after a rebuild it covers exactly the readable addresses |
| `ReadableCache.Cache.HasReadableOverlap` | src/android_agent/main.cpp:2490-2501 | one lower_bound and one comparison answer whether some address of the interval is covered (iff) |
| `BreakpointText.SetInsnMeaning` | src/android_agent/main.cpp:1048-1082 | patching one half of a 64-bit word changes that instruction and no other, its word-mate included |
| `BreakpointText.InsnIsItsBytes` | src/android_agent/main.cpp:1048-1082 | an instruction is the number its four bytes hold in the 64-bit word stored there |
| `BreakpointText.SetAllMeaning` | src/android_agent/main.cpp:1037-1097 | with breakpoints set the text holds BRK at exactly their addresses |
| `BreakpointText.SavedByLast` | src/android_agent/main.cpp:1060-1095 | what the last entry for an address saved: the original the first time, BRK on any later one |
| `BreakpointText.RestoreIffDistinct` | src/android_agent/main.cpp:1690-1701 | setting a list and clearing it restores the text iff no address was set twice, except over a BRK of the program's own |
| `Breakpoints.SetOutcome` | src/android_agent/main.cpp:1012-1099 | setting succeeds exactly if the breakpoint is there afterwards; a new one comes last, with no hits, and was not there before |
| `Breakpoints.OtherSizesAreFour` | src/android_agent/main.cpp:1012-1031 | lengths other than 1, 2, 4 and 8 mean 4, in setting and clearing |
| `Breakpoints.GoodSet` | src/android_agent/main.cpp:1032-1099 | setting keeps every text as its original with BRK at the active addresses iff it does not add an address that is active under another size |
| `Breakpoints.Manager.Set` | src/android_agent/main.cpp:1012-1099 | the method reaches exactly the state GoodSet and SetOutcome are about |
| `Breakpoints.ClearOutcome` | src/android_agent/main.cpp:1101-1121 | clearing succeeds exactly if the entry was there; its address alone goes; after the last one the manager lets go of the process and of its notes |
| `Breakpoints.GoodClear` | src/android_agent/main.cpp:1101-1121 | clearing keeps the texts right |
| `Breakpoints.Manager.Clear` | src/android_agent/main.cpp:1101-1121 | the method reaches exactly that state |
| `Breakpoints.GoodClearAll` | src/android_agent/main.cpp:1690-1701 | all texts are the originals again |
| `Breakpoints.Manager.ClearAll` | src/android_agent/main.cpp:1690-1701 | the loop over the saved instructions reaches exactly that state |
| `Breakpoints.StopOutcome` | src/android_agent/main.cpp:1576-1608 | a trap is a hit iff a breakpoint is at pc or right before it; that one counter goes up by one |
| `Breakpoints.GoodStop` | src/android_agent/main.cpp:1607-1627 | the original instruction is the one that runs, and every text is as it was |
| `Breakpoints.Manager.HandleStop` | src/android_agent/main.cpp:1576-1629 | the method reaches exactly that state and reports the instruction that ran |
| `Breakpoints.GoodExit` | src/android_agent/main.cpp:1466-1474 | when the last thread exits the other texts stay right |
| `Breakpoints.NewIsGood` | src/android_agent/main.cpp:1012-1031 | a new manager has changed no text |
| `Breakpoints.GoodMeans` | src/android_agent/main.cpp:1048-1097 | that the texts are right, instruction by instruction: `brk #0` at the present process's breakpoints, and there the original is saved; else the original |
| `Breakpoints.Manager.Poll` | src/android_agent/main.cpp:1128-1153 | the loop over the breakpoints with its notes and its limit reports what the recursive poll does |
| `BreakpointRuns.PollIsTrueIff` | src/android_agent/main.cpp:1136-1147 | with distinct addresses a full poll reports, for each breakpoint, exactly the hits since its last report or its setting iff every note is right |
| `BreakpointRuns.LimitedPoll` | src/android_agent/main.cpp:1148-1150 | a limited poll reports the first so many of these |
| `BreakpointRuns.RunReportsTrulyIff` | src/android_agent/main.cpp:1037-1153 | over any run of sets, clears, stops, polls, exits and changes of process without an address active twice: every poll is true iff no breakpoint is set over an old report |
| `BreakpointRuns.AlwaysDistinctIff` | src/android_agent/main.cpp:1037-1041 | "no address active twice" is about every state a run comes through |
| `BreakpointRuns.NeverOverReportIff` | src/android_agent/main.cpp:1136-1147 | "no set over an old report" is about every step it takes |
| `BreakpointRuns.StaleCounter` | src/android_agent/main.cpp:1136-1147 | from a new manager, a run after which a poll reports 2^64 - 1 hits that never happened |
| `BreakpointRuns.LostHit` | src/android_agent/main.cpp:1137-1139 | from a new manager, a run after which a poll reports nothing although there was a hit |
| `BreakpointRuns.NextProcessInherits` | src/android_agent/main.cpp:1466-1474 | the last thread exits, and the next process' breakpoint reports hits of the one before |
| `BreakpointRuns.RunKeepsText` | src/android_agent/main.cpp:1032-1121 | over any run without an address active twice every text is its original with BRK at exactly the active addresses |
| `BreakpointRuns.RunRestoresIff` | src/android_agent/main.cpp:1690-1701 | over any run on one process, sizes repeated or not: clearing everything restores the text iff the calls leave no BRK where the program had none |
| `BreakpointRuns.TwoSizesLeaveBrk` | src/android_agent/main.cpp:1037-1041 | one address set under two sizes: the text does not come back |
| `AgentIndex.IndexChunk` | src/android_agent/main.cpp:3267-3291 | one buffer adds the entries of its nonzero slots until the list is full |
| `AgentIndex.ChunkStep` | src/android_agent/main.cpp:3231-3306 | the walk over a region is its overlapped chunks one after the other, no slot lost or doubled |
| `AgentIndex.IndexRegion` | src/android_agent/main.cpp:3227-3306 | one region, under any replies: entries and fullness; it fails iff a strict build comes to a chunk that is refused or read in part before the list is full |
| `AgentIndex.BuildIndex` | src/android_agent/main.cpp:3200-3331 | succeeds unless a strict build comes to such a chunk (iff); then sorted, duplicate-free, at most the limit; truncated iff the limit is reached; otherwise exactly what the replies show |
| `AgentIndex.SeenMember` | src/android_agent/main.cpp:3227-3306 | a pair is seen iff it is the nonzero value of a slot of a readable region whose chunk was read |
| `AgentIndex.SlotAtIff` | src/android_agent/main.cpp:3227-3239 | the slots of a readable region |
| `AgentIndex.ChunkOfSlot` | src/android_agent/main.cpp:3221-3306 | the chunk of 256 KiB a slot is read with, in closed form |
| `AgentIndex.ExactIff` | src/android_agent/main.cpp:3249-3266 | on one memory: an untruncated index is exact iff every slot in a chunk that returned nothing is null |
| `AgentIndex.ExactOnEveryMemoryIff` | src/android_agent/main.cpp:3249-3266 | on every memory: iff the chunk of every slot was read in full |
| `AgentIndex.FullReadsSucceed` | src/android_agent/main.cpp:3249-3266 | complete reads make a strict build succeed and show every slot |
| `AgentIndex.StrictMissesEmptyReads` | src/android_agent/main.cpp:3258-3266 | a page that is read as empty: the strict build succeeds, and its index is not exact |
| `AgentIndex.IndexServesScan` | src/windows_client/ClientUI.cpp:8431-8479 | an exact index consists of true pairs and has the nonzero slots that reading the page-aligned readable regions would visit |
| `AgentIndex.IndexGivesSameChains` | src/windows_client/ClientUI.cpp:8431-8479 | so over the agent's index there are the same chains as over those regions |
| `AgentIndex.Query` | src/android_agent/main.cpp:3371-3392 | one page: clamped start and count |
| `ClientIndex.Client.Download` | src/windows_client/ClientUI.cpp:8827-8874 | page by page the client rebuilds the agent's index; it breaks off at the first page that does not come, and then holds the pages before |
| `ClientIndex.Client.BuildPointerIndexFromAgent` | src/windows_client/ClientUI.cpp:8752-8898 | what is held afterwards: untouched if the build is unanswered, failed, cut short or empty (iff); the first pages under the old notes if the download breaks off; else the agent's whole index |
| `ClientIndex.Client.Prepare` | src/windows_client/ClientUI.cpp:7981-8038 | a scan keeps an index that suits by process, size and flags, else takes the file's, else asks the agent, and builds its own only if what it then has is empty or another process's; said by the fields |
| `ClientIndex.RoundIff` | src/windows_client/ClientUI.cpp:8023-8038 | a scan uses a whole index of the kind it wants, and leaves only such a one for reuse, iff its build does not fail over an index of the same process, nor break off without a replacement |
| `ClientIndex.RunIsRightIff` | src/windows_client/ClientUI.cpp:7981-8038 | the same over any run of scans |
| `ClientIndex.OldIndexIsUsed` | src/windows_client/ClientUI.cpp:8023-8038 | a strict scan whose build is refused gets the index that was not built strictly |
| `ClientIndex.AlignedIndexIsUsed` | src/windows_client/ClientUI.cpp:8023-8038 | a byte-step scan whose build is refused gets the index of aligned slots |
| `ClientIndex.FirstPagesAreUsed` | src/windows_client/ClientUI.cpp:8827-8842 | a broken download: this scan and a later one take the first pages for the whole index |
| `ClientIndex.FirstPagesStay` | src/windows_client/ClientUI.cpp:8827-8842 | and they stay so while further builds are refused |
| `ClientIndex.OtherProcessIsUsed` | src/windows_client/ClientUI.cpp:8827-8842 | pages of one process are used for another after a broken download |
| `Compression.RoundTrip` | src/protocol/Compression.h:11-101 | decoding inverts encoding for every byte string, whatever follows the code |
| `Compression.SizeBound` | src/protocol/Compression.h:11-39 | the code of n bytes is at most (3n + 1) / 2 long |
| `Compression.SizeBoundIsTight` | src/protocol/Compression.h:11-39 | for every n some string needs that much |
| `Compression.CompressRle0` | src/protocol/Compression.h:11-39 | the run loop emits the packets of the recursive code |
| `Compression.DecompressRle0` | src/protocol/Compression.h:70-101 | on any input it ends, never holds more than the raw size, and accepts iff the packets give exactly that size |
| `Compression.Lz4IsGuarded` | src/protocol/Compression.h:41-127 | what the library is never given, and what it must give back |
| `Compression.CompressPayloadIfUseful` | src/protocol/Compression.h:129-173 | it compresses iff some code saves enough even with its header; the smaller useful one is chosen and decompresses to the input |
| `IconAtlas.NextPow2` | tools/svg_packer/pack_svg.py:50-54 | the least power of two at or above the argument |
| `IconAtlas.TilesApart` | tools/svg_packer/pack_svg.py:102-105 | different icons get tiles that do not overlap |
| `IconAtlas.TilesFollow` | tools/svg_packer/pack_svg.py:102-105 | tiles follow each other from left to right, row below row |
| `IconAtlas.TileInside` | tools/svg_packer/pack_svg.py:92-104 | every tile lies inside the picture |
| `IconAtlas.RowsApart` | tools/svg_packer/pack_svg.py:107-110 | rows of different tiles, or different rows of one, take different bytes of the picture |
| `IconAtlas.DrawStep` | tools/svg_packer/pack_svg.py:107-110 | drawing one more row leaves all rows drawn before as they were |
| `IconAtlas.BuildAtlas` | tools/svg_packer/pack_svg.py:92-112 | every tile of the picture is its icon's raster and every other byte is zero |
| `IconAtlas.PixelIs` | tools/svg_packer/pack_svg.py:107-110 | pixel by pixel and channel by channel, the picture shows each icon in its tile |
| `IconAtlas.WriteBin` | tools/svg_packer/pack_svg.py:115-134 | writes the file iff every field fits its width |
| `IconAtlas.FileBegins` | tools/svg_packer/pack_svg.py:115-134 | a file begins with R3IA, its version, the sides, the number of icons and the size of the table |
| `IconAtlas.LoadSvgIconAtlas` | src/windows_client/main.cpp:146-217 | the cursor loop computes the recursive parse, with its 64-bit sizes; what it accepts has only rectangles inside the picture |
| `IconAtlas.PixelsAreThereIff` | src/windows_client/main.cpp:214-217 | an accepted file holds all its pixels iff table end and pixel bytes together stay below 2^64 |
| `IconAtlas.AcceptedWithoutPixels` | src/windows_client/main.cpp:214-217 | two accepted files without a pixel: the product wraps, or the sum does |
| `IconAtlas.FileRoundTrip` | src/windows_client/main.cpp:154-213 | the loader accepts every written file and recovers picture, names and rectangles in order |
| `IconAtlas.PackAndLoad` | src/windows_client/main.cpp:154-217 | the file is written iff every corner, name and tile fits 16 bits and the header's sizes fit; then the loader accepts it, and finds each icon's raster under its name |

## Left out

- PointerLevels.ScanOneTask: a short reply is taken for the front of its piece, as the code takes it; when that is so is `SafeReader.PrefixAlwaysIff`. Otherwise a scan that is not strict looks through bytes that lie elsewhere, or are zero.
- PointerScan.ReadTasks: which thread takes which task is chosen once for the pace of the reads and once for the vectors, so more runs are covered than there are.
- PointerChains.RunPointerScan: files, sessions and the merging of selected ranges come before it and are not modelled; all ranges end below 2^56, where user addresses lie. That byte steps also need non-resident reads to be allowed is a setting of the form. An index is taken to hold values of the memory as it is now: one built before the process went on is not modelled.
- PointerScan.LevelFromMemory: with failed reads the limit need not be reported although it is reached, because which nodes are counted then depends on the failures.
- MemoryScanner.Scanner.FirstScan: for a non-strict scan with failed reads it is not said which matches are missing, and a short read counts as failed.
- ScanQuery.FirstMatch: floating-point comparison is a predicate on the bits; the parsing of an ALL target is an input.
- ClientIndex.Client.Prepare: loading the index by a button of the form is not modelled; it takes over file entries and notes as the scan does. An index file is taken to hold an index that was whole when it was saved.
- AgentIndex.BuildIndex: after a partial read in a non-strict build the bytes read are unspecified, so the entries are too; nothing is promised then but order and size.
- VerifyWorkers.VerifyOnWorkers: that the filter command once failed is also remembered for later comparisons by a flag of the whole client, which is an input here.
- PointerCompare.RunPointerCompare: confirmation is stated for files with targets and a depth of at least 1; without any target the first header's own is used as it is. Benchmark mode, which reuses cached candidates, is not modelled, nor are the snapshot hashes that refuse files from different runs.
- Resolver.PrefixCache.VerifyChain: the cache is right for one memory; that it outlives a comparison is not modelled. The same holds for the readable ranges, which a later reading of the maps does not invalidate.
- Resolver.BatchCommandsAgreeIff: the other offsets are at most 2^55 in size; a scan writes offsets of at most 31 bits.
- ChainOrder.StoredOrderNeedsPalindrome: offsets are at most 2^31 in size and a chain has at most 50 of them, as a scan writes them.
- Breakpoints.Manager.HandleStop: the trap's registers can be read; without them the code counts a hit and steps over nothing. Threads are attached as long as breakpoints are set.
- SafeReader.ValidateAndRead: regions come ascending and disjoint, as the kernel lists them, and a request is smaller than half the address space. Page and system-call counters are not modelled, nor is the second attempt by another system call, which is part of the answer.
- IconAtlas.BuildAtlas: the square root that sizes the grid is the exact one; the floating-point square root of the script agrees with it for any number of icons a file could hold.
- The client's own index build (`src/windows_client/ClientUI.cpp:8040-8221`) has the shape of a level scan that keeps values instead of nodes.
- Sockets, packets, process maps, ptrace attachment and waiting, page residency and SELinux retries: inputs or open answers.
- LZ4, zlib and the disassembler: LZ4 is an assumed pair of inverse functions.
- The user interface, rendering, benchmarks and scripts, and the request wrappers of the client: no property beyond their bodies.
- Stopping and resuming the process around a session: the flags are reset while breakpoints are attached, so pairing is not an invariant.
- Names and kinds of regions: which regions are selected is an input.
