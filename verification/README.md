# Verified models of Android's system/extras

This project models the parts of `system/extras` whose correctness depends on several functions
working together, and proves what those parts are for. It covers

- the record buffer and kernel record merge of `simpleperf` (`RecordRing`, `RingProgress`,
  `KernelRecords`, `SampleLayout`, `KernelDrain`) and the two running together (`DrainedRing`),
- the call chain joiner of `simpleperf`: its LRU cache of call frames, its chain files and its two
  passes (`LruForest`, `CallChainCache`, `ChainRoom`, `ChainKept`, `ChainExtension`, `ChainFiles`,
  `ChainJoiner`),
- `memory_replay`: the multi-threaded replayer, its thread table, and the benchmark that compiles a
  trace to array indices (`Trace`, `Replay`, `ReplayEnds`, `ThreadTable`,
  `IndexedTrace`),
- `libfec`: the layout and verification of hash trees, reads certified by them, and the search for
  verity metadata (`VerityLayout`, `VerityTree`, `VerityRead`),
- the JIT debug reader of `simpleperf` (`JitReader`),
- and three smaller components: updating unwinder maps (`UnwindMaps`), writing and extracting
  super image partitions (`SuperImage`), and fscrypt options (`FscryptOptions`).

Code that runs concurrently is a state machine whose steps are the atomic accesses of the source;
its theorems hold for every run. Code that updates objects is a class with the same fields. Loops
stay loops and are proved against a function or a property stated without them.

`dafny verify dfyconfig.toml` checks everything.

## What the proofs found

- `AllocWriteSpace` grants space safely exactly when the write head is not one byte behind the read
  head (`RecordRing.AllocSafeIff`). Sizes with a common divisor of 2 or more never reach that case;
  records of 10, 22 and 9 bytes in a ring of 32 do (`RecordRing.UnsafeGrant`).
- `AddCallChain` collects the nodes of a chain one by one, and a later frame can recycle the node of
  an earlier one. It does so exactly if the frames that are not cached as inner nodes outnumber the
  unused slots and the leaves (`ChainRoom.Roomy`, with one parent more in a corner case). A cache of
  two nodes and a chain of three frames is such a case (`ChainRoom.TwoNodesThreeFrames`); a chain
  that is cached already never is (`ChainExtension.CachedChainFits`). The links then run in a circle,
  but only through the chain's top, where the call cuts them: after every call following parents ends
  (`ChainExtension.AddCallChain`), so that joining goes through on any cache. And a node always holds
  the frame of its last place in the chain, so that stack order and the absence of repeated frames
  survive too: every joined chain is clean (`ChainJoiner.CallChainJoiner.JoinCallChains`). Only the
  result need not be a path of the cache then.
- `AddCallChain` continues a chain by the way up that the cache had from its last frame, if the cache
  knew the frames that must match (`ChainExtension.CameFrom`). The converse fails where an earlier
  frame of the same chain has taken the node of a frame that must match
  (`ChainExtension.KnownYetNotContinued`). Whether it does follows from the cache and the chain before
  the call (`ChainKept.Kept`), and then decides (`ChainExtension.Continued`); it never does while every
  frame that is not cached finds an unused slot (`ChainExtension.PlentyContinues`).
- A reader that is left undisturbed commits exactly if the entries it looks at are valid; one entry
  beyond the new ones is looked at too (`JitReader.UndisturbedReaderCommits`).
- `ReadDescriptors` copies head, seqlock and timestamp one after the other. A commit is exact if the
  head it copied is the current one, and otherwise takes nothing off the list
  (`JitReader.CommitExactIff`). A head copied before a registration, with the fields behind it copied
  after, makes the reader miss the entry for good (`JitReader.RegistrationMissed`). An entry that was
  registered when it was accepted is never accepted again, in any run (`JitReader.NeverAcceptedTwice`);
  one that was never registered can be (`JitReader.StrayAcceptedTwice`).
- `find_offset` computes `hi + lo` in 64 bits. It ends exactly if that sum does not reach 2^64 in the
  first or the second round (`VerityLayout.FindOffset` and `NeverEnds`, for every 64-bit size); so it
  does up to 2^63 and a little beyond (`HalfEnds`). When it ends, it finds the metadata exactly if there
  is any and the file is at least twice as long as `get_verity_size` makes of its length
  (`ShortFileMissed` is the smallest kind of miss).
- `get_max_count` is right exactly if the request is not longer than the data or starts behind it
  (`VerityRead.MaxCountCorrectIff`); in the other case `fec_pread` fails rather than over-read.
- `process` passes its final check exactly if request and unaligned part of the offset fit the ranges
  of the threads it starts, a condition on count, offset and processors (`VerityRead.SplitFits`).
  Block-aligned offsets always do (`AlignedFits`); 4096 bytes from offset 1 never do
  (`UnalignedBlockFails`).
- `verify_tree` multiplies blocks and block size in 32 bits. It verifies a tree and keeps all its
  digests only below 2^20 bottom blocks; from there on the copies leave the buffer, or (from 2^32)
  digests are missing (`VerityTree.VerifyTree`).
- A thread table stays consistent exactly if no thread is created for tid 0 or twice
  (`ThreadTable.Threads.CreateThread`). `WaitForAllToQuiesce` stays within the table exactly if no more
  threads are counted than slots are used. After a thread for tid 0 alone it does not, and a search
  for any other tid does not end (`ThreadTable.ZeroBreaks`).
- A shortened sample's header size equals the bytes written exactly if the stack was the record's
  last field (`KernelRecords.CutSizeIff`).
- `WritePartition`'s final check holds exactly if the extents are large enough for the image
  (`SuperImage.WritePartition`).

## Model
| member | source | states |
|---|---|---|
| `RecordRing.AllocIsSafe` | simpleperf/RecordReadThread.cpp:48-71 | for sizes with any common divisor of 2 or more, space is granted if and only if the record is shorter than the ring and the head stored afterwards is less than one lap ahead of the read head; it is then where the reader will look for the next record |
| `RecordRing.GrantedIff` | simpleperf/RecordReadThread.cpp:48-71 | for any sizes, the exact heads and record lengths for which space is granted, whether it is behind the write head or wraps to the start |
| `RecordRing.AllocSafeIff` | simpleperf/RecordReadThread.cpp:48-71 | for any sizes, a grant keeps the heads within one lap if and only if the write head is not one byte behind the read head |
| `RecordRing.UnsafeGrant` | simpleperf/RecordReadThread.cpp:48-71 | heads reached by grants of 10, 22 and 9 bytes in a ring of 32, where the next grant reaches into the unread record and the heads are a lap apart |
| `RecordRing.FreeSizeIsRoom` | simpleperf/RecordReadThread.cpp:38-46 | the free size is the distance the write head may still move, in terms of the two heads as lap and position |
| `RecordRing.StepKeepsInv` | simpleperf/RecordReadThread.cpp:48-106 | every load (also of an old value of the other head), store and copied byte of either thread keeps the ring invariant |
| `RecordRing.RunKeepsInv` | simpleperf/RecordReadThread.cpp:35-106 | the invariant holds after every interleaving from the initial state, for any unit of at least 2 that divides the sizes |
| `RecordRing.EveryStateHasShape` | simpleperf/RecordReadThread.cpp:48-106 | in every reachable state both threads address the ring within its bounds, so that no step of a run is blocked by the model |
| `RecordRing.ReadsArePrefixOfWrites` | simpleperf/RecordReadThread.cpp:73-106 | in every interleaving the records read are a prefix of the records written, in order and byte for byte |
| `RecordRing.WriterNeverTouchesUnread` | simpleperf/RecordReadThread.cpp:48-77 | in every interleaving no byte between the read head and the write head is stored to, the wrap marker included |
| `RecordRing.NothingFoundMeansAllRead` | simpleperf/RecordReadThread.cpp:79-106 | in every reachable state the reader finds nothing if and only if it has read every record the write head it loaded stands for, and with the newest write head if and only if it has read everything written |
| `RingProgress.LoadDecides` | simpleperf/RecordReadThread.cpp:48-71 | what the writer does on loading the read head: it gives up if and only if the record does not fit |
| `RingProgress.OfferedIsLogged` | simpleperf/RecordReadThread.cpp:48-77 | left alone, the writer puts the record it was offered into the log if and only if it fits before the read head it loads |
| `RingProgress.LoadFinds` | simpleperf/RecordReadThread.cpp:79-100 | on loading a write head beyond what it has read, the reader turns to the next record |
| `RingProgress.NextIsRead` | simpleperf/RecordReadThread.cpp:79-106 | left alone, a reader that loads a write head beyond what it has read copies out the next record of the log, whole and unchanged |
| `KernelRecords.ReadIsSlice` | simpleperf/RecordReadThread.cpp:186-193 | reading around the end of the kernel buffer gives the record's bytes |
| `KernelRecords.GetStackSizePos` | simpleperf/RecordReadThread.cpp:144-168 | computed through the ring, the position is the one the record's own fields determine |
| `KernelRecords.Push` | simpleperf/RecordReadThread.cpp:498-579 | working on the ring: a record is passed over if and only if it is a sample of the excluded process; a sample with large stacks is lost below the critical level and otherwise keeps the valid part of its stack, at most 1024 bytes below the low level and at most the configured size above it; everything else is stored whole or, without room, lost. A cut record has the fields and sizes it should |
| `KernelRecords.DecideMeans` | simpleperf/RecordReadThread.cpp:498-579 | the same for the decision on the bytes of the record that the statistics are built on |
| `KernelRecords.CutSizeIff` | simpleperf/RecordReadThread.cpp:545-557 | the header size of a cut sample equals the bytes written if and only if the stack was the record's last field |
| `KernelRecords.SameLayout` | simpleperf/RecordReadThread.cpp:144-168 | records that agree up to the stack agree on where the stack is |
| `KernelRecords.CutIsRecord` | simpleperf/RecordReadThread.cpp:545-557 | a cut sample is again a well-formed record of the ring, shorter by the stack bytes left out: same fields before the stack, same stack position, both stack sizes equal to the data kept |
| `KernelRecords.StoredIsRecord` | simpleperf/RecordReadThread.cpp:498-579 | of every well-formed record whose stack is its last field, what is stored, whole or cut, is a well-formed record whose header size is the bytes written |
| `SampleLayout.FieldsAreFound` | simpleperf/RecordReadThread.cpp:108-172 | a sample laid out field by field in the order of perf_event_open is well formed, ends with its stack, and its process, time, stack size and valid stack size are found where the parser looks |
| `SampleLayout.SampleIsTrimmed` | simpleperf/RecordReadThread.cpp:498-579 | what becomes of such a sample, by its fields: cutting it gives the same sample laid out with the first bytes of its stack, and the conditions for storing, cutting, passing over and losing it |
| `SampleLayout.TrailerTime` | simpleperf/RecordReadThread.cpp:108-142 | any other record goes by the time in its sample_id trailer, and by the time of the record before it exactly if it has no such field or nothing before it |
| `KernelDrain.ReadThread.MoveToNextRecord` | simpleperf/RecordReadThread.cpp:195-209 | it stops exactly after the last available record; otherwise the reader stands at the next one with its header and its effective time |
| `KernelDrain.ReadThread.PushRecord` | simpleperf/RecordReadThread.cpp:498-579 | the statistics change exactly as the outcome of the record demands |
| `KernelDrain.ReadThread.DrainOne` | simpleperf/RecordReadThread.cpp:460-464 | a single buffer's records are handed over once each, in order |
| `KernelDrain.ReadThread.MergeReaders` | simpleperf/RecordReadThread.cpp:470-483 | whichever reader the heap puts first among equals, every record is handed over once, each buffer in its order, and in nondecreasing time if every buffer is in time order |
| `KernelDrain.ReadThread.DrainPass` | simpleperf/RecordReadThread.cpp:449-485 | one pass hands over from every buffer exactly its available records, in the buffer's order; the whole is in time order if every buffer is; the statistics account for every record, whatever the record buffer answers; everything stored is a well-formed record if stacks come last |
| `KernelDrain.TallyConserves` | simpleperf/RecordReadThread.cpp:498-579 | records handed over = stored + lost samples + lost other records + excluded |
| `KernelDrain.TallyCounts` | simpleperf/RecordReadThread.cpp:498-579 | each counter is the number of records that met that fate: samples lost, other records lost, samples cut below their valid stack |
| `KernelDrain.TallyStores` | simpleperf/RecordReadThread.cpp:498-579 | whatever the order of hand-over, each record stored is well-formed |
| `DrainedRing.WishDecides` | simpleperf/RecordReadThread.cpp:498-579 | a record that is to be stored, whole or cut, is stored if and only if the ring has room for exactly its bytes |
| `DrainedRing.StepKeepsInv` | simpleperf/RecordReadThread.cpp:38-106 | every load, copied byte and decision of the reading thread, and every step of the main thread, keeps statistics and ring in agreement |
| `DrainedRing.DrainedIsLog` | simpleperf/RecordReadThread.cpp:449-579 | in every interleaving with the main thread: what the statistics count as stored is what was written to the ring, the main thread has read a front part of it unchanged, and the statistics are those DrainPass gives for answers that the ring gave |
| `DrainedRing.PassIsLogged` | simpleperf/RecordReadThread.cpp:449-579 | when all records of a pass have been dealt with, the ring's log is what the pass stores |
| `DrainedRing.NeverBlocked` | simpleperf/RecordReadThread.cpp:498-579 | until then the reading thread can always take a step of its own |
| `LruForest.UnlinkForest` | simpleperf/CallChainJoiner.h:99-104 | taking a leaf off the list leaves the list of the other leaves and all child counts right |
| `LruForest.AppendForest` | simpleperf/CallChainJoiner.h:106-112 | appending a leaf makes it the last of the list |
| `LruForest.DecreaseForest` | simpleperf/CallChainJoiner.h:114-119 | when a child leaves, the parent's count is right again and a parent without children becomes the last leaf of the list |
| `LruForest.AttachForest` | simpleperf/CallChainJoiner.cpp:150-163 | when a child joins, its parent counts it and is off the list |
| `CallChainCache.LRUCache.constructor` | simpleperf/CallChainJoiner.cpp:27-39 | an empty cache is valid |
| `CallChainCache.LRUCache.AllocNode` | simpleperf/CallChainJoiner.cpp:134-148 | the next unused slot, else the front of the list; only a node without children is recycled, and it is gone from the index and from its parent's count |
| `CallChainCache.LRUCache.GetNode` | simpleperf/CallChainJoiner.cpp:112-132 | exact lookup by tid, ip and sp: a cached frame's node, moved to the end of the list if it is a leaf, or a new leaf without parent; every other frame and parent is as it was; the whole cache stays sound |
| `CallChainCache.LRUCache.LinkParent` | simpleperf/CallChainJoiner.cpp:150-163 | only that child's parent changes; list and counts stay exact |
| `CallChainCache.LRUCache.UnlinkParent` | simpleperf/CallChainJoiner.cpp:165-171 | only that child's parent is cleared; list and counts stay exact |
| `ChainRoom.TrackStep` | simpleperf/CallChainJoiner.cpp:46-51 | each lookup that does not recycle a node of the chain keeps the account of what is left at the front of the list |
| `ChainRoom.TrackedIsRoomy` | simpleperf/CallChainJoiner.cpp:46-51 | if all frames got their nodes, the condition on the cache before held |
| `ChainRoom.StuckIsNotRoomy` | simpleperf/CallChainJoiner.cpp:46-51 | if a node of the chain is next to be recycled, the condition did not hold |
| `ChainRoom.StuckRecyclesChain` | simpleperf/CallChainJoiner.cpp:112-148 | in that state GetNode really takes a node of the chain |
| `ChainRoom.TwoNodesThreeFrames` | simpleperf/CallChainJoiner.cpp:46-51 | a sound cache of two nodes and a chain of three frames for which the condition fails: the third lookup is about to recycle the first node |
| `ChainRoom.EmptyCacheRoom` | simpleperf/CallChainJoiner.cpp:46-51 | in an empty cache the condition is that there are as many nodes as frames |
| `ChainKept.FoundIsKept` | simpleperf/CallChainJoiner.cpp:111-132 | when a frame is looked up it is found if and only if the cache and the chain before the call say so |
| `ChainKept.FollowStep` | simpleperf/CallChainJoiner.cpp:111-148 | each lookup moves the leaves that wait to be recycled and the unused slots as computed from the cache before the call |
| `ChainKept.InheritedStep` | simpleperf/CallChainJoiner.cpp:111-148 | while the frames are looked up, a node that has a parent has had it before the call, and both hold their old frames |
| `ChainKept.CachedIsKept` | simpleperf/CallChainJoiner.cpp:111-132 | with an unused slot for every frame that is not cached, a frame is found if and only if it was cached |
| `ChainKept.RecycledTooEarly` | simpleperf/CallChainJoiner.cpp:111-148 | a cache with room for a chain in which a cached frame is recycled before it is looked up |
| `ChainExtension.BuildChain` | simpleperf/CallChainJoiner.cpp:46-51 | for any chain and cache: each node found holds the frame of its last place in the chain, and the cache stays free of cycles; for distinct frames, the nodes are distinct if and only if the cache before had room for the frames, and then node j holds frame j |
| `ChainExtension.MayExtend` | simpleperf/CallChainJoiner.cpp:53-67 | what the test of the top frames computes, for any match count; PairTest says what that is in terms of the cache before the call |
| `ChainExtension.PairTest` | simpleperf/CallChainJoiner.cpp:53-67 | with a match count above one the test succeeds if and only if the cache before the call knew the last two frames as callee and caller and the callee was still cached when looked up |
| `ChainExtension.LinkChain` | simpleperf/CallChainJoiner.cpp:70-73 | every chain node is linked to the successor of its last place in the chain, and no other parent changes |
| `ChainExtension.Climb` | simpleperf/CallChainJoiner.cpp:75-98 | following parents always ends, even when nodes of the chain were recycled: at a node without parent, with exactly the frames on the way appended and the chain not touched, or at a node of the chain that gives the loop away |
| `ChainExtension.Extend` | simpleperf/CallChainJoiner.cpp:74-102 | if the test holds and the way up is clear, its frames are appended; otherwise the top loses its parent and nothing is appended |
| `ChainExtension.ExtendedRanked` | simpleperf/CallChainJoiner.cpp:70-102 | whatever the chain, after the fourth step every parent has a higher rank: there is no cycle |
| `ChainExtension.ExtendedRising` | simpleperf/CallChainJoiner.cpp:70-102 | with or without room, parents in stack order are in stack order again after the call |
| `ChainExtension.ExtendedIsGood` | simpleperf/CallChainJoiner.cpp:45-102 | with or without room, a clean chain comes back clean: nondecreasing sps and no frame twice, so that it can be fed to the next pass |
| `ChainExtension.ChoseExtension` | simpleperf/CallChainJoiner.cpp:74-102 | when every frame has its own node and parents are in stack order, the frames appended are the way up as it was before, unless that way meets the chain |
| `ChainExtension.ExtensionCameFrom` | simpleperf/CallChainJoiner.cpp:53-101 | whatever the chain and the room, an extension is the way up that the cache before the call had from the last frame, and with a match count of two or more that cache knew the last two frames as callee and caller |
| `ChainExtension.ExtensionContinues` | simpleperf/CallChainJoiner.cpp:45-102 | with room, the cache before the call decides the extension: the old way up if the frames that must match were known and kept and that way avoids the chain, and nothing otherwise |
| `ChainExtension.PlentyContinues` | simpleperf/CallChainJoiner.cpp:45-102 | with an unused slot for every frame that is not cached, the old way up is appended whenever the frames that must match were known and it avoids the chain |
| `ChainExtension.KnownYetNotContinued` | simpleperf/CallChainJoiner.cpp:45-102 | a cache with room for a chain whose last two frames it knows as callee and caller, which yet does not continue it |
| `ChainExtension.AddCallChain` | simpleperf/CallChainJoiner.cpp:45-102 | for any chain and any cache without cycles: the cache is valid again, without cycles and within one tid; the result starts with the input, and what is appended are the frames of the way up that the cache had before, under the match count; a clean chain stays clean and parents stay in stack order. Each frame has its own node if and only if there was room; then the result is a cached path to a root, and the cache before the call decides exactly what is appended |
| `ChainExtension.CachedChainFits` | simpleperf/CallChainJoiner.cpp:46-51 | for a chain whose frames are a cached path there is always room |
| `ChainExtension.FullClimb` | simpleperf/CallChainJoiner.cpp:77-98 | without cycles, the parents of every node lead to a node without parent |
| `ChainFiles.DecodeEncode` | simpleperf/CallChainJoiner.cpp:177-257 | decoding the bytes of a chain gives the chain, with or without the trailing size |
| `ChainFiles.WriteCallChain` | simpleperf/CallChainJoiner.cpp:177-203 | appends the encoding of the first ip_count frames |
| `ChainFiles.ReadCallChainInReverseOrder` | simpleperf/CallChainJoiner.cpp:231-257 | right behind a chain, it returns that chain and ends right before it |
| `ChainFiles.ReadCallChain` | simpleperf/CallChainJoiner.cpp:205-229 | right before a chain, it returns that chain and ends right behind it |
| `ChainJoiner.CleanLength` | simpleperf/CallChainJoiner.cpp:294-313 | what is kept is the longest beginning with nondecreasing sps and no frame twice |
| `ChainJoiner.HasDuplicate` | simpleperf/CallChainJoiner.cpp:302-307 | looking back over equal sps finds exactly the frames that came before |
| `ChainJoiner.JoinOne` | simpleperf/CallChainJoiner.cpp:353-375 | moves one chain from the end of one file to the end of the other, whatever the cache; the chain written is the result of AddCallChain on the one read and the cache before; a clean chain stays clean; it stops if and only if the size of the result does not fit an int |
| `ChainJoiner.JoinPass` | simpleperf/CallChainJoiner.cpp:351-376 | one pass writes every chain once, in reverse order, each as AddCallChain makes it from the cache the chains before it left, and counts frames and the longest chain; clean chains stay clean and the cache stays in stack order, whatever its size |
| `ChainJoiner.TwoPasses` | simpleperf/CallChainJoiner.cpp:347-376 | reversing twice: joined chain i has pid and tid of stored chain i, starts with its frames, and has the joined type |
| `ChainJoiner.JoinedIsPath` | simpleperf/CallChainJoiner.cpp:325-379 | a joined chain for which the cache had room is, when it is written, the cached path from its first frame to a root |
| `ChainJoiner.CallChainJoiner.AddCallChain` | simpleperf/CallChainJoiner.cpp:288-323 | stores exactly the clean beginning, behind the chains stored before |
| `ChainJoiner.CallChainJoiner.JoinCallChains` | simpleperf/CallChainJoiner.cpp:325-379 | on any cache, the joined file holds afterwards, in the stored order and with the joined type, each stored chain as two calls of AddCallChain make it, one in each pass, starting from an empty cache; all of them are clean; the statistics are the totals; it stops early only if a stored chain with two caches full of frames is too long for an int |
| `ChainJoiner.CallChainJoiner.GetNextCallChain` | simpleperf/CallChainJoiner.cpp:381-403 | hands out joined chains in order, each after its original if originals are kept, and ends after the last |
| `Trace.GetMaxAllocs` | memory_replay/main.cpp:39-71 | on a well-formed trace it is the largest number of pointers live at once, and on any trace that never gives back too much the largest balance of allocations |
| `Trace.LiveIff` | memory_replay/Alloc.cpp:83-97 | a pointer is live from an entry exactly if that entry allocated it and no entry since has allocated it or given it back |
| `Trace.TableHoldsFourTimes` | memory_replay/Pointers.cpp:29-36 | the table has at least four slots per such pointer |
| `Replay.StepKeepsInv` | memory_replay/main.cpp:87-136 | every step of coordinator and workers keeps the replay invariant |
| `Replay.RunKeepsInv` | memory_replay/main.cpp:87-136 | it holds after every interleaving |
| `Replay.KeyIsThere` | memory_replay/Pointers.cpp:61-88 | whenever a free is under way, its pointer is in exactly one slot, with the block of the latest allocation |
| `Replay.FindingNotOver` | memory_replay/Pointers.cpp:77-88 | a lookup never runs past the last slot |
| `Replay.ProbingNotOver` | memory_replay/Pointers.cpp:90-103 | a search for an empty slot never runs past the last slot |
| `Replay.OccupiedBound` | memory_replay/Pointers.cpp:90-103 | occupied slots never exceed the largest number of live pointers, in any state |
| `Replay.LiveIsLatest` | memory_replay/main.cpp:39-71 | between the entry that made a pointer live and now, no entry allocates or frees it |
| `Replay.RemovalsAreLatest` | memory_replay/Pointers.cpp:61-75 | the block a Remove is to return is that of the latest earlier allocation of its pointer |
| `Replay.RemovalsAreTheFrees` | memory_replay/Alloc.cpp:83-97 | the removals are the freeing entries, in trace order |
| `Replay.EveryRunIsSafe` | memory_replay/main.cpp:87-136 | in every run no error exit is taken, every Remove returned the block of the latest earlier allocation, and the table stays within GetMaxAllocs |
| `Replay.FinishedRunFreesAllOnce` | memory_replay/main.cpp:87-136 | when a run has ended, the block of every allocating entry was freed exactly once, FreeAll included |
| `Replay.NoDeadlock` | memory_replay/Thread.cpp:29-57 | no reachable state before the end is stuck |
| `ReplayEnds.StepLowers` | memory_replay/main.cpp:87-136 | every step of the coordinator and of every worker lowers a measure |
| `ReplayEnds.EveryRunEnds` | memory_replay/main.cpp:87-136 | no run is longer than a number that depends on the length of the trace and the table only, and a run that cannot go on has come to its end |
| `ThreadTable.Threads.FindThread` | memory_replay/Threads.cpp:92-107 | exact lookup despite slots emptied in the middle, never past the table |
| `ThreadTable.Threads.FindEmptyEntry` | memory_replay/Threads.cpp:123-134 | an empty slot is found if and only if there are fewer threads than slots |
| `ThreadTable.Threads.CreateThread` | memory_replay/Threads.cpp:72-90 | fails only when full; the table stays consistent if and only if the tid is not 0 and not there yet |
| `ThreadTable.EmptySearchNeverEnds` | memory_replay/Threads.cpp:92-107 | with a count left and no used slot, the loop of FindThread is still going after any number of rounds |
| `ThreadTable.Threads.Finish` | memory_replay/Threads.cpp:136-145 | exactly one slot is emptied and the count follows |
| `ThreadTable.Threads.WaitForAllToQuiesce` | memory_replay/Threads.cpp:109-117 | on any table: stays within it if and only if no more threads are counted than slots are used; waits for exactly the threads there are if the count is right |
| `ThreadTable.Threads.FinishAll` | memory_replay/Threads.cpp:147-156 | the table is empty afterwards |
| `ThreadTable.HandOutThreads` | memory_replay/main.cpp:92-127 | for any trace: up to the first entry at which more threads are alive than the table has slots, where it gives up, the table holds exactly the live tids; at an entry with tid 0 the claim ends |
| `ThreadTable.ZeroBreaks` | memory_replay/Threads.cpp:72-117 | after a thread for tid 0 in an empty table, every search for another tid goes on for ever and waiting for all threads leaves the table |
| `IndexedTrace.GetTraceData` | memory_replay/TraceBenchmark.cpp:98-150 | rewrites the entries in place as the index compiler says, or reports that it cannot |
| `IndexedTrace.AcceptedIff` | memory_replay/TraceBenchmark.cpp:98-140 | a trace is accepted if and only if every entry that gives a pointer back names a live one |
| `IndexedTrace.EntryMatches` | memory_replay/TraceBenchmark.cpp:108-142 | one rewritten entry does on the array what the original does on a pointer map |
| `IndexedTrace.RunsMatch` | memory_replay/TraceBenchmark.cpp:98-247 | at every entry the indexed replay and the pointer-map replay have made the same calls on the same blocks |
| `IndexedTrace.ReferenceMeans` | memory_replay/TraceBenchmark.cpp:152-243 | the reference makes one call for every entry but THREAD_DONE, on the block of the latest allocation of the pointer given back, and stops exactly if the allocator refuses |
| `IndexedTrace.NumPtrsIsMaxLive` | memory_replay/TraceBenchmark.cpp:49-56 | every well-formed trace is accepted and num_ptrs is the largest number of live pointers |
| `IndexedTrace.RunConserves` | memory_replay/TraceBenchmark.cpp:152-247 | blocks freed and blocks still in slots are exactly the blocks obtained |
| `IndexedTrace.IndexedReplayIsFaithful` | memory_replay/TraceBenchmark.cpp:98-247 | for every accepted trace and any allocator: same calls as the reference, no slot ever found taken, no block lost |
| `IndexedTrace.RunTrace` | memory_replay/TraceBenchmark.cpp:152-247 | replays in place; unless memory ran out, FreePtrs frees what is left and every slot is null |
| `IndexedTrace.FreePtrs` | memory_replay/TraceBenchmark.cpp:58-66 | frees exactly the blocks in the slots and nulls them all |
| `IndexedTrace.BenchmarkTrace` | memory_replay/TraceBenchmark.cpp:252-278 | any number of runs of one compiled trace each make the calls of the reference, and, unless memory ran out, hand back during the run and after it exactly the blocks the original trace obtained |
| `VerityLayout.VerityGetSize` | libfec/fec_verity.cpp:97-122 | size, number of levels and hashes per level of the tree, without overflow |
| `VerityLayout.LevelsShrink` | libfec/fec_verity.cpp:106-115 | each level holds the digests of the one below and is strictly smaller |
| `VerityLayout.TreeBlocksIsSum` | libfec/fec_verity.cpp:106-121 | the size is the blocks of all levels and the root block |
| `VerityLayout.TreeMonotone` | libfec/fec_verity.cpp:97-122 | more data never needs a smaller tree, although the number of levels varies |
| `VerityLayout.TreeIsOneIn127` | libfec/fec_verity.cpp:97-122 | the tree takes one block in 127, up to one block for each level |
| `VerityLayout.OffsetUnique` | libfec/fec_open.cpp:42-79 | a file has at most one place where its verity metadata can start |
| `VerityLayout.OffsetInRange` | libfec/fec_open.cpp:57-59 | that place always lies in the range the search starts with |
| `VerityLayout.FindOffset` | libfec/fec_open.cpp:42-95 | for every size at which hi + lo does not reach 2^64 in the first two rounds the search ends; it returns only a block-aligned offset with offset + size(offset) = file size, and finds it if and only if there is one and the file is at least twice its metadata size |
| `VerityLayout.ShortFileMissed` | libfec/fec_open.cpp:57-59 | ten blocks can be data with metadata, but the search does not find them |
| `VerityLayout.NeverEnds` | libfec/fec_open.cpp:61-74 | for every other 64-bit size the loop is still going after any number of rounds |
| `VerityLayout.LargestNeverEnds` | libfec/fec_open.cpp:61-74 | the largest block-aligned size is such a case |
| `VerityLayout.HalfEnds` | libfec/fec_open.cpp:57-74 | sizes up to 2^63 and 1/256 more are of the first kind |
| `VerityTree.LevelsTile` | libfec/fec_verity.cpp:245-257 | root block and levels fill the tree's range exactly, one behind the other |
| `VerityTree.LevelSizes` | libfec/fec_verity.cpp:275-325 | every level has room for the digests of the next, and only the bottom level has as many blocks as the bottom level |
| `VerityTree.FindBottom` | libfec/fec_verity.cpp:245-257 | size of the bottom level in 32 bits, for every tree; its offset, below 2^20 bottom blocks |
| `VerityTree.CheckLevel` | libfec/fec_verity.cpp:278-322 | below 2^20 blocks a level passes if and only if each block has the digest the level above holds, and only the bottom level is kept; a bottom level of 2^20 blocks or more never passes |
| `VerityTree.LevelOkIff` | libfec/fec_verity.cpp:157-169 | a level checks if and only if each of its blocks has the digest that stands at its place in the level above, of which only the digest's own bytes are compared |
| `VerityTree.CheckLevels` | libfec/fec_verity.cpp:275-325 | the levels pass if and only if each checks against the one above, and the bottom level is what is kept |
| `VerityTree.VerifyTree` | libfec/fec_verity.cpp:204-337 | for every tree: it succeeds with a digest for every data block if and only if there are at least 2 and fewer than 2^20 bottom blocks, the tree lies within the data and it checks against the root digest; it then keeps exactly the bottom level |
| `VerityTree.LevelsAgree` | libfec/fec_verity.cpp:275-325 | two files that check against one root digest have the same levels if and only if no two different blocks at the same place of them have the same digest |
| `VerityTree.HashDataIsDetermined` | libfec/fec_verity.cpp:204-337 | without corrections and unless two such blocks collide, the kept digests depend only on root digest, hash and number of data blocks |
| `VerityRead.FecHandle.CheckBlockHashWithIndex` | libfec/fec_verity.cpp:171-177 | compares with the right digest for an index within the data; any other index comes out as a match |
| `VerityRead.GenuineIff` | libfec/fec_verity.cpp:157-177 | a block is right if and only if its digest is the one kept at its place, in the digest's own bytes |
| `VerityRead.FecHandle.IsZero` | libfec/fec_read.cpp:86-103 | says yes if and only if the digest held for the block is that of zeros; a block of zeros then has the right digest |
| `VerityRead.FecHandle.ReadBlock` | libfec/fec_read.cpp:313-382 | succeeds if and only if the block is undamaged, expected to be zeros, or one of the two decodings has the right digest; on every path (raw, zero, corrected) the block returned has the right digest, only such a block is written back, and an undamaged block is returned untouched |
| `VerityRead.FecHandle.ReadRange` | libfec/fec_read.cpp:285-400 | what it returns is certified byte by byte; a range past the data is refused; undamaged data is delivered |
| `VerityRead.CertifiedIsImage` | libfec/fec_read.cpp:285-400 | where no other block has the digest of the image's block, certified bytes are the bytes of the image |
| `VerityRead.OnlyImageIff` | libfec/fec_read.cpp:285-400 | for one block, only the image's bytes are certified if and only if no other block has its digest |
| `VerityRead.Split` | libfec/fec_process.cpp:54-114 | the thread ranges follow each other without gap or overlap, every thread has work, all but the first start at a block; how many there are and whether they cover the request is decided by count, offset and processors, in both directions |
| `VerityRead.SplitIs` | libfec/fec_process.cpp:44-75 | how many blocks each thread gets and how many threads are started, from 1 to 64, and the condition on count, offset and processors for the request to fit |
| `VerityRead.AlignedFits` | libfec/fec_process.cpp:54-114 | a request from a block-aligned offset is always covered |
| `VerityRead.UnalignedBlockFails` | libfec/fec_process.cpp:54-114 | 4096 bytes from offset 1 never are |
| `VerityRead.FecHandle.Process` | libfec/fec_process.cpp:43-139 | a success is the whole request, certified; it fails on every request that does not fit and delivers undamaged data for every request that does |
| `VerityRead.MaxCountCorrectIff` | libfec/fec_read.cpp:458-467 | the count is right if and only if the request is not longer than the data or starts behind it |
| `VerityRead.FecHandle.Pread` | libfec/fec_read.cpp:516-531 | every success is the certified part of the request within the data; a request longer than the data that starts inside it fails; otherwise it fails if the part does not fit the threads, and delivers undamaged data if it does |
| `JitReader.StepKeepsInv` | simpleperf/JITDebugReader.cpp:386-439 | every remote read, one for each field of the descriptor, and every step of the process keeps the invariant |
| `JitReader.RunKeepsInv` | simpleperf/JITDebugReader.cpp:386-439 | it holds in every state of every run |
| `JitReader.NewerPrefix` | simpleperf/JITDebugReader.cpp:636-640 | stopping at the first old entry misses no new one |
| `JitReader.NewerLimit` | simpleperf/JITDebugReader.cpp:401-403 | the read limit misses no new entry either |
| `JitReader.CommitExactIff` | simpleperf/JITDebugReader.cpp:386-427 | a commit that started from the current head accepts exactly the nonempty entries registered since the last one and still listed, and so if nothing was modified between the copies of head and seqlock; from another head it takes nothing off the list |
| `JitReader.StrayedRead` | simpleperf/JITDebugReader.cpp:617-655 | a reader that started at another head never takes up an entry of the list |
| `JitReader.EveryCommitIsExact` | simpleperf/JITDebugReader.cpp:386-427 | in every run a step either accepts nothing or is a commit, exact under exactly that condition |
| `JitReader.NotAcceptedLater` | simpleperf/JITDebugReader.cpp:386-427 | in every run, what was registered at a commit is not accepted by any later one |
| `JitReader.NeverAcceptedTwice` | simpleperf/JITDebugReader.cpp:386-427 | in every run no empty entry is accepted, and no entry that was registered when it was accepted is accepted again; no entry at all, as long as no descriptor was copied across a modification |
| `JitReader.StrayAcceptedTwice` | simpleperf/JITDebugReader.cpp:386-427 | a run that accepts an entry twice that was never registered |
| `JitReader.RegistrationMissed` | simpleperf/JITDebugReader.cpp:533-566 | a run in which the head is copied before a registration and the seqlock after: the commit accepts nothing and the listed entry is never looked for again |
| `JitReader.UndisturbedReaderCommits` | simpleperf/JITDebugReader.cpp:616-659 | when the process rests after a modification, the reader catches up with it and accepts what is new, if and only if every entry it looks at is valid: an even seqlock, or in version 1 a symfile that is there; otherwise it returns to where it was and never commits while the process rests |
| `JitReader.AcceptedWereValid` | simpleperf/JITDebugReader.cpp:91-118 | in every run an accepted entry had an even seqlock when it was read, and in version 1 a symfile that is there |
| `UnwindMaps.SortIs` | simpleperf/OfflineUnwinder.cpp:208-213 | sorting by distinct starts keeps all elements and orders them strictly |
| `UnwindMaps.SortPaired` | simpleperf/OfflineUnwinder.cpp:202-213 | after compaction and sorting of both lists, map k belongs to entry k as it did before |
| `UnwindMaps.ComparedAll` | simpleperf/OfflineUnwinder.cpp:179-200 | what the comparison leaves is exactly the map set |
| `UnwindMaps.Maps.UpdateMaps` | simpleperf/OfflineUnwinder.cpp:142-214 | the entries are the map set in ascending order, map k describes entry k, shifted by the library's offset inside an apk, entries that stay keep their map object, others get a new one |
| `SuperImage.SparseWriter.WriteBlock` | partition_tools/lpunpack.cc:293-311 | what counts as written, holes included, grows by the block |
| `SuperImage.SparseWriter.WriteExtent` | partition_tools/lpunpack.cc:257-282 | succeeds if and only if the extent is whole blocks inside the image, and then adds exactly its bytes |
| `SuperImage.SparseWriter.Finish` | partition_tools/lpunpack.cc:313-326 | a hole at the end becomes part of the file |
| `SuperImage.ExtractPartition` | partition_tools/lpunpack.cc:214-252 | succeeds if and only if all extents are supported, whole blocks and readable; the file is the extents' bytes one behind the other |
| `SuperImage.WriteExtent` | partition_tools/lpadd.cc:318-355 | the next bytes of the image, as many as there are and as fit, at the extent's place and nowhere else, beyond the end of the super image too |
| `SuperImage.WritePartition` | partition_tools/lpadd.cc:295-316 | for disjoint extents: success, with the final check holding, if and only if all are supported and large enough; each extent holds its share and no other byte changes |
| `SuperImage.ImageComesBack` | partition_tools/lpadd.cc:295-355 | extracting readable extents that hold an image gives a file that begins with the image |
| `SuperImage.WriteAndExtract` | partition_tools/lpadd.cc:295-355 | writing a partition and extracting its extents gives a file that begins with the image, if and only if the writing succeeds and the extents can be extracted |
| `FscryptOptions.SplitJoin` | libfscrypt/fscrypt.cpp:182-210 | splitting undoes joining |
| `FscryptOptions.ParseOptionsForApiLevel` | libfscrypt/fscrypt.cpp:180-272 | the loop over the flags computes what the string stands for, which ParseMeans spells out |
| `FscryptOptions.ParseMeans` | libfscrypt/fscrypt.cpp:180-272 | which strings stand for options at an API level, and for which: modes, version, padding, direct key, method of IV generation and wrapped key |
| `FscryptOptions.LastVersion` | libfscrypt/fscrypt.cpp:205-215 | the last version flag decides the version |
| `FscryptOptions.CompletedFlags` | libfscrypt/fscrypt.cpp:229-269 | padding and key mode never hide or set one of the optimisation flags, and never both are set |
| `FscryptOptions.OptionsToStringForApiLevel` | libfscrypt/fscrypt.cpp:143-174 | prints the text of the options, and reports an error exactly where a mode has no name or the text does not parse back |
| `FscryptOptions.PrintedText` | libfscrypt/fscrypt.cpp:143-174 | the text printed: both modes by their first names, the version always, and the other flags that are set |
| `FscryptOptions.ParsedPrints` | libfscrypt/fscrypt.cpp:143-272 | for every API level, whatever was parsed is printed without either internal error, and the text parses to equal options |
| `FscryptOptions.PrintsIffParsed` | libfscrypt/fscrypt.cpp:143-272 | options can be printed if and only if some string stands for them |

## Left out
- RecordRing: the data notification pipe and its flag; only the ring's contents are modelled.
- KernelDrain.ReadThread.DrainPass: one pass; the outer loop, aux trace data and commands are not modelled.
- KernelRecords.Push: fields beyond the record's end and 64-bit overflow of positions in malformed records are not modelled; records are as perf promises them.
- SampleLayout: samples with a read group (PERF_SAMPLE_READ), which the parser makes no room for.
- ChainExtension.MayExtend: with a match count above 2 the source's loop tests the same two frames again; the model does the same and claims no more.
- VerityLayout.FindOffset: sizes at which the search does not end are excluded, since a method has to end; `NeverEnds` covers all of them.
- ChainJoiner.JoinOne: failing file operations, and what the source does with a chain whose size does not fit an int (TooLong).
- ThreadTable.HandOutThreads: the model stops at an entry with tid 0, where the source creates a thread and goes on; `ZeroBreaks` says what that does to an empty table.
- DrainedRing.DrainedIsLog: one pass after another with the ring going on is the same machine with more records; the record sizes have a common divisor of 2 or more.
- Replay: real malloc, timing, and native-heap statistics; blocks are named by the entry that allocated them.
- VerityTree.VerifyTree: runs that need correction end with NeedsCorrection, because corrected hashes are read again from the file; the file does not change during the walk; nothing is said of a run after a copy beyond the kept digests (Overrun).
- VerityRead: Reed-Solomon decoding is an arbitrary function of the file; reads without a hash tree, the error counter and failing thread creation are not modelled.
- VerityRead.FecHandle.Process: threads run one after another; no clause about returned bytes depends on what the file holds.
- JitReader: one list per process; the two lists are read by the same code independently. Reading symbol files, process discovery and the order of debug info are not modelled. An entry is read in one step: a change in between shows in the seqlock that is checked before a commit.
- UnwindMaps: how CreateMapInfo names a map and finds a library inside an apk, and the prev_real_map links that Sort adds.
- SuperImage: failing I/O other than reading past the end; metadata parsing and partition lookup.
- FscryptOptions: policies, keys and system properties.
- ETM decoding, event loops, f2fs and ext4 tools, and the many small tools of the repository are not part of this model.
