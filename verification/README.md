# Verified models of the engine's allocators, job queue and resource formats

This project models six parts of the engine and proves what each of them is for. The models take the
code's own form: objects that change their fields are classes, buffers are arrays, and each method is
proved against a specification whose own properties are then proved for every input, every run or every
interleaving.

- **Expandable heap** (`Alignment`, `HeapBlocks`, `HeapAccounting`, `ExpHeap`): the free-list allocator with
  first-fit and best-fit search, splitting, coalescing, trimming and child heaps, in 64-bit arithmetic with
  its wrap-around. The header takes 0x20 bytes, the granule and the least alignment are 4.
- **Dependency job queue** (`JobGraph`, `JobSafety`, `JobProgress`, `JobWaking`, `JobHolding`, `JobOutcomes`,
  `JobLeftOut`, `JobQueue`, `PriorityQueue`): any number of workers run a graph of jobs; each region under the
  queue lock and each interlocked operation is one step. The packed run word is a 32-bit number. Whether the
  decrement of a parent count and the masking of a run word answer with the old or the new value is a parameter
  of the step machine; the queue itself is proved with the new value, which is what its code is given. A worker
  takes a queued node of greatest priority; a theorem that some run exists holds for every way of breaking ties,
  unless it says otherwise. The array heap behind the queue is proved on its own.
- **Binary YAML endian swapper** (`ByamlLayout`, `ByamlProgress`, `ByamlFormat`, `ByamlFile`, `ByamlRoundTrip`,
  `ByamlCollision`): the in-place swap of a whole file over a shared graph of regions. A plan says which word
  each byte belongs to; a 32-bit integer is its four bytes, so swapping one is reversing them. `ByamlFormat` says
  the same over the type bytes and offsets of the format, without the plan.
- **Zstandard stream** (`ZstdStream`, `ZstdContext`): the buffer that reassembles blocks from chunks in front of
  a block decoder, which is any transition function that does not write past the room it is given.
- **Asynchronous tasks** (`TaskPool`, `TaskWatching`): the two-list task pool with its event, and the
  reference-counted watcher that decides when a task goes back to the pool.
- **Relocation and heap lookup** (`Relocation`, `HeapLookup`): the unrolled relocation loops, and the search for
  the heap that contains an address.

`dafny verify dfyconfig.toml` checks everything.

## Where the code falls short of its purpose

Each of these is modelled as written; where a theorem is named, it states exactly when the purpose is met or
gives the input on which it is not.

- `InterlockedDecrement` and `InterlockedAnd` answer with the value after the update
  (libraries/lib_vp/include/vp/util/util_atomicapi.hpp:179-182, 204-207), while the job queue compares their
  answers as if it were the value before
  (libraries/lib_awn_win32/source/async/async_dependencyjobqueue.cpp:56-59, 103-106). A node is therefore
  queued while one of its links is still pending, and never if it has only one
  (`JobOutcomes.QueuedByRelease`). `JobOutcomes.OrderKept` and `JobOutcomes.ExitReached` say for which graphs
  order holds and the exit is reached; by `JobOutcomes.ExitsTooSoon` no graph that is built both exits and is
  safe from exiting before a job has come to an end, whatever the priorities. Whether a job can be left out
  altogether does depend on priorities: `JobLeftOut.LeftOutExactly` and `JobLeftOut.AlwaysLeftOutExactly` say
  how. `JobOutcomes.OneJobNeverExits`, `JobOutcomes.TwoJobsExample` and `JobLeftOut.TwoJobsLeftOut` are the
  smallest inputs. The theorems of `JobProgress` that ask for the answer `Before` hold for a decrement that
  answers with the old value (`InterlockedFetchDecrement`), which is not the one the code calls.
- For the same reason a node that is forced out of the queue stays in it, and a worker that takes it again
  makes 65535 runs out of none: `JobOutcomes.QueueHonestExactly`, with `JobOutcomes.ForcedExample`. It needs the
  flag that a job is complete once, which is never copied from the job graph to the queue; the model lets it be
  anything.
- `IHeap::HasChildren` answers whether the child list is *empty*
  (libraries/lib_vp/include/vp/imem/imem_iheap.hpp:96). The lookup by address therefore trusts a cached heap
  exactly when it has children, and may answer with the parent of the right heap. `HeapLookup.RightUnlessMisled`
  gives the condition in both directions and `HeapLookup.MisledExample` an input. Without a current thread the
  lookup dereferences a null thread exactly when a root heap contains the address.
- The swapper caches a data region under its offset as stored, but the tables and the root under their real
  offsets (libraries/lib_vp/source/res/res_byamlendian.cpp:117-128, 344-411). In a file of native byte order a
  region at 0x100 is thus left unswapped if a table lies at 0x10000. `ByamlRoundTrip.FollowedUnlessBlocked`
  states exactly which references are followed, `ByamlCollision.CollisionExample` gives such a file,
  `ByamlRoundTrip.RestoredByPalindromes` says exactly which files two passes restore, and by
  `ByamlCollision.NotRestoredExample` this one is not restored.
- A leaf of a type the swapper does not know, the null type included, is overwritten with zero, so two passes
  restore a file exactly if every such leaf was zero: `ByamlRoundTrip.SwapThereAndBack`, with
  `ByamlCollision.ErasedExample`.
- Shrinking an allocation by less than a header next to no free block loses the tail for good:
  `ExpHeaps.AdjustKeepsTiling`, with `ExpHeaps.LostTailExample`.
- A child heap asked for with a size within one alignment of 2^64 is granted an empty block:
  `Alignments.WrappedRequest`, `ExpHeaps.CreatedIsNested` and `ExpHeaps.WrappedChildExample`. A child of the
  whole largest block fails unless that block's size is a multiple of the alignment:
  `ExpHeaps.WholeHeapCreated`, with `ExpHeaps.WholeHeapRefused`.
- A job with a run count of zero underflows to 65535 runs: `JobSafety.PackedMoveUnderflows`.
- The stream's declared size is read from the first chunk alone, so a first chunk without the whole frame header
  fails where a longer one would not: `ZstdStream.ChunkIndependenceFromBegin` says exactly when the chunks do
  not matter, and `ZstdStream.CutHeaderExample` gives a stream of which they do.
- A task's finish event is not cleared when the task is scheduled again, so a wait on a recycled task may end at
  once. `TaskWatching` lets a waiter go on at any time; what it proves does not depend on the wait.

## Model

| member | source | states |
|---|---|---|
| `ExpHeaps.AllocateFreeIdentity` | libraries/lib_awn_win32/source/mem/mem_expheap.cpp:400-532 | For every well-formed heap, size, alignment and search mode: freeing what a successful allocation returned gives back exactly the heap before it, the same free blocks with the same sizes in the same order and the same used blocks. |
| `ExpHeaps.RunTiled` | libraries/lib_awn_win32/source/mem/mem_expheap.cpp:20-544 | Over every run of allocations, frees, shrinks and trims no two blocks overlap and the free list stays strictly address-ordered with no two blocks adjacent; the arena is the disjoint union of free blocks and used extents (skipped bytes, header, payload) in all states up to any point if and only if no shrink before it dropped its tail. |
| `ExpHeaps.RunsAgree` | libraries/lib_awn_win32/source/mem/mem_expheap.cpp:20-544 | Two runs of calls that dropped no tail and end with the same bounds and the same live blocks end with the same free list, whatever was called on the way and in whatever order. |
| `HeapBlocks.FreeListIsCanonical` | libraries/lib_awn_win32/source/mem/mem_expheap.cpp:20-72 | The free list of a tiled heap is determined by its bounds and the multiset of its live blocks. |
| `HeapBlocks.CanonicalUnique` | libraries/lib_awn_win32/source/mem/mem_expheap.cpp:20-72 | An address-ordered free list without adjacent blocks is determined by the bytes it covers. |
| `HeapBlocks.EmptyHeapIsOneBlock` | libraries/lib_awn_win32/source/mem/mem_expheap.cpp:145-152 | With nothing allocated the free list is the single block that spans the arena, as at creation. |
| `ExpHeaps.CallTiled` | libraries/lib_awn_win32/source/mem/mem_expheap.cpp:20-544 | Each call keeps a heap well formed, and keeps a tiled heap tiled if and only if it is not a shrink that drops its tail. |
| `HeapBlocks.CarveThenRelease` | libraries/lib_awn_win32/source/mem/mem_expheap.cpp:74-133 | Releasing a block right after it was cut out of a free block gives back the very same heap. |
| `HeapAccounting.BytesConserved` | libraries/lib_awn_win32/source/mem/mem_expheap.cpp:534-544 | Free payload, one header per free block and the used extents add up to the arena, byte for byte. |
| `ExpHeaps.FitThreshold` | libraries/lib_awn_win32/source/mem/mem_expheap.cpp:558-576 | For a size of at least one byte some block fits exactly when the size is at most the reported maximum, at the same alignment. |
| `ExpHeaps.NeededSize` | libraries/lib_awn_win32/source/mem/mem_expheap.cpp:448-449 | The wrapping expression `(aligned_size - H) - block + address` equals skipped bytes plus size for every block and alignment: no wrap goes astray. |
| `ExpHeaps.AllocationFails` | libraries/lib_awn_win32/source/mem/mem_expheap.cpp:400-513 | A request gives null exactly when no free block fits the aligned size. |
| `ExpHeaps.AllocatedIsCarved` | libraries/lib_awn_win32/source/mem/mem_expheap.cpp:74-133 | A successful request cuts one used block out of the block that the search mode chooses; its address is aligned and not null, and it is larger than asked for by less than a header and a granule. |
| `ExpHeaps.AllocatedTiled` | libraries/lib_awn_win32/source/mem/mem_expheap.cpp:400-514 | Allocation keeps the heap well formed and tiled, and the new block is found by its address with at least the aligned size. |
| `ExpHeaps.ExactIsSmallest` | libraries/lib_awn_win32/source/mem/mem_expheap.cpp:479-480 | No block below the requested size fits, so stopping at an exact match never misses a smaller fitting block. |
| `ExpHeaps.ExpHeap.FindFirstFit` | libraries/lib_awn_win32/source/mem/mem_expheap.cpp:437-454 | The walk stops at the fitting block of lowest address, or at the end exactly when none fits. |
| `ExpHeaps.ExpHeap.FindBestFit` | libraries/lib_awn_win32/source/mem/mem_expheap.cpp:456-488 | The walk, early exit included, ends at a smallest fitting block, the first of them, or at the end exactly when none fits. |
| `ExpHeaps.ExpHeap.GetMaximumAllocatableSizeUnsafe` | libraries/lib_awn_win32/source/mem/mem_expheap.cpp:558-576 | The loop computes the largest payload left at the alignment, which `MaximumIsReached` shows to be the least upper bound. |
| `ExpHeaps.MaximumIsReached` | libraries/lib_awn_win32/source/mem/mem_expheap.cpp:558-576 | The maximum bounds what every block still offers, and some block reaches it unless it is zero. |
| `ExpHeaps.ExpHeap.GetTotalFreeSize` | libraries/lib_awn_win32/source/mem/mem_expheap.cpp:534-544 | The sum over the free list is the arena less one header per free block and less every used extent. |
| `ExpHeaps.ExpHeap.TryAllocate` | libraries/lib_awn_win32/source/mem/mem_expheap.cpp:400-514 | In the caller's own alignment, 4 if it is below: the address is a multiple of it. The answer is null, and nothing changes, exactly if no free block has room at such a multiple for a header and the bytes the request takes: the next multiple of the alignment, or for size zero the most that any block has room for. Else it is the lowest address with room in the first block with room, or with best fit in the smallest, whose rests stay free exactly if they hold a header and four bytes. |
| `ExpHeaps.AnswersAsAsked` | libraries/lib_awn_win32/source/mem/mem_expheap.cpp:400-514 | Whatever the allocation relation allows is that answer, for every size, search mode and alignment that the caller may pass, below the minimum included. |
| `ExpHeaps.RoomIsFits` | libraries/lib_awn_win32/source/mem/mem_expheap.cpp:445-452 | A block passes the test of the search exactly if it has room at some multiple of the alignment, and the address that the search computes is the lowest of these. |
| `ExpHeaps.MaximumIsMost` | libraries/lib_awn_win32/source/mem/mem_expheap.cpp:558-576 | The reported maximum is the most that any block has room for at a multiple of the alignment, and zero if none has room for a byte. |
| `ExpHeaps.CutIsTaken` | libraries/lib_awn_win32/source/mem/mem_expheap.cpp:74-133 | Of the block that an allocation is cut out of, the bytes in front of the header and the bytes behind the allocation each stay free exactly if they are 0x24 or more; otherwise they belong to the used block. |
| `ExpHeaps.GrantedAsAsked` | libraries/lib_awn_win32/source/mem/mem_expheap.cpp:157-195 | A child heap is granted exactly if it is asked for with 0xc4 bytes or more, zero standing for the most that the parent has room for, and an allocation of so many bytes at the caller's alignment is; it then starts 0xa0 bytes behind that address, as one free block over the rest of the bytes asked for. |
| `ExpHeaps.ExpHeap.TryCreate` | libraries/lib_awn_win32/source/mem/mem_expheap.cpp:157-195 | The parent changes as by an allocation of the asked size, or not at all for less than a minimal heap; the new heap's memory is a multiple of the caller's alignment, 4 if it is below, and lies in the parent as `CreatedIsNested` says. |
| `ExpHeaps.ExpHeap.AddUsedBlock` | libraries/lib_awn_win32/source/mem/mem_expheap.cpp:74-133 | Splits the block into front, used and back parts, keeping a part free exactly when it is 0x24 bytes or more, a header and a granule. |
| `ExpHeaps.ExpHeap.AddFreeBlock` | libraries/lib_awn_win32/source/mem/mem_expheap.cpp:20-72 | The range becomes free exactly when it fits a header or touches a free block; the list then covers exactly its old bytes and the range, and stays canonical; otherwise it is unchanged. |
| `ExpHeaps.ExpHeap.Free` | libraries/lib_awn_win32/source/mem/mem_expheap.cpp:516-532 | The block leaves the used list and its bytes, the skipped ones included, become free, whatever it touches. |
| `ExpHeaps.ExpHeap.AdjustAllocation` | libraries/lib_awn_win32/source/mem/mem_expheap.cpp:330-350 | Shrinks a block to the rounded size; the tail becomes free or is dropped as `AdjustKeepsTiling` says. |
| `ExpHeaps.AdjustKeepsTiling` | libraries/lib_awn_win32/source/mem/mem_expheap.cpp:55-59 | A shrink keeps the heap tiled if and only if the tail is empty, fits a header, or touches a free block; otherwise its bytes belong to nobody afterwards. |
| `ExpHeaps.LostTailExample` | libraries/lib_awn_win32/source/mem/mem_expheap.cpp:55-59 | Of two adjacent blocks of 0x20 bytes, shrinking the first to 0x10 loses the other 0x10. |
| `ExpHeaps.ExpHeap.AdjustHeap` | libraries/lib_awn_win32/source/mem/mem_expheap.cpp:199-234 | Cuts a free block off the end of the arena exactly when the last free block ends there, and shrinks the block in the parent by as much. |
| `ExpHeaps.TrimKeepsNesting` | libraries/lib_awn_win32/source/mem/mem_expheap.cpp:199-234 | After a trim the child still lies inside its parent's block and is tiled; the parent is tiled if and only if the tail is kept. |
| `ExpHeaps.TrimmedTailIsFree` | libraries/lib_awn_win32/source/mem/mem_expheap.cpp:199-234 | When the trimmed block has at least a granule of payload the parent stays tiled and the trimmed bytes, up to rounding to the granule, are free in it. |
| `ExpHeaps.CreatedIsNested` | libraries/lib_awn_win32/source/mem/mem_expheap.cpp:157-195 | A child heap that is granted is tiled, and lies inside its allocation, if and only if its size can be rounded up to the alignment without wrapping. |
| `ExpHeaps.WrappedChildExample` | libraries/lib_awn_win32/source/mem/mem_expheap.cpp:157-195 | A heap of 4096 bytes grants a child of 2^64 - 1 bytes, which does not lie inside its memory. |
| `ExpHeaps.WholeHeapCreated` | libraries/lib_awn_win32/source/mem/mem_expheap.cpp:164-176 | Asking for the whole of the largest block succeeds if and only if it holds a heap and its size is a multiple of the alignment. |
| `ExpHeaps.WholeHeapRefused` | libraries/lib_awn_win32/source/mem/mem_expheap.cpp:164-176 | A heap with a free block of 0x2fe2 bytes refuses a child of the whole of it. |
| `Alignments.WrappedRequest` | libraries/lib_vp/include/vp/util/util_alignment.hpp:29-32 | A size within one alignment of 2^64 rounds up to zero, so such a request is granted an empty block. |
| `Alignments.AlignUpIsMask` | libraries/lib_vp/include/vp/util/util_alignment.hpp:29-32 | Rounding up is the mask expression of the code, for every 64-bit value and every alignment: the sum with the alignment less one, and-ed bit by bit with the complement of the alignment less one. |
| `Alignments.RoundDownIsMod` | libraries/lib_vp/include/vp/util/util_alignment.hpp:29-32 | What the mask leaves is the value less its remainder, a multiple of the alignment. |
| `JobOutcomes.ExitsTooSoon` | libraries/lib_awn_win32/source/async/async_dependencyjobqueue.cpp:93-121 | For every graph whose jobs each have one link to the final node, which is every graph that is built, whatever the priorities: if any run sets the exit flag, then two or more workers, on any queue that hands out greatest priorities, have a run that sets it while one of the jobs is still under way or was never started; and only then. No graph both exits and is safe. |
| `JobQueue.BuiltGraphExitsTooSoon` | libraries/lib_awn_win32/source/async/async_dependencyjobqueue.cpp:93-345 | The same of every graph that is built from jobs, links and priorities, of which nothing is forced out. |
| `JobLeftOut.LeftOutExactly` | libraries/lib_awn_win32/source/async/async_dependencyjobqueue.cpp:220-248 | Some run, with ties broken in some way, exits without ever starting a job if and only if the final node can wake without the job, and all other nodes can be taken while the job sleeps or have at least its priority. |
| `JobLeftOut.AlwaysLeftOutExactly` | libraries/lib_awn_win32/source/async/async_dependencyjobqueue.cpp:220-248 | However ties are broken, some run exits without ever starting a job if and only if the final node can wake without the job, and all other nodes can be taken while the job sleeps or have a greater priority. |
| `JobLeftOut.TwoJobsLeftOut` | libraries/lib_awn_win32/source/async/async_dependencyjobqueue.cpp:220-248 | Of two jobs that do not wait for each other some run leaves the second out if and only if its priority is at most that of the first and 0x80, that of the final node; and however ties are broken, if and only if it is below both. |
| `JobOutcomes.OrderKept` | libraries/lib_awn_win32/source/async/async_dependencyjobqueue.cpp:93-109 | Jobs run only after their parents have released them, over all interleavings of any number of workers, if and only if no dependent can wake while one of its parents has not released it; and for any two or more workers and any queue that hands out greatest priorities this is exact too. |
| `JobOutcomes.ExitReached` | libraries/lib_awn_win32/source/async/async_dependencyjobqueue.cpp:71-121 | Some run sets the exit flag if and only if the final node can wake, and so it is for any number of workers and any queue that hands out greatest priorities. |
| `JobOutcomes.NeverStuckExactly` | libraries/lib_awn_win32/source/async/async_dependencyjobqueue.cpp:71-121 | Every reachable state without the exit flag has a next step if and only if the final node can wake, and so it is for any number of workers and any queue that hands out greatest priorities. |
| `JobOutcomes.QueuedByRelease` | libraries/lib_awn_win32/source/async/async_dependencyjobqueue.cpp:99-107 | A release queues a node exactly when its pending links fall from two or more to at most one, that is with one link still pending unless several links come from the same parent; a node with a single link is never queued. |
| `JobOutcomes.SingleLinkNeverStarts` | libraries/lib_awn_win32/source/async/async_dependencyjobqueue.cpp:99-107 | In every state of every run a node with exactly one link is not queued and has not been started. |
| `JobOutcomes.OneJobNeverExits` | libraries/lib_awn_win32/source/async/async_dependencyjobqueue.cpp:71-121 | No run of a single job ever sets the exit flag. |
| `JobOutcomes.TwoJobsWake` | libraries/lib_awn_win32/source/async/async_dependencyjobqueue.cpp:99-107 | Of two jobs without links between them, whatever their priorities, the first makes the final node ready while the second is still pending. |
| `JobOutcomes.TwoJobsExample` | libraries/lib_awn_win32/source/async/async_dependencyjobqueue.cpp:93-121 | Two jobs without links between them, whatever their priorities: two workers have a run that exits while one of the jobs is not done. |
| `JobOutcomes.ForceKeepsQueue` | libraries/lib_awn_win32/source/async/async_dependencyjobqueue.cpp:50-69 | Forcing a node out leaves it in the queue: every queued node has a run left afterwards if and only if the node had none to lose. |
| `JobOutcomes.QueueHonestExactly` | libraries/lib_awn_win32/source/async/async_dependencyjobqueue.cpp:50-69 | In every state of every run each queued node has a run left, if and only if no job that is complete after one run, and may run more than once, can wake; and for any two or more workers and any queue that hands out greatest priorities this is exact too. |
| `JobOutcomes.TakenFromNothing` | libraries/lib_awn_win32/source/async/async_dependencyjobqueue.cpp:229-230 | Taking a queued node without runs makes 65535 runs of none and leaves it in the queue. |
| `JobOutcomes.ForcedExample` | libraries/lib_awn_win32/source/async/async_dependencyjobqueue.cpp:50-69 | A single job with two runs, complete after one, is queued with no run left after its first run. |
| `JobWaking.RunsOnlyWoken` | libraries/lib_awn_win32/source/async/async_dependencyjobqueue.cpp:93-140 | Every node that was started is one that the jobs which have released their dependents can wake. |
| `JobHolding.Hold` | libraries/lib_awn_win32/source/async/async_dependencyjobqueue.cpp:220-402 | Whatever node of greatest priority the queue hands out, and before the exit flag is set: some run keeps the first run of each of the given nodes under way, with a worker for each, and carries on until the flag is set, a job comes back that has to be forced, or nothing is queued. |
| `JobHolding.WokenIsDone` | libraries/lib_awn_win32/source/async/async_dependencyjobqueue.cpp:93-140 | When nothing is queued in such a run, every job that wakes without the held ones has released its dependents. |
| `JobProgress.QueuedExactlyWhenAwake` | libraries/lib_awn_win32/source/async/async_dependencyjobqueue.cpp:93-140 | In every reachable state a node is in the queue, once, if and only if it is awake and has runs left, for either answer of the decrement. |
| `JobProgress.RunIsBounded` | libraries/lib_awn_win32/source/async/async_dependencyjobqueue.cpp:362-402 | Every run in which nothing is forced out is finite, for either answer of the decrement: it has no more steps than the measure of its first state. |
| `JobProgress.WorkFalls` | libraries/lib_awn_win32/source/async/async_dependencyjobqueue.cpp:229-230 | Twice the remaining runs plus the active runs falls by exactly one with every acquire and every finish, and no other node's word changes. |
| `JobSafety.RunInv` | libraries/lib_awn_win32/source/async/async_dependencyjobqueue.cpp:50-140 | Every state of every run in which nothing is forced out satisfies the invariant that ties packed words, parent counts, queue and workers together, for either answer of the decrement. |
| `JobSafety.StepInv` | libraries/lib_awn_win32/source/async/async_dependencyjobqueue.cpp:50-140 | Every atomic region keeps that invariant, a force that is told the new value excepted. |
| `JobSafety.PackedMove` | libraries/lib_awn_win32/include/awn/async/async_dependencyjobqueue.hpp:34-40 | Adding 0xffff to a word with runs left moves one unit between the halves, whatever they hold: no carry goes astray. |
| `JobSafety.PackedMoveUnderflows` | libraries/lib_awn_win32/include/awn/async/async_dependencyjobqueue.hpp:34-40 | With no run left the same addition borrows and leaves 0xffff runs, so a run count has to be at least one. |
| `JobSafety.PackedDrop` | libraries/lib_awn_win32/source/async/async_dependencyjobqueue.cpp:130-134 | Subtracting 0x10000 takes one active run off, and the word is zero afterwards exactly for the finisher that saw 0x10000. |
| `JobSafety.ReleaseCounts` | libraries/lib_awn_win32/source/async/async_dependencyjobqueue.cpp:93-109 | Releasing takes the node's links off every parent count and queues exactly those nodes whose count passes the value that the answer of the decrement is compared with. |
| `JobProgress.ParentsFirst` | libraries/lib_vp/include/vp/util/util_atomicapi.hpp:192-194 | For a decrement that answers with the old value, as `InterlockedFetchDecrement` does, not for the one the code calls: whenever a job runs, every registered parent has finished all its runs, over all interleavings. |
| `JobProgress.ExitAfterAll` | libraries/lib_vp/include/vp/util/util_atomicapi.hpp:192-194 | For a decrement that answers with the old value, as `InterlockedFetchDecrement` does, not for the one the code calls: when the exit flag is set every job has finished, each job that is not complete-once exactly as often as asked, and exactly one worker of each saw itself as the last. |
| `JobProgress.QueuedExactlyWhenReady` | libraries/lib_vp/include/vp/util/util_atomicapi.hpp:192-194 | For a decrement that answers with the old value, as `InterlockedFetchDecrement` does, not for the one the code calls: a node is in the queue, once, if and only if all its parents have released it and it has runs left, also after a force. |
| `JobProgress.NeverStuck` | libraries/lib_vp/include/vp/util/util_atomicapi.hpp:192-194 | For a decrement that answers with the old value, as `InterlockedFetchDecrement` does, not for the one the code calls: for an acyclic graph, until the exit flag is set some job is queued or some worker is busy. |
| `JobProgress.NoDeadlock` | libraries/lib_vp/include/vp/util/util_atomicapi.hpp:192-194 | For a decrement that answers with the old value, as `InterlockedFetchDecrement` does, not for the one the code calls: for an acyclic graph every reachable state without the exit flag has a next step. |
| `JobQueue.DependencyJobQueue.constructor` | libraries/lib_awn_win32/include/awn/async/async_dependencyjobqueue.hpp:44-51 | Fresh nodes have one run, no parents and normal priority, the final node included. |
| `JobQueue.DependencyJobQueue.BuildJobGraph` | libraries/lib_awn_win32/source/async/async_dependencyjobqueue.cpp:304-345 | The nodes afterwards hold the run counts and priorities, and the final node one run at 0x80. Each job has as many parents as links were registered to it, and the final node one for each job; each job lists a dependent once for each link to it, and the final node once, which lists nobody. |
| `JobQueue.LinksAsAsked` | libraries/lib_awn_win32/source/async/async_dependencyjobqueue.cpp:304-345 | Memory that agrees with the links of a built graph has these counts and lists, whatever jobs and links were asked for. |
| `JobQueue.DependencyJobQueue.RegisterDependency` | libraries/lib_awn_win32/source/async/async_dependencyjobqueue.cpp:34-48 | Adds one parent to the dependent and the dependent to the end of the parent's list. |
| `JobQueue.DependencyJobQueue.SetupRun` | libraries/lib_awn_win32/source/async/async_dependencyjobqueue.cpp:347-360 | Queues each job without parents once, and nothing else. |
| `JobQueue.DependencyJobQueue.PrepareRun` | libraries/lib_awn_win32/source/async/async_dependencyjobqueue.cpp:304-360 | Building any good job graph and setting it up reaches the start state of a run of that graph; a job is then queued, once, exactly if no link was registered to it, and the final node is not. |
| `JobQueue.DependencyJobQueue.ScheduleNextJob` | libraries/lib_awn_win32/source/async/async_dependencyjobqueue.cpp:220-241 | Fails exactly on an empty queue; else takes a node of greatest priority, moves one run to the active half, and dequeues it with its last run. |
| `JobQueue.DependencyJobQueue.ForceRemoveForCompleteOnce` | libraries/lib_awn_win32/source/async/async_dependencyjobqueue.cpp:50-69 | Clears the remaining runs and tests the word that it leaves, which has none: the node always stays in the queue. |
| `JobQueue.DependencyJobQueue.DecrementActive` | libraries/lib_awn_win32/source/async/async_dependencyjobqueue.cpp:130-134 | Takes one active run off and tells the finisher whether the word it saw was exactly 0x10000. |
| `JobQueue.DependencyJobQueue.RemoveDependencies` | libraries/lib_awn_win32/source/async/async_dependencyjobqueue.cpp:93-109 | Takes one parent off each dependent and queues those that have one left. |
| `JobQueue.DependencyJobQueue.FinishRemoval` | libraries/lib_awn_win32/source/async/async_dependencyjobqueue.cpp:111-121 | Clears the node, and sets the exit flag for the final node only. |
| `JobQueue.BuiltGraphGood` | libraries/lib_awn_win32/source/async/async_dependencyjobqueue.cpp:304-345 | The graph of any job list whose links name jobs, with counts from 1 up, is one that all theorems about runs apply to; each job keeps its count, priority and flag and has exactly one link to the final node. |
| `PriorityQueues.FrontIsGreatest` | libraries/lib_vp/include/vp/util/util_priorityqueue.hpp:163-165 | In an ordered queue no node has a greater priority than the one in front, which is what the job queue relies on. |
| `PriorityQueues.PriorityQueue.Insert` | libraries/lib_vp/include/vp/util/util_priorityqueue.hpp:145-161 | Keeps the order and adds the node to the contents. |
| `PriorityQueues.PriorityQueue.RemoveFront` | libraries/lib_vp/include/vp/util/util_priorityqueue.hpp:167-186 | Keeps the order, takes exactly the front node out, and that node has a greatest priority. |
| `PriorityQueues.PriorityQueue.Remove` | libraries/lib_vp/include/vp/util/util_priorityqueue.hpp:195-214 | Keeps the order and takes exactly the given node out of the contents, wherever it stands. |
| `PriorityQueues.PriorityQueue.InsertFixup` | libraries/lib_vp/include/vp/util/util_priorityqueue.hpp:29-63 | Moves a node up in place: the contents stay; if it moved the whole queue is ordered, else only its children may be out of order. |
| `PriorityQueues.PriorityQueue.RemoveFixup` | libraries/lib_vp/include/vp/util/util_priorityqueue.hpp:65-111 | Moves a node down in place: the contents stay and the queue is ordered. |
| `PriorityQueues.PriorityQueue.Peek` | libraries/lib_vp/include/vp/util/util_priorityqueue.hpp:163-165 | The front node has a greatest priority of all contents. |
| `PriorityQueues.PriorityQueue.FindIterTo` | libraries/lib_vp/include/vp/util/util_priorityqueue.hpp:187-193 | Finds the first place of a node, or none exactly if the node is not queued. |
| `ByamlRoundTrip.SwapThereAndBack` | libraries/lib_vp/source/res/res_byamlendian.cpp:413-441 | Swapping any well-formed file to the other byte order and back, from either byte order, restores every byte if and only if every value whose type is not known was zero, if no reference is mistaken for a table or the root. |
| `ByamlRoundTrip.RestoredByPalindromes` | libraries/lib_vp/source/res/res_byamlendian.cpp:413-441 | Whatever references are blocked in either pass, if words of the two passes that share a byte have the same extent: two passes restore a file if and only if every word that only one of them swaps reads the same in both byte orders and every value that is erased was zero. |
| `ByamlRoundTrip.SwapTwice` | libraries/lib_vp/source/res/res_byamlendian.cpp:413-441 | Swapping any well-formed file twice in place restores it exactly under that condition, and without the one on extents exactly if the mirrors of each byte in the two passes agree. |
| `ByamlRoundTrip.RestoredExactly` | libraries/lib_vp/source/res/res_byamlendian.cpp:413-441 | The condition on mirrors, of the two plans of the passes. |
| `ByamlCollision.NotRestoredExample` | libraries/lib_vp/source/res/res_byamlendian.cpp:117-128 | The way back reverses the length that the way there left out, so two passes over the file of `CollisionExample` do not restore it. |
| `ByamlFiles.ByamlFile.SwapByamlEndian` | libraries/lib_vp/source/res/res_byamlendian.cpp:413-441 | In place, each word of the header, the tables, the root and every data region that the root leads to is swapped exactly once, however many references lead to the region, and no other byte changes. Said over type bytes and offsets alone, with the order told by the first byte: every word that the format has is reversed, every value of unknown type is erased, and each byte that changes belongs to one of them. |
| `ByamlFormat.PassChangesOrder` | libraries/lib_vp/source/res/res_byamlendian.cpp:64-411 | For every well-formed file: the pass reverses exactly the words that the format has by its type bytes, in the header, the tables, the chains of containers that the root leads to and what their entries refer to, and erases exactly the values of other type bytes. |
| `ByamlFormat.WordBackwards` | libraries/lib_vp/source/res/res_byamlendian.cpp:215-276 | A value of type 0xa0 or 0xd0 to 0xd3, a reference, a key, a remap index, a count, an offset of a table, and each number kept elsewhere is reversed where the format has it. |
| `ByamlFormat.ValueErased` | libraries/lib_vp/source/res/res_byamlendian.cpp:130-134 | A value is zero afterwards if its type byte is none of 0x20 to 0x3f, 0xa0 to 0xa2, 0xc0, 0xc1, 0xc4, 0xc8 and 0xd0 to 0xd6. |
| `ByamlFormat.CellKnown` | libraries/lib_vp/source/res/res_byamlendian.cpp:136-202 | The pass touches no other word: whatever a plan has is a word of the format, or a value of unknown type that it erases. |
| `ByamlFormat.EntryPlaces` | libraries/lib_vp/source/res/res_byamlendian.cpp:204-276 | Where the keys of 3, 4 or 8 bytes, values, type bytes and remap indices of the container types 0x20, 0x21, 0x30, 0x31, 0xc0, 0xc1, 0xc4 and 0xc8 lie, in the plan as in the format; of all other containers only the head is known. |
| `ByamlFormat.AllMet` | libraries/lib_vp/source/res/res_byamlendian.cpp:282-342 | The plan of a well-formed file has no region but those that a chain of containers from the root leads to. |
| `ByamlRoundTrip.FlippedWellFormed` | libraries/lib_vp/source/res/res_byamlendian.cpp:413-441 | The swapped file is well-formed in the other byte order, with the same regions, words and references. |
| `ByamlRoundTrip.MirroredTwice` | libraries/lib_vp/source/res/res_byamlendian.cpp:413-441 | Swapping the swapped file gives every byte back if and only if every value whose type is not known was zero. |
| `ByamlCollision.ErasedExample` | libraries/lib_vp/source/res/res_byamlendian.cpp:130-134 | A well-formed file whose root holds one value of a type that is not known, such as null, is not restored by two passes. |
| `ByamlRoundTrip.SameNumber32` | libraries/lib_vp/include/vp/res/res_byaml.hpp:257-261 | Each 32-bit field stands for the same number before and after, each file read in its own byte order. |
| `ByamlRoundTrip.SameNumber24` | libraries/lib_vp/include/vp/res/res_byaml.hpp:104-113 | The same for 24-bit counts and key indices. |
| `ByamlRoundTrip.SameRegion` | libraries/lib_vp/source/res/res_byamlendian.cpp:282-342 | Every region of the swapped file lies where it lay, with the same form and count. |
| `ByamlRoundTrip.FollowedUnlessBlocked` | libraries/lib_vp/source/res/res_byamlendian.cpp:117-128 | A reference from the root or from a region that is reached is followed if and only if its cache key is not the offset of a table or the root. |
| `ByamlCollision.CollisionExample` | libraries/lib_vp/source/res/res_byamlendian.cpp:117-128 | A well-formed native file of 64 KiB whose root at 0x10000 refers to binary data at 0x100: the reference is blocked and the length stays in the old byte order. |
| `ByamlProgress.BlockedIsNeverMet` | libraries/lib_vp/source/res/res_byamlendian.cpp:117-128 | A region whose cache key collides with a table or root offset is left unswapped by the whole pass, whoever refers to it. |
| `ByamlProgress.EverythingMet` | libraries/lib_vp/source/res/res_byamlendian.cpp:344-361 | Once the root is done, every region that it leads to has been swapped. |
| `ByamlProgress.EntryDone` | libraries/lib_vp/source/res/res_byamlendian.cpp:215-234 | An entry of a container is done once its key, what its value refers to, its value and its remap index are, in that order, each word once. |
| `ByamlFiles.ByamlFile.SwapEndianData` | libraries/lib_vp/source/res/res_byamlendian.cpp:64-134 | A data word is swapped if its type byte is one of 0x20 to 0x3f, 0xa0 to 0xa2, 0xc0, 0xc1, 0xc4, 0xc8 and 0xd0 to 0xd6, and else zero; the region it refers to is swapped exactly when its key is new, and the recursion ends because fewer regions are left each time. |
| `ByamlFiles.ByamlFile.SwapEndianForBigData` | libraries/lib_vp/source/res/res_byamlendian.cpp:136-202 | Reverses every word of the region at the offset that the cache key stands for, by the kind of the reference. |
| `ByamlFiles.ByamlFile.SwapEndianDataContainer` | libraries/lib_vp/source/res/res_byamlendian.cpp:282-342 | Reverses the head and then all entries of a container, and everything they lead to that was not yet cached. |
| `ByamlFiles.ByamlFile.SwapEndianHashArray` | libraries/lib_vp/source/res/res_byamlendian.cpp:204-238 | The loop over a hash array, keys of one or two words, with or without remap indices. |
| `ByamlFiles.ByamlFile.SwapEndianDictionary` | libraries/lib_vp/source/res/res_byamlendian.cpp:239-261 | The loop over a dictionary, with or without remap indices. |
| `ByamlFiles.ByamlFile.SwapEndianArray` | libraries/lib_vp/source/res/res_byamlendian.cpp:263-280 | The loop over an array with a type byte for each element or one for all. |
| `ByamlFiles.ByamlFile.SwapTableEndian` | libraries/lib_vp/source/res/res_byamlendian.cpp:363-411 | A key or string table has its head and its offsets reversed, one more than it has strings, unless it is absent, cached, or no table. |
| `ByamlFiles.ByamlFile.SwapRootContainerEndian` | libraries/lib_vp/source/res/res_byamlendian.cpp:344-361 | The root is worked through unless it is absent, cached, or no container. |
| `ByamlFiles.ByamlFile.OrderKnown` | libraries/lib_vp/include/vp/res/res_byaml.hpp:184-187 | Once the magic has been reversed, it reads as reversed exactly if the file was in native byte order. |
| `ZstdStream.ChunkIndependence` | libraries/lib_vp/source/codec/codec_zstd.cpp:94-179 | For every decoder and every way of cutting a stream into chunks, feeding it chunk by chunk makes the same decoder calls, writes the same output and keeps the same rest as one call with the whole, errors and the end of the frame included. |
| `ZstdStream.ChunkIndependenceFromBegin` | libraries/lib_vp/source/codec/codec_zstd.cpp:80-92 | From the first call on, feeding chunk by chunk leaves the context as one call does if and only if the first chunk reads as a frame header like the whole stream, or neither reading can be used. |
| `ZstdStream.CutHeaderExample` | libraries/lib_vp/source/codec/codec_zstd.cpp:80-92 | A header of two bytes cut after the first: the stream ends in an error that one call decodes. |
| `ZstdContext.ZstdStreamContext.StreamDecompress` | libraries/lib_vp/source/codec/codec_zstd.cpp:74-180 | One call with the leftover buffer leaves the context as decoding leftover plus chunk at once would, which `FirstCall` and `CallTraced` say in terms of decoder calls; the answer tells error, end of frame or the size still expected; the leftover is shorter than the next block, which fits the buffer. |
| `ZstdStream.StreamTraced` | libraries/lib_vp/source/codec/codec_zstd.cpp:80-179 | However a stream is cut, and whatever state the decoder was left in: from the state it begins in, the decoder is given block after block of the stream, each of the length it wants in its state and with the room that is left, its output following what was written before. An error means that the last block failed, the end that data is left where the decoder wants none. |
| `ZstdStream.CallTraced` | libraries/lib_vp/source/codec/codec_zstd.cpp:94-179 | The same of one call in the midst of a stream: it ends in an error exactly if the last block fails, or if what is left is the start of a block longer than the leftover buffer; finished exactly if data is left where the decoder wants none; else it keeps all that is left. |
| `ZstdStream.FirstCall` | libraries/lib_vp/source/codec/codec_zstd.cpp:80-92 | A first call whose header cannot be read, or declares more than the output holds, only becomes an error; one whose decoder does not begin only keeps the declared size; any other does not depend on the state the decoder was in. |
| `ZstdStream.FeedSplit` | libraries/lib_vp/source/codec/codec_zstd.cpp:106-177 | Feeding data in two parts is feeding it at once, with what was left of the first part in front of the second. |
| `ZstdStream.BytesConserved` | libraries/lib_vp/source/codec/codec_zstd.cpp:106-177 | Every byte is given to the decoder once and in order, up to the rest that is kept back. |
| `ZstdStream.FedReady` | libraries/lib_vp/source/codec/codec_zstd.cpp:106-177 | After every call without an error a non-empty leftover is shorter than the decoder's next block and fits its buffer. |
| `ZstdStream.FedAccounts` | libraries/lib_vp/source/codec/codec_zstd.cpp:80-92 | Output written plus size expected stays the declared size of the frame, modulo 2^64. |
| `ZstdStream.ExpectedIsExact` | libraries/lib_vp/source/codec/codec_zstd.cpp:137-140 | While no more is written than was declared, the expected size is exact. |
| `ZstdStream.FinishedStays` | libraries/lib_vp/source/codec/codec_zstd.cpp:109-113 | After the end of the frame further chunks change nothing. |
| `ZstdContext.ZstdStreamContext.FromLeftover` | libraries/lib_vp/source/codec/codec_zstd.cpp:162-176 | The completed block is given to the decoder and nothing is left over: the copy that would move a tail to the front is never needed. |
| `ZstdContext.ZstdStreamContext.Complete` | libraries/lib_vp/source/codec/codec_zstd.cpp:145-157 | Appends to the leftover as much of the chunk as the block still lacks, and no more. |
| `TaskPool.RunInv` | libraries/lib_awn_win32/include/awn/async/async_asynctaskallocator.hpp:43-106 | Over all interleavings each task is in exactly one place, the acquire list, the free list or handed out, and the event is signalled if and only if the free list has something in it. |
| `TaskPool.RunIsFifo` | libraries/lib_awn_win32/include/awn/async/async_asynctaskallocator.hpp:43-106 | The two lists with their swap behave as one plain queue: tasks are handed out in the order in which they came back. |
| `TaskPool.NoTimedWait` | libraries/lib_awn_win32/include/awn/async/async_asynctaskallocator.hpp:43-66 | Every listed task is marked as free, so the search stops at the head of the list and the timed wait is never reached. |
| `TaskPool.NoLostWakeup` | libraries/lib_awn_win32/include/awn/async/async_asynctaskallocator.hpp:68-92 | A waiting thread can go on if and only if some task is not handed out. |
| `TaskPool.HolderCanStep` | libraries/lib_awn_win32/include/awn/async/async_asynctaskallocator.hpp:68-92 | A thread that holds the acquire lock always has a step to make unless every task is handed out, so acquiring never ends with null. |
| `TaskPool.AsyncTaskAllocator.AcquireTaskImpl` | libraries/lib_awn_win32/include/awn/async/async_asynctaskallocator.hpp:43-66 | Takes the first task that is marked as free off the list and unmarks it, or tells an empty list from one with only busy tasks. |
| `TaskPool.AsyncTaskAllocator.SwapLists` | libraries/lib_awn_win32/include/awn/async/async_asynctaskallocator.hpp:82-87 | The freed tasks become the ones to acquire from, and the event is cleared. |
| `TaskPool.AsyncTaskAllocator.FreeTask` | libraries/lib_awn_win32/include/awn/async/async_asynctaskallocator.hpp:94-106 | The task goes to the end of the free list, marked as free, and the event is signalled. |
| `TaskPool.AsyncTaskAllocator.constructor` | libraries/lib_awn_win32/include/awn/async/async_asynctaskallocator.hpp:111-134 | All tasks start on the acquire list, marked as free, with the event clear. |
| `TaskWatching.ReturnedSafely` | libraries/lib_awn_win32/source/async/async_asynctaskwatcher.cpp:20-71 | Over all interleavings of completion, cancellation and any number of waiters a task goes back at most once, only when the watcher's state is terminal, and never while a thread that found the task there holds its reference. |
| `TaskWatching.ReturnedAtOnce` | libraries/lib_awn_win32/source/async/async_asynctaskwatcher.cpp:25-33 | It goes back in the very step after which it has ended and nobody holds a reference, if and only if that is so: it is neither kept nor lost. |
| `TaskWatching.EndIsTold` | libraries/lib_awn_win32/include/awn/async/async_asynctaskforallocator.hpp:51-60 | The watcher is pending until the task ends; from then on it is complete if the task ended by running, and cancelled if it was cancelled in the queue. |
| `TaskWatching.RunInv` | libraries/lib_awn_win32/source/async/async_asynctaskforallocator.cpp:20-77 | Every reachable state satisfies the invariant: the count is the number of holders plus one until the task ends, and watcher and task let go of each other together. |
| `TaskWatching.AsyncTaskWatcher.ReleaseReference` | libraries/lib_awn_win32/source/async/async_asynctaskwatcher.cpp:25-33 | With the last reference the watcher lets go of its task, which goes back to its pool by one free step if the state is terminal. |
| `TaskWatching.AsyncTaskForAllocator.FreeToAllocator` | libraries/lib_awn_win32/source/async/async_asynctaskforallocator.cpp:41-60 | The task lets go of its watcher and goes back exactly if the watcher is complete or cancelled. |
| `TaskWatching.AsyncTaskForAllocator.ReleaseWatcher` | libraries/lib_awn_win32/source/async/async_asynctaskforallocator.cpp:62-77 | Leaves the watcher in the given state and releases a reference, or without a watcher puts the task back at once. |
| `TaskWatching.AsyncTaskForAllocator.SetWatcher` | libraries/lib_awn_win32/source/async/async_asynctaskforallocator.cpp:20-38 | Binds task and watcher with one reference and a pending state, unless the task has a watcher. |
| `Relocation.RelocatedOnce` | libraries/lib_vp/source/res/res_nintendowarerelocationtable.cpp:24-110 | Over the bytes of a file whose listed slots overlap neither each other nor the mark: a listed slot that holds zero keeps it, any other gains the file's address, or if its section has a base pointer that pointer less the region offset, once and modulo 2^64; the mark is set, and every other byte that changes belongs to a listed slot. |
| `Relocation.TableDisjoint` | libraries/lib_vp/source/res/res_nintendowarerelocationtable.cpp:38-104 | If no two listed slots overlap then the loops visit no slot twice. |
| `Relocation.RelocationTable.Relocate` | libraries/lib_vp/source/res/res_nintendowarerelocationtable.cpp:24-110 | The nested loops visit exactly the slots of the table in order, set the mark in the file header, also with no section, and leave the bytes of the table as they were. |
| `Relocation.RelocationTable.SetRelocated` | libraries/lib_vp/include/vp/res/res_nintendowarefileheader.hpp:75-75 | Sets the lowest bit of the field at 0x14 of the header and changes nothing else. |
| `Relocation.RelocationTable.RelocateArray` | libraries/lib_vp/source/res/res_nintendowarerelocationtable.cpp:60-98 | Four at a time and then one at a time, exactly the `relocation_count` slots of an array are visited, each once. |
| `Relocation.RelocationTable.RelocateFours` | libraries/lib_vp/source/res/res_nintendowarerelocationtable.cpp:60-88 | The unrolled part visits all slots but the last `relocation_count % 4`. |
| `Relocation.ListedWhenVisited` | libraries/lib_vp/source/res/res_nintendowarerelocationtable.cpp:38-104 | Every slot visited is slot `k` of array `a` of an entry of a section, at the closed-form offset, with the base of that section. |
| `Relocation.VisitedWhenListed` | libraries/lib_vp/source/res/res_nintendowarerelocationtable.cpp:38-104 | Every slot that the table lists is visited, with the base of its section. |
| `Relocation.AppliedPointwise` | libraries/lib_vp/source/res/res_nintendowarerelocationtable.cpp:92-96 | Visiting slots that do not overlap one after the other is changing each of them once. |
| `Relocation.PutGet` | libraries/lib_vp/source/res/res_nintendowarerelocationtable.cpp:92-96 | A word written over the eight bytes of a slot is read back from it, and leaves every word apart from it as it was. |
| `Relocation.TableStays` | libraries/lib_vp/source/res/res_nintendowarerelocationtable.cpp:38-52 | If no slot reaches into the table, the table reads the same all the way through the loops. |
| `Relocation.ArrayStartIs` | libraries/lib_vp/source/res/res_nintendowarerelocationtable.cpp:101-101 | Stepping by count and stride gives the closed form of an array's start. |
| `HeapLookup.RightUnlessMisled` | libraries/lib_awn_win32/source/mem/mem_heapmanager.win32.cpp:93-192 | Whatever live heaps the thread's two slots hold, the lookup answers with the innermost live heap that contains the address if and only if no slot heap that has children is taken at its word although a child contains the address. |
| `HeapLookup.MisledExample` | libraries/lib_vp/include/vp/imem/imem_iheap.hpp:96-96 | A root with one child: with the root in the lookup slot the answer is the root, with empty slots it is the child. |
| `HeapLookup.FindIsInnermost` | libraries/lib_vp/include/vp/imem/imem_iheap.hpp:66-81 | The search downwards from a heap finds exactly the innermost heap of its tree for the address. |
| `HeapLookup.RootsRight` | libraries/lib_awn_win32/source/mem/mem_heapmanager.win32.cpp:142-190 | The search through the root heaps finds the innermost live heap, or none exactly when there is none of the manager's kind. |
| `HeapLookup.InnermostUnique` | libraries/lib_vp/include/vp/imem/imem_iheap.hpp:66-81 | Two innermost live heaps for one address are the same heap, so the answer is determined. |
| `HeapLookup.AnswerIsLive` | libraries/lib_awn_win32/source/mem/mem_heapmanager.win32.cpp:93-192 | What a call leaves in the lookup slot is a live heap again. |
| `HeapLookup.FindHeapFromAddress` | libraries/lib_awn_win32/source/mem/mem_heapmanager.win32.cpp:93-192 | The call answers as the lookup function says and remembers the heap in the thread exactly if it found one; without a thread it faults exactly when there is an answer. |
| `HeapLookup.SearchDown` | libraries/lib_vp/include/vp/imem/imem_iheap.hpp:66-81 | The walk over the child lists computes the downward search. |
| `HeapLookup.FindHeapByNameImpl` | libraries/lib_awn_win32/source/mem/mem_heapmanager.win32.cpp:194-211 | The recursive search answers null exactly if no heap of the manager's kind has the name, at any depth below heaps of that kind; else with the first such heap, parents before children and in the order of the child lists. |
| `HeapLookup.PreorderFinds` | libraries/lib_awn_win32/source/mem/mem_heapmanager.win32.cpp:194-211 | The first heap of the preorder with a name is the heap at the earliest path through child lists that reaches one, and there is none exactly if no path does. |

## Left out

- `ResizeHeapBack` and the growth branch of `AdjustAllocation`: the first takes the last allocated block for a free one (libraries/lib_awn_win32/source/mem/mem_expheap.cpp:251) and the second tests the size the wrong way round (line 369).
- Intrusive list links of the heap, the job queue and the task pool: list positions stand for them, so aliasing of links is not modelled.
- The out-of-memory callback is taken to answer false, and the default of the current thread's heap is a given parent.
- The thread-safety lock of a heap: the heap's methods are modelled one at a time.
- Allocation magic, heap names and the heap manager's registration: they carry no arithmetic or order.
- Pinned cores, local job rings, blocking and waking of workers: the jobs are any-core jobs; an already set next job is overwritten there before it is returned.
- JobQueue.DependencyJobQueue.ScheduleNextJob: the branch that pins a node to another core, and answers that the worker should go on, is not modelled.
- Reuse of a job queue for a second graph: parent counts are not reset, so the model is of a single run from fresh nodes.
- The job of the final node, which does nothing, and the bodies of jobs: they only start and finish.
- Job nodes as separate objects: their fields are parallel sequences of the queue, indexed by node.
- The order of equal priorities among queued jobs: the step machine hands out any node of greatest priority, as `PriorityQueues` shows of the front node, and does not follow the places of nodes in the array.
- JobLeftOut.LeftOutExactly: says when some number of workers leaves a job out, not which number; workers and nodes are counted in 16 bits, so the graph has fewer than 65535 nodes.
- JobOutcomes.OrderKept: that some run breaks order is stated for two or more workers; what a single worker runs out of order depends on priorities.
- JobOutcomes.ExitsTooSoon: stated for two or more workers, as one has to be running the job that the others leave behind.
- JobOutcomes.QueueHonestExactly: that some run breaks the queue is stated for two or more workers.
- The thread manager of the job queue and the deferred links of the job graph: the first sets a flag that makes workers leave at once, the second does not resolve what it should.
- Reading BYAML files, their validation and string lookup: only the swap is modelled.
- ByamlFiles.ByamlFile.SwapByamlEndian: files with overlapping regions, references to the root or tables as data, or offsets outside the file are not covered, because the original reads and writes whatever lies there.
- ByamlRoundTrip.SwapThereAndBack: asks that no reference is blocked in either byte order; `ByamlRoundTrip.RestoredByPalindromes` is the theorem without that condition.
- The allocation of cache nodes from a heap and the tree that holds them: the cache is a set.
- ZstdStream.ChunkIndependence: asks for a leftover buffer that holds any block the decoder may ask for; `Fed` and `ZstdContext.ZstdStreamContext.StreamDecompress` state what a smaller buffer does, an error at the chunk that ends inside too long a block.
- The block decoder itself, its dictionaries, and calls after an error, which the loader does not make.
- The double buffering thread of the decompressor and file reading.
- The queue of tasks with its priorities, its threads and its completion events: a task is queued, running or ended.
- TaskWatching.AsyncTaskForAllocator.SetWatcher: a watcher is shared with waiting threads only after the task has been scheduled with it; reference counts stay below 2^32.
- The timed wait of the task pool and pushes that fail: a failed push frees the task by the same step.
- `Unrelocate`: it works on the address of a slot in place of its contents, so it does not undo relocation.
- Relocation.RelocatedOnce: slots that overlap each other or the table are not covered, because the loops then read what they have just written.
- Relocation.RelocationTable.Relocate: the sections and entries are read from the table once, which is the same as long as no slot reaches into it; entry indices are taken not to wrap at 2^32.
- Heaps that override the address test, and the split of the root heaps into main and graphics ones: one list of roots in search order stands for both.
- Changes of the heap tree during a lookup: the tree is a value.
