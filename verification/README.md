# MeOS kernel cores

A Dafny model of the memory managers, the scheduler and the small concurrent structures of the MeOS
kernel, with proofs of the global invariants that the C++ code relies on and never writes down.
`dafny verify dfyconfig.toml` checks all of it.

Each core is modelled twice and the two are tied together. A *specification* module has the state as a
value and every operation as a function of it, with branches, error returns and constants as in the
source; the lemmas about whole runs are stated there. A *state* module has the classes, arrays, linked
nodes and loops of the source, and each method's `ensures` equates the new state with the specification's
operation on the old one. Runs are sequences of operations (or, for the pipe and the ring queue, of single
semaphore operations, loads and stores by two threads), and the run theorems quantify over all of them.

| part | specification | state | runs and main results |
|---|---|---|---|
| heap | HeapSpec, HeapBytes | Heap | HeapFirstFit, HeapRuns |
| scheduler, semaphores | SchedulerSpec, SleepWake, ListSpec | DlList, SchedulerQueues, Scheduler | SchedulerSafety, SchedulerEffects, SchedulerRuns, SleepRuns |
| memory contract | VmArea, VmContractSpec | OrderedVector, VmContract | VmContractSpec |
| frames and paging | PageEntry, PagingSpec | FrameBitmap, Paging | PagingSafety, PagingRuns, PagingFlags |
| pipe | PipeSpec, PipeSemaphores | Pipe | PipeRuns |
| ring queue | Spsc, Ring | Spsc | Spsc |
| FAT chain deletion | FatSpec | Fat | FatSpec |
| page cache over paging | PageCacheSpec, PageCacheFrames | PageCache, SList | PageCacheSpec, PageCacheFrames |

What callers must do, as far as the code itself demands it, is a predicate named `Legal` next to each run
theorem: an idle thread that never blocks, no blocking inside a critical section, notification only of
threads in the block queue, live heap addresses, aligned areas, areas to remove that start inside the guards,
expansions that do not wrap out of the area, wake-ups when the expired sleepers stand first, page flags with the
present bit and without frame bits, bases below 0xF0000000, addresses reserved earlier.

Some promises are false of the code. They are kept as they are and their exact conditions proved:

- a thread that blocks, sleeps or waits inside a critical section stays current although it is queued
  (`SchedulerRuns.SuspendNeedsSwitch`, `SchedulerRuns.WaitNeedsSwitch`); the comment at MeOS/process.h:52
  about the running thread's place is also not what the code does;
- the wake-up loop unlinks the sleeper before the expired one once it has passed a sleeper that goes on
  sleeping, so it is sound exactly when the expired sleepers stand first (`SleepWake.WakeExact`,
  `SleepWake.WrongNode`);
- `vm_contract_init` accepts bounds less than two pages apart (`VmContractSpec.InitExact`); removal takes a
  guard when handed an area with the high guard's start, and for a removable area that does not start above
  the low guard its search finds that guard or leaves the array (`RemoveExact`, `RemoveBelowLow`); expansion
  wraps 32 bits (`ExpandExact`), and needs its bounds checked after all for areas that are not the contract's own
  (`ExpandCopyExact`);
- `vmmngr_free_page` frees the frame of a page that is not present (`PagingRuns.FreeKeepsOwned`,
  `PagingRuns.DoubleFreeBreaks`), and a run from a new address space gets there (`PagingRuns.DoubleFreeRun`);
- a pipe of size 0 deadlocks, and so does one whose size is negative as the int32 that `semaphore_init`
  takes (`PipeRuns.DeadlockFreeIff`, `PipeRuns.BadSizeDeadlocks`);
- the FAT walk takes a failed buffer reservation for a link to cluster 1: it may go round there
  (`FatSpec.NoBufferLoops`), or report success with part of the file's chain left (`FatSpec.NoBufferStrays`,
  `FatSpec.NoBufferCutsChain`). When it deletes the chain, and when its success means that it did, are
  `FatSpec.DeletesChainIff` and `FatSpec.SuccessDeletesIff`;
- the same walk checks no bound: at a number that is neither a cluster nor an end mark, a bad-cluster mark say, it
  rewrites a word outside the table. With working I/O it does so exactly when the links lead there
  (`FatSpec.WalkSucceedsIff`), and whatever the I/O does it can exactly when they lead there from the file or from
  cluster 1 (`FatSpec.LeavesIff`, `FatSpec.NoBufferLeaves`);
- the page cache lists a page twice when it is reserved twice (`PageCacheSpec.ReserveKeepsIff`), and releases
  whatever buffer an address names, freeing the page of a free buffer a second time
  (`PageCacheFrames.ReleaseAnonymousKeepsIff`).

## Model

| member | source | states |
|---|---|---|
| HeapSpec.AllocTiles | MeOS/mmngr_heap.cpp:73-115 | an allocation, with its merging and splitting, leaves a chain that tiles the same region exactly, every payload positive |
| HeapSpec.FreeTiles | MeOS/mmngr_heap.cpp:117-140 | so does a free with its one-step front merge |
| HeapSpec.DefragTiles | MeOS/mmngr_heap.cpp:203-227 | so does defragmentation |
| HeapSpec.TilesOrdered | MeOS/mmngr_heap.cpp:7-12 | in a tiled chain any two blocks are disjoint, in chain order |
| HeapSpec.AllocLive | MeOS/mmngr_heap.cpp:73-115 | the live blocks after an allocation are those before, and one new one when it succeeds |
| HeapSpec.FreeLive | MeOS/mmngr_heap.cpp:117-140 | a free takes exactly the freed block out of the live ones |
| HeapSpec.FreeEffect | MeOS/mmngr_heap.cpp:117-140 | the freed block is unused where it stood and takes in its successor, header included, exactly when that one is unused; no other block changes |
| HeapSpec.DefragLive | MeOS/mmngr_heap.cpp:203-227 | defragmentation changes no live block |
| HeapFirstFit.AllocIsFirstFit | MeOS/mmngr_heap.cpp:47-115 | a request succeeds exactly when some maximal run of unused blocks, inner headers reclaimed, is large enough, and gets the first block of the lowest such run |
| HeapFirstFit.AllocIsPick | MeOS/mmngr_heap.cpp:73-115 | the payload returned is the one a plain first-fit scan of the fully merged chain would return |
| HeapFirstFit.FailedAllocMergesOnly | MeOS/mmngr_heap.cpp:73-115 | a failed allocation has done nothing but merge: each block left is a block from before or an unbroken run of unused ones from before, headers included |
| HeapFirstFit.FailedAllocDefrags | MeOS/mmngr_heap.cpp:73-115 | so defragmenting after it gives what defragmenting instead of it would have given |
| HeapFirstFit.DefragOnlyMerges | MeOS/mmngr_heap.cpp:203-227 | defragmentation, too, does nothing but merge |
| HeapFirstFit.MergingIsInvisible | MeOS/mmngr_heap.cpp:203-227 | defragmenting, or a failed allocation before, never changes whether or where the next allocation succeeds |
| HeapFirstFit.DefragSeparates | MeOS/mmngr_heap.cpp:203-227 | after defragmentation no two adjacent blocks are unused |
| HeapRuns.ApplyTiles | MeOS/mmngr_heap.cpp:73-227 | every heap operation keeps the tiling |
| HeapRuns.ApplyKeepsLive | MeOS/mmngr_heap.cpp:73-227 | every heap operation keeps every live block that it does not itself release |
| HeapRuns.ReallocLive | MeOS/mmngr_heap.cpp:142-201 | realloc swaps the old block for a new one that is large enough, or on failure leaves the live blocks as they were |
| HeapRuns.ReallocGets | MeOS/mmngr_heap.cpp:142-201 | realloc stays where it was for the same size, returns null for none, and otherwise ends up where an allocation of the new size would, never in place |
| HeapRuns.ApplyFlags | MeOS/mmngr_heap.cpp:73-227 | no operation changes the flags that a block carries |
| HeapRuns.FreshPayload | MeOS/mmngr_heap.cpp:73-115 | an allocation never returns an address that is live |
| HeapRuns.RunKeepsPayload | MeOS/mmngr_heap.cpp:73-227 | over every run of alloc, free, realloc, defrag and stores by owners, the chain tiles the region and a payload that its owner neither releases nor writes keeps its place and all its bytes |
| HeapBytes.U32RoundTrip | MeOS/mmngr_heap.cpp:32-43 | a 32-bit header field read back from its bytes is what was written |
| HeapBytes.EncodesMerge | MeOS/mmngr_heap.cpp:20-24 | rewriting one next field in the bytes is the merge of two blocks, and touches no payload of another |
| HeapAllocator.Heap.Create | MeOS/mmngr_heap.cpp:62-71 | heap_create lays out one unused block over the whole region behind the master header |
| HeapAllocator.Heap.Alloc | MeOS/mmngr_heap.cpp:73-115 | on the byte array heap_alloc does what the specification says, returns null for 0 bytes or no fit, and keeps the bytes of every live payload; current_blocks stays the chain length |
| HeapAllocator.Heap.FrontMergeSizeFit | MeOS/mmngr_heap.cpp:47-58 | the merging loop merges just enough and reports whether the block now fits |
| HeapAllocator.Heap.Free | MeOS/mmngr_heap.cpp:117-140 | heap_free on bytes is the specification's free; a null address and one without the magic before it are errors that change nothing |
| HeapAllocator.Heap.Realloc | MeOS/mmngr_heap.cpp:142-201 | heap_realloc carries over the first min(old, new) bytes, leaves block and bytes intact when it fails, and refuses null and addresses without the magic |
| HeapAllocator.Heap.Defrag | MeOS/mmngr_heap.cpp:203-227 | heap_defrag on bytes is the specification's, and counts the merges |
| SchedulerSafety.MovesKeepsQueues | MeOS/thread_sched.cpp:13-15 | moving one node between two queues, with the thread's state changed to match, keeps every thread in exactly one queue that fits its state and priority |
| SchedulerSafety.SwitchKeeps | MeOS/thread_sched.cpp:179-212 | a switch fails exactly when no level has a thread; otherwise exactly one thread runs, is current, heads its queue and has the best ready priority |
| SchedulerSafety.StepKeeps | MeOS/thread_sched.cpp:179-425 | each operation keeps the invariant and the idle thread ready, and panics exactly on suspending a suspended thread |
| SchedulerSafety.SuspendRunning | MeOS/thread_sched.cpp:323-343 | removing the front of the queue while queueing the argument is right, because the running thread is the front |
| SchedulerSafety.HandOffKeeps | MeOS/semaphore.cpp:47-62 | handing the unit to the first waiter keeps the invariant |
| SchedulerSafety.BootedOk | MeOS/thread_sched.cpp:151-158 | the state after initialisation and the idle thread's insertion satisfies it |
| SchedulerEffects.SwitchEffect | MeOS/thread_sched.cpp:179-212 | a preempted thread goes to the back of its level as ready, one that has left its level is left alone, and the first thread of the best level runs; no other thread or queue changes |
| SchedulerEffects.TickEffect | MeOS/thread_sched.cpp:179-212 | so a tick or a yield outside a critical section rotates the current thread's level and runs the head of the best one; inside a critical section nothing changes |
| SchedulerEffects.StartEffect | MeOS/thread_sched.cpp:214-223 | the thread that starts is the first of the best level, and no queue changes |
| SchedulerEffects.InsertEffect | MeOS/thread_sched.cpp:225-232 | an inserted thread is ready, at the back of its level and nowhere else |
| SchedulerEffects.SuspendEffect | MeOS/thread_sched.cpp:293-409 | blocking and sleeping are refused exactly for a thread that is blocked or asleep; otherwise the thread alone changes state and queue, and only a running one gives up the processor |
| SchedulerEffects.BlockEffect | MeOS/thread_sched.cpp:293-347 | a blocked thread is in state BLOCK, at the back of the block queue and in no ready queue; if it was running, another thread runs, the first of the best level |
| SchedulerEffects.SleepEffect | MeOS/thread_sched.cpp:349-409 | the same of a thread put to sleep and the sleep queue |
| SchedulerEffects.NotifyEffect | MeOS/thread_sched.cpp:411-425 | a notified blocked thread leaves the block queue and is ready at the back of its level, and no other thread or queue changes; any other thread is left alone |
| SchedulerEffects.WaitEffect | MeOS/semaphore.cpp:11-27 | with units left a wait takes one and does nothing else; without, the running thread waits at the back and another one runs |
| SchedulerEffects.SignalEffect | MeOS/semaphore.cpp:47-62 | a signal makes the first waiter ready, at the back of its level, with the count unchanged; without waiters it adds a unit and does nothing else |
| SchedulerEffects.InitEffect | MeOS/semaphore.cpp:5-9 | a new semaphore has its count and no waiters, and nothing else changes |
| SchedulerEffects.CriticalEffect | MeOS/thread_sched.cpp:179-183 | between entering and leaving a critical section a tick changes nothing, and leaving brings back the threads, queues and counts |
| SchedulerRuns.RunKeepsInvariant | MeOS/thread_sched.cpp:179-425 | over every run of insert, tick, yield, block, sleep, notify, wait and signal each thread is in exactly one fitting queue and exactly one runs |
| SchedulerRuns.NoSwitchPanic | MeOS/thread_sched.cpp:196-207 | from boot on, neither panic of the switch is reachable in any run |
| SchedulerRuns.SuspendNeedsSwitch | MeOS/thread_sched.cpp:179-183 | blocking or sleeping keeps the invariant exactly when no critical section is entered |
| SchedulerRuns.WaitNeedsSwitch | MeOS/semaphore.cpp:11-27 | waiting for a semaphore without units keeps it exactly when no critical section is entered |
| SchedulerRuns.RunsWithinPosition | MeOS/thread_sched.cpp:179-212 | a thread at position k of the best ready level sees at most k switches before it runs, whatever joins or leaves its queue |
| SchedulerRuns.SemaphoreAccounting | MeOS/semaphore.cpp:5-62 | from any int32 value on, lock equals that value plus signals minus passed waits, never falls below both it and 0, is not positive while anyone waits, and waiters pass in order of arrival |
| SchedulerRuns.CountsIff | MeOS/semaphore.cpp:5-62 | lock is never negative, and zero while anyone waits, over a run exactly when it starts from 0 or more |
| SchedulerRuns.OwedWait | MeOS/semaphore.cpp:11-27 | a wait at a negative lock blocks and leaves the lock negative |
| SleepWake.WakesExpired | MeOS/thread_sched.cpp:48-79 | when the expired sleepers stand first a pass wakes exactly them, each to the back of its level in the order they slept, counts the others down and keeps the invariant |
| SleepWake.WakeExact | MeOS/thread_sched.cpp:48-79 | a pass unlinks only sleepers and leaves the invariant standing exactly when no expired sleeper stands behind one that is not |
| SleepWake.WrongNode | MeOS/thread_sched.cpp:63-70 | of two sleepers only the second expired: the first one's node is queued as ready, the second one's stays asleep |
| SleepRuns.RunSound | MeOS/thread_sched.cpp:81-102 | over every run of scheduler operations and such passes each thread is in exactly one fitting queue |
| SleepRuns.SleepsExactly | MeOS/thread_sched.cpp:48-79 | a sleeper sleeps on as long as the passes have counted no more than its sleep_time, and the pass that takes the count beyond it makes it ready |
| SleepRuns.RunsWithinPosition | MeOS/thread_sched.cpp:48-212 | the bound on switches also holds in runs with passes |
| SchedulerQueues.NewQueues | MeOS/thread_sched.cpp:151-158 | the initial lists are all there, well formed, empty and each its own |
| SchedulerQueues.Move | MeOS/thread_sched.cpp:318-319 | unlinking a thread's node from one queue and linking it behind another takes exactly that thread from the one to the other; all lists stay well formed and share no node |
| SchedulerQueues.MoveFirst | MeOS/thread_sched.cpp:329-330 | unlinking the front of one queue while linking the argument's node behind another does the same, the argument being that front |
| SchedulerQueues.Rotate | MeOS/thread_sched.cpp:186-194 | a level's head goes to its tail and no other list changes |
| SchedulerQueues.Append | MeOS/thread_sched.cpp:225-232 | a new node joins one queue at the back, belonging to no other |
| SchedulerState.Scheduler.constructor | MeOS/thread_sched.cpp:151-158 | init_thread_scheduler: no threads, no current one, all lists empty |
| SchedulerState.FirstInserted | MeOS/thread_sched.cpp:225-232 | inserting the idle thread there gives the state every run starts from |
| SchedulerState.Scheduler.GetFirstNonEmpty | MeOS/thread_sched.cpp:139-147 | the loop over the levels, by their list counts, finds the first non-empty one |
| SchedulerState.Scheduler.GetCurrentNode | MeOS/thread_sched.cpp:160-167 | the search for the current thread's node succeeds and ends at the head of its queue |
| SchedulerState.Scheduler.ThreadSwitch | MeOS/thread_sched.cpp:179-212 | the switch on the linked levels, rotation and both panics included, is the specification's |
| SchedulerState.Scheduler.Start | MeOS/thread_sched.cpp:214-223 | scheduler_start on the linked levels |
| SchedulerState.Scheduler.ThreadInsert | MeOS/thread_sched.cpp:225-232 | thread_insert links a new node at the level of the thread's priority and returns it |
| SchedulerState.Scheduler.ThreadBlock | MeOS/thread_sched.cpp:293-347 | thread_block on a thread's node: a ready thread's node is unlinked where it stands, the running thread's is the front that is unlinked; both end in the block list, as SchedulerEffects.BlockEffect spells out |
| SchedulerState.Scheduler.ThreadSleep | MeOS/thread_sched.cpp:349-409 | thread_sleep, likewise, storing the sleep time unless the call is refused |
| SchedulerState.Scheduler.DecreaseSleepTime | MeOS/thread_sched.cpp:48-79 | the loop on the linked sleep queue is the specification's pass, wrong moves included; sound afterwards exactly when the expired sleepers stood first |
| SchedulerState.Scheduler.ThreadNotify | MeOS/thread_sched.cpp:411-425 | thread_notify unlinks the node from the block list and makes the thread ready, as SchedulerEffects.NotifyEffect spells out |
| SchedulerState.Scheduler.SemaphoreInit | MeOS/semaphore.cpp:5-9 | a new semaphore has its lock, any int32, and a waiting list of its own |
| SchedulerState.Scheduler.SemaphoreWait | MeOS/semaphore.cpp:11-27 | semaphore_wait finds the current node and moves it to the waiting list, or takes a unit |
| SchedulerState.Scheduler.SemaphoreSignal | MeOS/semaphore.cpp:47-62 | semaphore_signal moves the head of the waiting list to its ready level, or adds a unit |
| DlList.List.FindNode | MeOS/dl_list.h:35-46 | the first node carrying the item, or null when none does |
| DlList.List.RemoveNode | MeOS/dl_list.h:48-82 | deletion from the sequence, all next, prev, head, tail and count links consistent |
| DlList.List.RemoveFrontNode | MeOS/dl_list.h:84-112 | removal of the first element; the panic inside is never reached |
| DlList.List.InsertBackNode | MeOS/dl_list.h:114-132 | append |
| DlList.List.HeadToTail | MeOS/dl_list.h:134-162 | rotation by one, the two-node case included |
| DlList.MoveNode | MeOS/semaphore.cpp:19-20 | removing a node from one list and appending it to another keeps both lists well formed and without a common node |
| DlList.MoveFront | MeOS/semaphore.cpp:54-56 | the same for the front of a list |
| VmArea.CreateAligned | MeOS/vm_area.cpp:16-52 | a created area is aligned, and usable exactly when its bounds and flags were good; then it has them as given, and otherwise holds no address |
| VmArea.IntersectsMeans | MeOS/vm_area.cpp:65-78 | the end comparison is true exactly when the two page extents share an address |
| VmContractSpec.InitExact | MeOS/vm_contract.cpp:4-36 | init succeeds exactly on aligned ordered bounds, leaves the two guards at them, and gives a sound contract exactly when they are two pages apart |
| VmContractSpec.AddKeeps | MeOS/vm_contract.cpp:38-104 | adding keeps the contract sorted, disjoint, in bounds and guarded, and adds exactly that area when accepted |
| VmContractSpec.AddAccepts | MeOS/vm_contract.cpp:38-104 | an area is accepted exactly when it is usable, lies within the bounds and meets no stored area; a refused one changes nothing |
| VmContractSpec.RemoveExact | MeOS/vm_contract.cpp:106-122 | a removal stays in the array and keeps the contract exactly when the argument, if removable, starts above the low guard and not at the high one; stored areas always do |
| VmContractSpec.RemoveEffect | MeOS/vm_contract.cpp:106-122 | a removal takes out the area with the given start and leaves every other; it answers by whether the area is removable and such a one is stored |
| VmContractSpec.RemoveBelowLow | MeOS/ordered_vector.h:96-114 | a proper removable area that starts below a sound contract makes the search leave the array |
| VmContractSpec.ExpandKeeps | MeOS/vm_contract.cpp:124-176 | checking one neighbour is enough: an expansion that does not wrap is accepted exactly when the grown area meets no other, and keeps the contract |
| VmContractSpec.ExpandExact | MeOS/vm_contract.cpp:147-175 | with wrapping, the contract survives exactly without a wrap, or when the wrapped bound falls inside the old area, or when the new end is exactly 0 and refused |
| VmContractSpec.ExpandEffect | MeOS/vm_contract.cpp:124-176 | an accepted expansion moves the one bound of the area that grows, by the length in 32-bit arithmetic; its other fields and every other area stay, and a refused one changes nothing |
| VmContractSpec.ExpandCopyExact | MeOS/vm_contract.cpp:124-161 | expanding an area that is not stored keeps to the array exactly when it starts in the contract and not at the guard that lies in the direction of growth; copies of stored areas always do |
| VmContractSpec.ExpandCopyAnswers | MeOS/vm_contract.cpp:124-176 | an area that is not stored is not found when none starts where it does, and is otherwise refused exactly when, grown, it meets the neighbour in that direction; for a copy of a stored area the answer is that area's |
| VmContractSpec.RunKeepsContract | MeOS/vm_contract.cpp:38-176 | over every run of add, remove and expand, with any area to remove or length that is safe, the contract stays sorted, disjoint, in bounds, with both guards in place |
| VmContractSpec.ScanExact | MeOS/vm_contract.cpp:178-212 | a linear scan finds the unique area holding an address, and nothing exactly when there is none |
| VmContractSpec.FindExact | MeOS/vm_contract.cpp:178-212 | vm_contract_find_area gives the area that holds the address whenever one does, the binary search having missed its start or not, and none exactly when no area does |
| VmContractSpec.GapExact | MeOS/vm_contract.cpp:214-234 | the answer is the lowest address where the length fits between areas, and 0 exactly when it fits nowhere |
| VmContractSpec.GapCanBeAdded | MeOS/vm_contract.cpp:214-234 | an area of that length created there is always accepted |
| VmContract.NeighboursDecide | MeOS/vm_contract.cpp:90-103 | testing the two neighbours decides whether an area meets any area at all |
| VmContract.CountBound | MeOS/vm_contract.cpp:62-82 | a contract has too few areas for the index sum of the search to wrap |
| VmContract.VmContract.constructor | MeOS/vm_contract.cpp:4-36 | init on the vector, for all bounds it accepts, sound exactly when they are two pages apart |
| VmContract.VmContract.AddArea | MeOS/vm_contract.cpp:38-104 | the search in unsigned arithmetic never leaves the array, never reaches the last-guard panic, and accepts exactly the in-range areas that meet none |
| VmContract.VmContract.RemoveArea | MeOS/vm_contract.cpp:106-122 | removal in place for every area, reporting when the search leaves the array; the contract is sound afterwards exactly in the safe cases |
| VmContract.VmContract.ExpandArea | MeOS/vm_contract.cpp:124-176 | expansion of a stored area in place for every length, wrapping ones included; the contract is sound afterwards exactly in the safe cases |
| VmContract.VmContract.ExpandCopy | MeOS/vm_contract.cpp:124-176 | expansion of any area outside the contract: not found, overlap, or the caller's area grows and the contract stays |
| VmContract.VmContract.FindArea | MeOS/vm_contract.cpp:178-212 | the binary search and the look at its neighbours end inside the array with the stored area that holds the address, or with none exactly when no area does |
| VmContract.VmContract.GetAreaForLength | MeOS/vm_contract.cpp:214-234 | the loop over neighbours in 32-bit arithmetic gives the specification's gap |
| OrderedVector.BinarySearch | MeOS/vm_contract.cpp:62-82 | the unsigned search runs out of the array exactly when it is empty or the target is below the first start; otherwise it hits, or stops at the last smaller start |
| OrderedVector.Vector.Insert | MeOS/ordered_vector.h:57-76 | insertion by shifting, with doubling, is insertion into the sorted sequence |
| OrderedVector.Vector.Remove | MeOS/ordered_vector.h:78-94 | removal by shifting, refused exactly past the end |
| OrderedVector.Vector.Find | MeOS/ordered_vector.h:96-114 | finds the element with that start, or -1 when there is none; leaves the array exactly when there is nothing at or below it |
| FrameBitmap.BitOps | MeOS/mmngr_phys.cpp:16-29 | setting or clearing a bit of a word changes that bit and no other |
| FrameBitmap.LowestClearBit | MeOS/mmngr_phys.cpp:36-46 | shifting a one up a word that is not full finds its lowest clear bit |
| FrameBitmap.PhysicalMemory.FirstFree | MeOS/mmngr_phys.cpp:31-51 | the word-by-word search finds the lowest clear frame of the whole bitmap, or 0 |
| FrameBitmap.PhysicalMemory.constructor | MeOS/mmngr_phys.cpp:132-141 | at first every frame is used |
| FrameBitmap.PhysicalMemory.AllocBlock | MeOS/mmngr_phys.cpp:197-216 | allocation takes the specification's frame and keeps the count of used frames exact |
| FrameBitmap.PhysicalMemory.FreeBlock | MeOS/mmngr_phys.cpp:218-228 | freeing removes exactly that frame, counted once however often |
| FrameBitmap.PhysicalMemory.FreeRegion | MeOS/mmngr_phys.cpp:143-171 | what is freed is the unbroken run of used frames at the start, then frame 0 is set; empty regions are refused |
| FrameBitmap.PhysicalMemory.ReserveRegion | MeOS/mmngr_phys.cpp:173-195 | what is reserved is the unbroken run of clear frames at the start |
| FrameBitmap.AllocFrameExact | MeOS/mmngr_phys.cpp:197-216 | never frame 0 or a used frame, always the lowest clear one, and none exactly when every frame is used or frame 0 is clear |
| FrameBitmap.RegionExact | MeOS/mmngr_phys.cpp:143-195 | a region changes as a whole exactly when all of it began in the opposite state |
| FrameBitmap.HeldUntilFreed | MeOS/mmngr_phys.cpp:143-228 | over every run a used frame stays used and is handed to nobody until an operation frees it |
| PageEntry.NumberOfAddr | MeOS/mmngr_virtual.h:25-27 | the two index fields of a frame's address give back the frame number |
| PageEntry.NumberIsFrame | MeOS/mmngr_virtual.h:25-27 | two addresses have equal indices exactly when they agree on the frame bits |
| PageEntry.OffsetStays | MeOS/mmngr_virtual.cpp:436-439 | adding the in-page offset never carries into the frame, and the sum has that offset |
| PageEntry.Word32Page | MeOS/mmngr_virtual.h:25-27 | the page number of a word is its value divided by 4096 |
| PageEntry.MappedEntry | MeOS/vmmngr_pte.cpp:5-23 | setting flags and frame leaves a present entry with exactly the given frame, whatever was in it |
| PageEntry.TableEntry | MeOS/vmmngr_pde.cpp:5-23 | the same for a directory entry, in create_table's order |
| PageEntry.FreedEntry | MeOS/vmmngr_pte.cpp:10-13 | clearing present and writable leaves the frame in the entry |
| PagingSafety.AddTable | MeOS/mmngr_virtual.cpp:468-490 | a new table takes a clear frame, is empty, is entered under one index, and changes no other entry |
| PagingSafety.MapOutcome | MeOS/mmngr_virtual.cpp:206-234 | mapping succeeds exactly when the table exists or a frame is left for one; otherwise nothing changes |
| PagingRuns.MapRefinesFlat | MeOS/mmngr_virtual.cpp:206-234 | after a mapping the address leads to the given frame plus offset, and every address on another page leads where it led, even when a table was created |
| PagingRuns.FreeRefinesFlat | MeOS/mmngr_virtual.cpp:304-321 | freeing takes away one page's presence and nobody else's, and gives back exactly the frame that the entry holds |
| PagingRuns.AllocOutcome | MeOS/mmngr_virtual.cpp:274-302 | allocation succeeds exactly when the page is there, or a frame is left and, without a table, one more; a failure may keep one frame marked but changes no entry |
| PagingRuns.FreshAlloc | MeOS/mmngr_virtual.cpp:274-302 | a new page leads to the lowest clear frame plus the offset, and every address on another page leads where it led |
| PagingRuns.DeviceAlloc | MeOS/mmngr_virtual.cpp:274-302 | a device page that is not there is mapped to itself; no frame is taken but one for a missing table, whose lack alone makes it fail, and every other address leads where it led |
| PagingRuns.PresentAlloc | MeOS/mmngr_virtual.cpp:274-302 | allocating a page that is there, device page or not, succeeds and changes no translation and no frame |
| PagingRuns.AllocKeepsOwned | MeOS/mmngr_virtual.cpp:274-302 | allocation, out-of-memory failures included, keeps every present page on a used frame of its own that is no table |
| PagingRuns.FreeKeepsOwned | MeOS/mmngr_virtual.cpp:304-321 | freeing keeps that exactly when the page is present, has no table, or its stale frame is in nobody's use |
| PagingRuns.DoubleFreeBreaks | MeOS/mmngr_virtual.cpp:304-321 | a second free of a page frees the frame another page got in between |
| PagingRuns.FreshPageIsDoubleFreeable | MeOS/mmngr_virtual.cpp:304-321 | every page just allocated, with an unmapped page under the same table, is in that position |
| PagingRuns.DoubleFreeRun | MeOS/mmngr_virtual.cpp:274-321 | from a new address space: allocate a, free a, allocate b, all legal and sound; freeing a again then frees b's frame |
| PagingRuns.StoreIsolated | MeOS/mmngr_virtual.cpp:425-466 | a store through a present page changes no translation and no word of any other present page |
| PagingRuns.StoreThenLoad | MeOS/mmngr_virtual.cpp:425-466 | a load through any present page gives what was last stored in its word, other words being as they were |
| PagingSpec.SameWord | MeOS/mmngr_virtual.cpp:425-440 | two addresses name the same word exactly when they are on the same page at the same place of it |
| PagingRuns.NewSpaceOwned | MeOS/mmngr_virtual.cpp:492-502 | a new address space is owned and maps nothing |
| PagingRuns.RunKeepsOwned | MeOS/mmngr_virtual.cpp:274-321 | over every run of page allocations, frees and stores from an empty directory, pages have distinct used frames and none is a table |
| PagingFlags.MapFlags | MeOS/mmngr_virtual.cpp:206-234 | mapping adds the flags to those in the entry and clears none, a stale entry's included |
| PagingFlags.NewTableFlags | MeOS/mmngr_virtual.cpp:468-490 | a table's own flags are those of the first mapping under it |
| PagingFlags.FreeFlags | MeOS/mmngr_virtual.cpp:304-321 | freeing clears the present and the writable bit and no other |
| Paging.CreateAddressSpace | MeOS/mmngr_virtual.cpp:492-502 | null exactly when no frame can be had, changing nothing; otherwise an owned space on the frame taken, with no page mapped |
| Paging.AddressSpace.constructor | MeOS/mmngr_virtual.cpp:500-500 | clearing the directory's frame in memory |
| Paging.AddressSpace.IsPagePresent | MeOS/mmngr_virtual.cpp:451-466 | the walk through memory reports presence |
| Paging.AddressSpace.GetPhysAddr | MeOS/mmngr_virtual.cpp:425-440 | for a present page, the address the flat map gives |
| Paging.AddressSpace.CreateTable | MeOS/mmngr_virtual.cpp:468-490 | create_table on the words of physical memory and the bitmap |
| Paging.AddressSpace.MapPage | MeOS/mmngr_virtual.cpp:206-234 | map_page on the words of physical memory |
| Paging.AddressSpace.AllocPage | MeOS/mmngr_virtual.cpp:274-302 | alloc_page_f on memory and bitmap together, device addresses included (PagingRuns.FreshAlloc, DeviceAlloc and PresentAlloc say what that is) |
| Paging.AddressSpace.FreePageAddr | MeOS/mmngr_virtual.cpp:304-321 | free_page on memory and bitmap; ownership survives exactly the safe frees |
| PipeRuns.AccessesSafe | MeOS/pipe.cpp:66-86 | a store hits a cell in the buffer that holds no unread byte and is not being read; a load takes the oldest unread byte |
| PipeRuns.StepKeeps | MeOS/pipe.cpp:66-86 | each step of either thread keeps slots, messages and operations in progress adding up to the size, and the bytes read a prefix of the bytes written |
| PipeRuns.RunInv | MeOS/pipe.cpp:13-86 | the same over every interleaving from create_pipe on |
| PipeRuns.NoDeadlock | MeOS/pipe.cpp:66-86 | from a sound state both threads can wait for each other only in a pipe of size 0 |
| PipeRuns.DeadlockFreeIff | MeOS/pipe.cpp:13-25 | with bytes to write and bytes wanted, no interleaving from create_pipe deadlocks exactly when the uint32 size is positive as an int32 |
| PipeRuns.BadSizeDeadlocks | MeOS/pipe.cpp:22-22 | otherwise the first step of each side is a wait that nothing ends |
| PipeRuns.RunsEnd | MeOS/pipe.cpp:44-64 | every interleaving of the two loops is finite, at most five steps a byte |
| PipeRuns.EndOfRun | MeOS/pipe.cpp:44-64 | whatever the interleaving, in a pipe of positive int32 size the reader ends with exactly the first min(written, wanted) bytes in order |
| PipeRuns.WriterReleased | MeOS/semaphore.cpp:47-62 | a waiting writer is let through within the reader's next four steps, none of which waits |
| PipeRuns.ReaderReleased | MeOS/semaphore.cpp:47-62 | and a waiting reader by the writer's |
| PipeSemaphores.WaitStands | MeOS/semaphore.cpp:11-27 | a wait in the scheduler changes a semaphore as a wait in the pipe does, and blocks the thread exactly when the pipe has it waiting |
| PipeSemaphores.SignalStands | MeOS/semaphore.cpp:47-62 | so does a signal, which makes a waiting thread ready |
| PipeMemory.SharedPipe.constructor | MeOS/pipe.cpp:13-25 | create_pipe with the size converted to an int32 lock; sound for sizes that fit |
| PipeMemory.SharedPipe.StoreByte | MeOS/pipe.cpp:82-82 | the store into the shared buffer is the specification's step |
| PipeMemory.SharedPipe.LoadByte | MeOS/pipe.cpp:70-70 | the byte loaded is the next byte of the writer's buffer |
| PipeMemory.SharedPipe.SignalMessage | MeOS/pipe.cpp:85-85 | the signal hands the unit to a waiting reader or adds it |
| PipeMemory.SharedPipe.SignalSlot | MeOS/pipe.cpp:73-73 | likewise for a waiting writer |
| Ring.ModDistinct | MeOS/pipe.cpp:83-83 | positions less than a ring apart are different cells |
| RingQueue.TestsExact | MeOS/queue_spsc.h:31-68 | the index comparisons mean exactly full and empty |
| RingQueue.StoreSparesUnread | MeOS/queue_spsc.h:43-54 | a store never hits a slot whose item is not removed, nor one being loaded |
| RingQueue.StepKeeps | MeOS/queue_spsc.h:31-68 | each load or store of either thread keeps the queue a FIFO |
| RingQueue.RunInv | MeOS/queue_spsc.h:22-68 | the same over every interleaving |
| RingQueue.RunRefusals | MeOS/queue_spsc.h:43-54 | an insert is refused exactly when max_count - 1 items were outstanding when it read the head, a peek or remove exactly when none was when it read the tail |
| RingQueue.PeekedPrefix | MeOS/queue_spsc.h:31-61 | items peeked and then removed are the inserted items, in order |
| RingQueue.SpscQueue.Insert | MeOS/queue_spsc.h:43-54 | an uninterrupted insert appends, or is refused when full |
| RingQueue.SpscQueue.Peek | MeOS/queue_spsc.h:56-62 | peek gives the oldest item not removed |
| RingQueue.SpscQueue.Remove | MeOS/queue_spsc.h:31-41 | an uninterrupted remove takes one item, exactly when there is one |
| RingQueue.SpscQueue.IsEmpty | MeOS/queue_spsc.h:64-68 | true exactly when nothing is outstanding |
| FatSpec.CountFalls | MeOS/FAT32_fs.cpp:776-786 | zeroing a live entry takes one from the number of entries whose low 28 bits are not zero |
| FatSpec.WalkEnds | MeOS/FAT32_fs.cpp:776-786 | on every table, cyclic and damaged ones included, and whatever fails, the walk ends once more marks got a buffer than there are live entries |
| FatSpec.ChainAcyclic | MeOS/FAT32_fs.cpp:771-788 | links that lead to an end mark, or out of the table, never repeat a cluster |
| FatSpec.WalkAlong | MeOS/FAT32_fs.cpp:776-786 | while marks work the walk zeroes exactly the clusters the links lead through and goes on where they end |
| FatSpec.WalkDeletesChain | MeOS/FAT32_fs.cpp:771-788 | on a chain, whatever stands in the rest of the table, the walk succeeds when the chain's marks work and has zeroed exactly its entries |
| FatSpec.WalkFollows | MeOS/FAT32_fs.cpp:771-788 | without a failed reservation exactly the clusters of a path from the first one are zeroed; success means that it is a chain, leaving the table that it leads out |
| FatSpec.WalkSucceedsIff | MeOS/FAT32_fs.cpp:771-788 | given enough working marks success is exactly the existence of a chain, leaving the table exactly the existence of a path out of it, and all else an error |
| FatSpec.WalkLeaves | MeOS/FAT32_fs.cpp:776-786 | on a path out of the table its clusters are zeroed and the next working mark is outside |
| FatSpec.LeavesIff | MeOS/FAT32_fs.cpp:497-503 | for some outcome of the marks the walk leaves the table, exactly when the links lead out from the first cluster or from cluster 1 |
| FatSpec.WalkOnlyZeroes | MeOS/FAT32_fs.cpp:776-786 | whatever fails, entries are only ever zeroed |
| FatSpec.NoBufferLoops | MeOS/FAT32_fs.cpp:502-503 | while buffer reservations keep failing the walk goes round cluster 1 without end |
| FatSpec.NoBufferStrays | MeOS/FAT32_fs.cpp:502-503 | a failed reservation at mark k of a chain leaves all but its first k entries and sends the walk to cluster 1 |
| FatSpec.NoBufferCutsChain | MeOS/FAT32_fs.cpp:502-503 | with an end mark in entry 1 success is then reported |
| FatSpec.NoBufferLeaves | MeOS/FAT32_fs.cpp:502-503 | with a number there that is neither cluster nor end mark the walk then leaves the table |
| FatSpec.StrayedZeroesOne | MeOS/FAT32_fs.cpp:496-523 | a walk that has strayed to cluster 1 can succeed only by zeroing that entry, which was not free |
| FatSpec.DeletesChainIff | MeOS/FAT32_fs.cpp:771-788 | on every chain, in any table, the walk succeeds with exactly the chain zeroed if and only if the marks of the chain work, a failed reservation at cluster 1 itself being only a retry |
| FatSpec.MarksPlain | MeOS/FAT32_fs.cpp:771-788 | on a chain that avoids cluster 1 that is: each of its marks works |
| FatSpec.WalkWithin | MeOS/FAT32_fs.cpp:776-786 | whatever fails, a walk that starts in a set of clusters closed under links, cluster 1 among them, changes no entry outside it |
| FatSpec.SuccessDeletesIff | MeOS/FAT32_fs.cpp:771-788 | a walk over a chain that reports success has deleted it if and only if its marks worked; on one that avoids cluster 1, if and only if no reservation failed in its first steps, and otherwise entry 1 is zeroed that was not free |
| FatVolume.Volume.MarkCluster | MeOS/FAT32_fs.cpp:496-523 | for any number the eight-sector read, edit and write changes one word of the whole disk, the one that is or would be its entry, and returns its old low 28 bits; failures change nothing |
| FatVolume.Volume.DeleteChain | MeOS/FAT32_fs.cpp:771-788 | from any number in any table the loop on the disk is the walk on the flat table, and nothing outside the table changes before the mark that leaves it |
| SList.List.InsertBack | MeOS/list.h:177-193 | append |
| SList.List.RemoveFront | MeOS/list.h:127-140 | removal of the first node |
| SList.List.Remove | MeOS/list.h:56-90 | removal of the node after the given one; of the only node in a list of one |
| PageCacheSpec.IndexOfAddr | MeOS/page_cache.cpp:17-25 | a buffer index survives the trip through its 32-bit address, which is never 0 |
| PageCacheSpec.GetBufferExact | MeOS/page_cache.cpp:119-128 | the address given for a cached page is its own buffer's and not 0; it is 0 exactly when the page is not cached or the file not open |
| PageCacheSpec.TakenIsFree | MeOS/page_cache.cpp:33-46 | the buffer found is nobody's, is the lowest such, and is never the last one |
| PageCacheSpec.TakeExact | MeOS/page_cache.cpp:130-164 | given the page allocation's answer, a buffer is had exactly when it is yes and some buffer but the last is free |
| PageCacheSpec.ReserveExact | MeOS/page_cache.cpp:180-207 | reserving an uncached page adds exactly that pair and leaves every other lookup; failure changes nothing |
| PageCacheSpec.ReserveThenGet | MeOS/page_cache.cpp:180-207 | a page just reserved is found at the address returned, and every other page where it was |
| PageCacheSpec.ReserveKeepsIff | MeOS/page_cache.cpp:180-207 | the lists stay an injective map exactly when the page was not cached or no buffer can be had |
| PageCacheSpec.ReleaseExact | MeOS/page_cache.cpp:209-260 | releasing removes exactly that pair and frees its buffer alone; an uncached page is refused |
| PageCacheSpec.ReleaseThenGet | MeOS/page_cache.cpp:209-260 | a released page is found nowhere, and every other one where it was |
| PageCacheSpec.ListsExact | MeOS/page_cache.cpp:180-260 | the same of the lists of files that are not open, in any state of the descriptor |
| PageCacheSpec.ReleaseKeeps | MeOS/page_cache.cpp:209-260 | and keeps the invariant |
| PageCacheSpec.ReleaseAnonymousKeepsIff | MeOS/page_cache.cpp:166-178 | lists and bitmap alone survive a release by address exactly for addresses of no buffer, of a free one, or of one a caller holds; the page is PageCacheFrames' |
| PageCacheSpec.ReserveThenRelease | MeOS/page_cache.cpp:130-178 | releasing what was just reserved restores lists and bitmap |
| PageCacheSpec.AnonymousExact | MeOS/page_cache.cpp:130-178 | a reservation hands out the lowest free buffer by an address that names it, a release takes back the buffer its address names; no other bit and no list changes |
| PageCacheSpec.RunInv | MeOS/page_cache.cpp:99-260 | over every run the lists are an injective map, the bitmap marks exactly the buffers of pages, of callers and the last, and the last belongs to nobody |
| PageCacheFrames.BuffersApart | MeOS/page_cache.cpp:17-25 | two buffers are on the same page exactly when they are one |
| PageCacheFrames.NamedPage | MeOS/page_cache.cpp:17-20 | an address is on the page of the buffer it names |
| PageCacheFrames.BackKeeps | MeOS/page_cache.cpp:155-159 | allocating a buffer's page keeps frame ownership and every present page's translation, and the page is present on success |
| PageCacheFrames.ReserveSucceedsIff | MeOS/page_cache.cpp:130-164 | a reservation succeeds exactly when a buffer but the last is free and its page is present or a frame is left for it and for a missing table |
| PageCacheFrames.ReservedAddress | MeOS/page_cache.cpp:130-164 | the address returned names the lowest free buffer, which is the caller's from then on and on a present page; every present page leads where it led |
| PageCacheFrames.ReservedPage | MeOS/page_cache.cpp:180-207 | a page reserved for a file is found at the address returned, on a present page, and every other page where it was |
| PageCacheFrames.ReserveAnonymousKeeps | MeOS/page_cache.cpp:130-164 | reserving, out of memory included, keeps lists, bitmap, frame ownership and a present page behind every buffer in use |
| PageCacheFrames.ReserveBufferKeepsIff | MeOS/page_cache.cpp:180-207 | reserving for a file does exactly when the page was not cached or, by the condition above, nothing can be had |
| PageCacheFrames.ReleaseAnonymousKeepsIff | MeOS/page_cache.cpp:166-178 | releasing by address, page freed included, keeps all of it exactly for addresses of no buffer, of one a caller holds, or of a free one whose stale frame is in nobody's use |
| PageCacheFrames.ReleasedAddress | MeOS/page_cache.cpp:166-178 | releasing an address takes away the page it is on and that alone, and gives back exactly that page's frame |
| PageCacheFrames.ReleasedPage | MeOS/page_cache.cpp:209-260 | releasing answers whether the page was cached, takes its buffer's page away, and leaves every other page found where it was |
| PageCacheFrames.ReleaseBufferKeeps | MeOS/page_cache.cpp:209-260 | releasing a cached page keeps all of it |
| PageCacheFrames.PagingKeeps | MeOS/mmngr_virtual.cpp:274-321 | so does any other legal page operation of the kernel that frees no page of a buffer in use |
| PageCacheFrames.RunInv | MeOS/page_cache.cpp:99-260 | over every run of both, every buffer in use, the last with the bitmap included, is backed by a present page, no two by the same frame |
| PageCacheState.PageCache.constructor | MeOS/page_cache.cpp:99-117 | page_cache_init over an owned address space in which the last buffer's page is present |
| PageCacheState.PageCache.ReserveAnonymous | MeOS/page_cache.cpp:130-164 | the bitmap, the page tables and the frames in place, with the roll-back when the page allocation fails |
| PageCacheState.PageCache.ReleaseAnonymous | MeOS/page_cache.cpp:166-178 | release of any 32-bit address and freeing of its page; everything is sound afterwards exactly in the safe cases |
| PageCacheState.FileInfo | MeOS/page_cache.cpp:85-94 | the walk over a file's list gives the buffer of the first entry for the page, or none when there is none |
| PageCacheState.PageCache.GetBuffer | MeOS/page_cache.cpp:71-128 | the list walk gives the address of the page's own buffer, and 0 for bad or closed descriptors and unknown pages |
| PageCacheState.PageCache.ReserveBuffer | MeOS/page_cache.cpp:180-207 | reserve and append to the file's list of nodes, other files' lists untouched; sound afterwards exactly when the page was not cached or nothing could be had |
| PageCacheState.PageCache.ReleaseBuffer | MeOS/page_cache.cpp:209-260 | the search that keeps the node before the one looked at, unlinking, and freeing buffer and page |

## Left out

- Assembly, context switch, stack frames, the TLB and loading cr3. A scheduler operation is one atomic step: interrupts are off in it, except that this is an assumption for thread_insert, which leaves them as they are, and for thread_sleep, which turns them on between queueing and switching (MeOS/thread_sched.cpp:392-396).
- SchedulerState.Scheduler.DecreaseSleepTime: requires that each node unlinked is in the sleep queue; when one is not (SleepWake.Stray) the source changes the links of another list under the sleep queue's count, and what follows is not modelled.
- Several nodes for one thread, and changing priorities.
- SchedulerState.Scheduler.ThreadNotify: requires that a blocked thread stands in the block queue; of one that waits on a semaphore the source unlinks the node from the wrong list.
- SchedulerState.Scheduler.SemaphoreSignal: requires lock below 2147483647, because the source increments an int32 without a check.
- SchedulerState.Scheduler: the queues and semaphores are found in a map by name, the TCBs' states in a map by thread, and the sleep times in a map that is passed along, where the source has arrays and structures.
- DlList.List.RemoveNode: requires the node to be in the list, which the source does not check; list counts are unbounded.
- HeapAllocator.Heap.Free and HeapAllocator.Heap.Realloc: take null, live addresses, and addresses in the region without the magic before them; an address behind a stale or forged header, which the source takes for a block, is left out, and so is a null heap handle.
- HeapAllocator.Heap.Create: requires more than the 20 bytes of the two headers; the source does not check, and would write behind a smaller region.
- VmContract.VmContract.ExpandArea: takes an index of a stored area, other areas go to ExpandCopy; the panic on an unaligned length is the status Unaligned.
- Allocation failure inside ordered_vector_reserve and ordered_vector_init.
- Multi-block frame allocation and freeing (MeOS/mmngr_phys.cpp:230-270): the search reads one bit past the end and the free loop clears the same bit each time.
- FrameBitmap.PhysicalMemory.FreeRegion and ReserveRegion: take aligned regions inside memory, by frame number, on a bitmap of whole words; the panic on unaligned ones is not modelled, and neither is the missing return value.
- Page permissions: PagingFlags says which low bits entries get, not what the processor lets through with them.
- Paging: tables are reached by physical address, which assumes they are identity mapped; directory clearing, kernel space copying and the page-fault handler are not modelled. Device addresses from 0xF0000000 on are in PagingRuns.DeviceAlloc but outside the ownership theorems.
- Paging.AddressSpace.FreePageAddr: requires the frame in an entry under a present table to lie in the bitmap, which device pages' frames do not; the source indexes the bitmap with them.
- Pipes with several readers or writers (positions are unprotected); a buffer whose length is not the size given; creating a pipe through the file system; each semaphore of the pipe has at most one waiter.
- Memory order below single loads and stores: the ring queue and the pipe are interleaved sequentially consistently. queue_spsc_clear is left out.
- RingQueue.Init: requires a positive count, because the source divides by it.
- FAT: reading chains and reserving clusters, which index the table differently from mark_cluster; directory entries; failed sector writes are taken to leave the disk unchanged, and reads behind the end of the disk to fail.
- FatVolume.Volume.DeleteChain: stops at a working mark outside the table (FatSpec.Outside); what that mark rewrites is in MarkCluster's contract, where the walk goes from there is not modelled.
- Words of the FAT are integers below 2 to the 32nd, and masking with 0x0FFFFFFF is the remainder by 2 to the 28th.
- PageCacheState.PageCache: the bitmap is an array of its own although the source keeps it in the last buffer, whose page is taken to be present at init as the source's memset has it after its page fault; the cache is taken to be page aligned and below the device addresses, as MeOS/kernel.cpp:495 has it; dirty flags and cached file I/O are left out.
- PageCacheState.PageCache.ReserveBuffer: requires an entry of the file table, as the source's comment assumes.
- SList.List.Remove: requires that the node before the removed one is not the last of a longer list, where the source dereferences null.
- File system lookup, network stack, PE loader, drivers, number formatting, descriptor tables.
