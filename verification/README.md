# Dionysus kernel: verified models

Dionysus is a small x86 kernel written in C. This project models the parts of it
whose correctness is hardest to see in the code, and proves for all inputs and all
runs what they keep.

| modules | code | what is proved |
|---|---|---|
| `HeapLayout`, `HeapLinks`, `HeapSteps`, `HeapSearch`, `KHeap`, `HeapTheorems` | `kernel/kmalloc.c` | the allocator: every stored header, link, counter and alignment record follows one abstract layout; the search is complete, ends, and takes the one block that the best bet decides; `kfree` undoes `kmemalign`; `krealloc` keeps the bytes |
| `Scheduler`, `SchedulerRuns`, `TaskCode`, `TaskRuns` | `kernel/task.c` | every task is in exactly one place in every reachable state, also as the code runs; bounded waiting |
| `RwSem`, `RwSemRuns` | `kernel/structures/mutex.c` | writers are alone, permits are conserved, over any interleaving of any number of threads; who passes, who sleeps and where, and that a lone writer gets in |
| `BlockRequest`, `BlockBytes`, `BlkDev` | `kernel/block.c`, `kernel/fs/dev.c` | byte-granular reads and writes through page-bounded bios and partial completions are slice and splice |
| `Frames`, `Paging` | `kernel/paging.c` | the frame bitmap is a set; cloning an address space isolates it; freeing the clone gives back exactly its frames |
| `Fat` | `kernel/fs/fat32.c` | chain extension takes the lowest free clusters and leaves other chains alone |
| `DevInodes`, `DevFs` | `kernel/fs/dev.c` | inode list, link counts and handle counts stay consistent |
| `KList` | `kernel/structures/list.c` | forward chain, backward chain and owners describe one sequence |
| `Calendar` | `kernel/time.c` | `mktime` and `gmtime` are inverse exactly up to 1 March 2100 |

`SeqOps` holds the two sequence operations and `Machine` the word arithmetic, page
size and byte memory that several modules share. Code that updates globals, list
nodes, arrays or tables in place is modelled by classes and methods with loops, each
proved against functions on values; the theorems are stated about those functions and
about the invariants that every method keeps.
`dafny verify dfyconfig.toml` checks the whole project. Nothing was executed.

## Where the code does less than it seems to promise

The model follows the code. Where a natural promise fails, a lemma or a run of the
operations gives an input that shows it, and another member gives the exact condition
under which it holds.

- `kmemalign` adds alignment, record and headers in 32 bits, and adds the first two
  only for alignments above 1: `HeapTheorems.RequestSafeIff`,
  `HeapTheorems.HugeRequestTruncated`, `HeapTheorems.WrappedRequestAccepted`.
- `create_request_blkdev` compares only the first sector with the partition's size:
  `BlkDev.WriteInsideIff`, `BlkDev.ReadInsideIff`, `BlkDev.WritePastPartition`.
- `get_block_size` gives 0 for a minor number without a partition, and `read_blkdev`
  and `write_blkdev` divide by it: `BlkDev.Drive.ReadBlkdev`,
  `BlkDev.Drive.WriteBlkdev` (exactly then), `BlkDev.UnknownMinorFaults`.
- `post_request_blkdev` marks a request pending before it is queued, so that a request
  which cannot be queued fails the ASSERT of `free_request`: `BlkDev.Drive.ReadInto`,
  `BlkDev.Drive.WriteBlkdev` (exactly then), `BlkDev.QueueFullPanics`.
- `end_request` drops an error, so the caller is told of a complete transfer:
  `BlkDev.WriteRightIff`, `BlkDev.ReadRightIff`, `BlkDev.ErrorUnreported`.
- The ASSERT in `end_request` holds exactly when no more sectors are reported than
  are left: `BlockRequest.ConsumeSuffix`, `BlockRequest.TooManyReported`.
- `alloc_clusters` compares whole 32-bit entries with the end mark, reserved bits
  included, although links elsewhere are masked to 28 bits: `Fat.AllocClusters`,
  `Fat.SeekFindsEndIff`, `Fat.ReservedBitCutsChain`.
- `unlink` and `close` drop a directory that still has entries:
  `DevInodes.RemoveConsistentIff`, `DevFs.UnlinkLosesNames`, `DevFs.CloseLosesNames`.
- `krealloc` copies to and returns NULL when there is no memory, and frees the old
  bytes: `KHeap.Heap.Krealloc` (exactly when no gap and no pages hold the new size),
  `HeapTheorems.ReallocLoses`.
- `create` and `link` do not look whether the entry could be listed:
  `DevFs.FileSystem.Create`, `DevFs.FileSystem.Link`, `DevFs.CreateLosesEntry`.
- `list_insert_after` and `list_insert_before` leave one neighbour unlinked:
  `KList.List.InsertAfter`, `KList.InsertAfterBreaks`, `KList.List.InsertBefore`,
  `KList.InsertBeforeBreaks`.
- `mktime` treats 2100 as a leap year: `Calendar.MktimeRightIff`,
  `Calendar.FirstWrongSecond`.

## Assumptions

- Heap: `liballoc_alloc` is the parameter `source`; it returns 0 or the address of
  fresh pages, page-aligned and apart from every live block.
- Semaphores: the plain decrement at `kernel/structures/mutex.c:82` and the plain
  subtraction at `kernel/structures/mutex.c:135` are single steps, as each `__sync_`
  operation and each routine that runs with interrupts off is; `max` plus the number
  of threads stays below 2^32; a thread exits only when it holds nothing.
- Heap: the bytes of an allocation, copied to address 0, end below the heap, which lies
  at 0xD0000000 and is a quarter of a gigabyte long.
- Block I/O: the driver transfers sectors of the
  request in order, any number at a time, and reports them with `end_request` until
  that returns 0, retrying at most a bounded number of times. The sector size divides
  the page size. The pages of the bounce buffer lie in distinct frames.
- Paging: frame 0 is taken from the start, as page entries use 0 for "no frame".
- FAT: entries 0 and 1 are not free, as "FAT Data Structure" in the Microsoft FAT32
  File System Specification 1.03 lays down.
- Calendar: signed overflow in `YEAR * year` wraps, as the assignment to a `uint32_t`
  shows is meant.

## Model

| member | source | states |
|---|---|---|
| HeapLayout.FreeBoundsGap | kernel/kmalloc.c:458-475 | a block's free byte count bounds each of its gaps, so the quick test never skips a block that has room |
| HeapLayout.Disjoint | kernel/kmalloc.c:374-704 | two live allocations share no byte, no header address and no user pointer |
| HeapLayout.SumInsert | kernel/kmalloc.c:505-656 | placing one minor anywhere raises the usage and payload sums by exactly its size |
| HeapLinks.LinkMinorLayout | kernel/kmalloc.c:505-656 | linking a minor into a gap gives exactly the prev/next/block links of the layout with it in place, in its block and in all others |
| HeapLinks.UnlinkMinorLayout | kernel/kmalloc.c:778-790 | unlinking a minor gives exactly the links of the layout without it |
| HeapLinks.AppendMajorLayout | kernel/kmalloc.c:493-495 | hooking a fresh block behind the last gives exactly the block links of the longer layout |
| HeapLinks.UnlinkMajorLayout | kernel/kmalloc.c:795-801 | taking a block out of the list gives exactly the links of the layout without it |
| HeapLinks.WriteRecordLayout | kernel/kmalloc.c:43-58 | the record of a new allocation reads back, and disturbs no other record |
| HeapLinks.UserStores | kernel/kmalloc.c:43-72 | a caller's stores into its own bytes disturb no alignment record |
| HeapSteps.PlaceOk | kernel/kmalloc.c:505-656 | a placement in any gap that fits keeps all headers, links, records, alignments and sums in step |
| HeapSteps.PlaceOther | kernel/kmalloc.c:505-656 | a placement changes no header but live ones, no byte but the new record, raises l_inuse by the payload and leaves l_allocated |
| HeapSteps.GrowOk | kernel/kmalloc.c:313-360 | hooking fresh pages keeps everything in step and raises l_allocated by the block's size only |
| HeapSteps.PagesForLeast | kernel/kmalloc.c:318-331 | no smaller number of pages, 16 or more, holds the request and its two headers |
| HeapSteps.QuickTest | kernel/kmalloc.c:458-475 | too few free bytes by the counters means no gap of the block is large enough |
| HeapSteps.UnalignLive | kernel/kmalloc.c:43-72 | UNALIGN of any live pointer gives back the start of its payload |
| HeapSteps.FreeOk | kernel/kmalloc.c:778-790 | freeing one minor keeps all headers, links, records and sums in step |
| HeapSteps.FreeFrame | kernel/kmalloc.c:778-790 | the stores of a free go to headers that were live |
| HeapSteps.ReleaseFrame | kernel/kmalloc.c:795-801 | the stores of giving a block back go to headers of listed blocks |
| HeapSteps.ReleaseOk | kernel/kmalloc.c:795-803 | giving an empty block back keeps everything in step and lowers l_allocated by its size |
| HeapSteps.StillLive | kernel/kmalloc.c:374-704 | after an allocation every older allocation is still there with the same values |
| HeapSteps.MoveApart | kernel/kmalloc.c:845-931 | the bytes of an old allocation and the record and bytes of a new one are disjoint |
| HeapSteps.ShrinkHeaders | kernel/kmalloc.c:914-921 | lowering a request in place keeps all headers, links and records in step |
| KHeap.Heap.Align | kernel/kmalloc.c:43-58 | the pointer is the aligned one, and exactly its offset and alignment are recorded before it |
| KHeap.Heap.PlaceFirst | kernel/kmalloc.c:505-532 | the stores of case 2 are the layout operation on an empty block |
| KHeap.Heap.PlaceFront | kernel/kmalloc.c:538-567 | the stores of case 3 are the layout operation before the first minor |
| KHeap.Heap.PlaceLast | kernel/kmalloc.c:580-614 | the stores of case 4.1 are the layout operation behind the last minor |
| KHeap.Heap.PlaceBetween | kernel/kmalloc.c:618-656 | the stores of case 4.2 are the layout operation between two minors |
| KHeap.Heap.ScanMinors | kernel/kmalloc.c:574-659 | the walk finds a minor with enough room behind it, or no gap behind any minor is large enough |
| KHeap.Heap.TryBlock | kernel/kmalloc.c:505-659 | a block is either given the minor in one of its gaps, with the whole state in step, or has no gap that fits and nothing changed |
| KHeap.Heap.Grow | kernel/kmalloc.c:313-360 | fresh pages become the last block, or nothing changes when there are none |
| KHeap.Heap.Advance | kernel/kmalloc.c:471-499 | leaving a full block hops on, restarts once at the root, or takes fresh pages only when every block is full; each hop brings the search nearer its end, and the best bet is the roomiest block passed so far |
| KHeap.Heap.Allocate | kernel/kmalloc.c:403-704 | the search: new pages are taken if and only if no gap of any block can hold the request, and NULL is the result if and only if there are none to be had either; otherwise the minor goes into the lowest gap that fits of the first such block, counted from the old best bet if and only if that is set and has more free bytes than asked for, else from the root, to which a search that runs out behind the bet returns; the best bet after it is the old one or the roomiest block it looked at; the search ends |
| KHeap.Heap.Kmemalign | kernel/kmalloc.c:374-704 | for every request that `RequestSafeIff` shows can be dealt with: the state stays valid; the block and the gap are those of the search from the best bet; the result is NULL if and only if nothing fits and no pages are to be had, or the size is too big for any gap; a size of 0 is served as kmalloc(1) and counted as a warning, as NULL is; nothing but live headers and the new record changes |
| KHeap.Heap.Release | kernel/kmalloc.c:778-815 | the minor leaves the layout, and its block with its last minor; the best bet is given up with its block, else the block of the minor takes its place if and only if it now has more free bytes; headers change only where live ones were |
| KHeap.Heap.Kfree | kernel/kmalloc.c:706-823 | a live pointer's minor is removed and the best bet follows; NULL or a dead pointer changes no structure, NULL is counted as a warning and a dead one as an error, and as a possible overrun if and only if the low bytes of its magic are those of a live one; no byte changes, and headers only where live ones were |
| KHeap.Heap.Memcpy | kernel/kmalloc.c:245-268 | copying by words and then bytes copies exactly the range |
| KHeap.Heap.Krealloc | kernel/kmalloc.c:845-931 | size 0 frees, NULL allocates, a dead pointer is refused, a smaller size stays in place with only its request lowered; a larger one moves with all old bytes if and only if kmalloc can get memory, otherwise the bytes go to address 0 and the old minor is freed; no byte outside the new allocation (or the bytes at 0) changes, and headers only where live ones are, before or after |
| HeapSteps.CouldMove | kernel/kmalloc.c:845-931 | an allocation that was made found a gap or pages |
| HeapSteps.LowStores | kernel/kmalloc.c:926-927 | a copy to address 0 that ends below the heap disturbs no alignment record |
| HeapSearch.ChosenOne | kernel/kmalloc.c:439-499 | the first block with room from the starting point on, or else from the root on, is one block only |
| HeapSearch.SweepStep | kernel/kmalloc.c:471-490 | a full block passed leaves the search with nothing missed, also over the restart at the root |
| HeapSearch.NotedMore | kernel/kmalloc.c:458-466 | looking at one more block keeps the best bet the roomiest of those looked at and of the old one |
| HeapSearch.NotedDone | kernel/kmalloc.c:439-499 | the best bet that a search leaves is settled by the blocks it looked at, whichever way it went |
| KHeap.Heap.constructor | kernel/kmalloc.c:117-118 | the empty heap is valid |
| HeapTheorems.AllocateAndFree | kernel/kmalloc.c:374-823 | kmemalign fails if and only if nothing fits and no pages are to be had; kfree of what it just returned restores the layout, the root, every block header, l_inuse and l_allocated, whichever case placed it, and leaves the pointer dead |
| HeapTheorems.Undo | kernel/kmalloc.c:374-823 | on layouts, the removal undoes the allocation, grown or not |
| HeapTheorems.FreeTwice | kernel/kmalloc.c:706-823 | a second kfree of a pointer whose block is still there is counted as an error and changes nothing more |
| HeapTheorems.NotLive | kernel/kmalloc.c:720-729 | a pointer whose recovered header is not marked live is no live pointer |
| HeapTheorems.LivePointer | kernel/kmalloc.c:374-704 | every live pointer is aligned as asked, with its record and its requested bytes inside its own payload and its block |
| HeapTheorems.OwnedByte | kernel/kmalloc.c:374-704 | a byte a caller owns lies in no header, no record and no other allocation |
| HeapTheorems.FrameMisses | kernel/kmalloc.c:374-931 | stores into live headers reach no byte that a caller owns |
| HeapTheorems.AllocateIsolated | kernel/kmalloc.c:374-704 | kmemalign changes no byte of any live allocation, by a store or by a header |
| HeapTheorems.FreeIsolated | kernel/kmalloc.c:706-823 | kfree changes no byte of any other live allocation |
| HeapTheorems.ReallocIsolated | kernel/kmalloc.c:845-931 | krealloc changes no byte of any other live allocation, whichever way it goes, also without memory |
| HeapTheorems.ReallocLoses | kernel/kmalloc.c:926-930 | a heap without further pages on which krealloc of a live pointer returns NULL and frees it |
| HeapTheorems.RequestSafeIff | kernel/kmalloc.c:313-704 | over all requests and all alignments that are 0 or a power of two: wherever kmemalign may put the minor, it lies in its gap, holds the record and the bytes, and is recovered by UNALIGN, if and only if the alignment is at most 1 and no bytes are asked for, or the alignment is 2 to 32768 and req + alignment + 64 < 2^32, or the size is so close to 2^32 that it can only be refused |
| HeapTheorems.BigRefused | kernel/kmalloc.c:313-704 | no gap of any block and no fresh pages are ever accepted for a size within a page of 2^32 |
| HeapSteps.BigNeverFits | kernel/kmalloc.c:458-475 | every block of every heap fails the first test for such a size |
| HeapTheorems.SafeServed | kernel/kmalloc.c:374-704 | the safe requests are placed well in every accepted gap and on all fresh pages |
| HeapTheorems.UnsafeServed | kernel/kmalloc.c:374-704 | for every other request some gap that a block can have is accepted, or some fresh pages are taken, that are not enough |
| HeapTheorems.WrappedRequestAccepted | kernel/kmalloc.c:313-320 | a request of 4 GB less 56 bytes is accepted for an empty gap and gets 16 fresh pages |
| HeapTheorems.HugeRequestTruncated | kernel/kmalloc.c:383-389 | a request of 4 GB less 8 bytes gets 24 |
| Scheduler.EveryTaskInOnePlace | kernel/task.c:503-638 | under the invariant each live task but kidle is in exactly one place, once; it waits exactly when SLEEP_ASLEEP is set and exactly when its wq is not NULL |
| Scheduler.IdleNeverQueued | kernel/task.c:96-108 | kidle is in no queue |
| Scheduler.DispatchKeeps | kernel/task.c:96-108 | picking the next task restores the invariant once the current one is put away |
| Scheduler.SwitchKeeps | kernel/task.c:503-544 | a timer switch keeps the invariant |
| Scheduler.ExitKeeps | kernel/task.c:546-578 | an exit keeps the invariant |
| Scheduler.FinishTaskletKeeps | kernel/task.c:351-359 | the end of a tasklet keeps the invariant |
| Scheduler.SleepKeeps | kernel/task.c:600-618 | going to sleep keeps the invariant |
| Scheduler.WakeKeeps | kernel/task.c:620-638 | waking a queue keeps the invariant |
| Scheduler.WakeNext | kernel/task.c:620-638 | one turn of the wake loop takes the state with n sleepers moved to the one with n + 1 moved |
| Scheduler.WakeMeans | kernel/task.c:620-638 | the queue is emptied, in order, onto the tail of the run queue; exactly its tasks lose SLEEP_ASLEEP and their wq; no other flag, wq or queue changes |
| Scheduler.ForkKeeps | kernel/task.c:230-349 | a new task keeps the invariant |
| Scheduler.CreateTaskletKeeps | kernel/task.c:361-434 | a new tasklet keeps the invariant |
| Scheduler.ScheduleTaskletKeeps | kernel/task.c:436-458 | scheduling a tasklet, once or twice, keeps the invariant |
| Scheduler.DestroyTaskletKeeps | kernel/task.c:480-501 | destroying a dormant tasklet keeps the invariant |
| Scheduler.QueueKeeps | kernel/task.c:580-598 | creating a wait queue and destroying an empty one keep the invariant |
| SchedulerRuns.RunKeeps | kernel/task.c:96-638 | every run of any events keeps the invariant |
| SchedulerRuns.EveryReachableState | kernel/task.c:96-638 | in every state reachable from boot each live task is in exactly one place, SLEEP_ASLEEP and wq both agree with wait-queue membership in both directions, SLEEP_INTERRUPTED is never set and kidle is queued nowhere |
| SchedulerRuns.StepMovesUp | kernel/task.c:96-108 | one event moves a queued task up by one place if it dispatches and not at all otherwise |
| SchedulerRuns.BoundedWaiting | kernel/task.c:96-108 | a task with k tasks ahead of it runs at exactly dispatch number k + 1, whatever else is interleaved |
| SchedulerRuns.WokenRuns | kernel/task.c:96-638 | a sleeper with k others ahead of it, woken with n tasks ready, runs at exactly dispatch number n + k + 1 |
| TaskCode.Kernel.constructor | kernel/task.c:160-228 | the state after start-up satisfies the invariant: two tasks awake, no queues |
| TaskCode.Kernel.SwitchTask | kernel/task.c:503-544 | the head of the run queue runs, kidle if there is none; the caller, unless it is kidle, goes to its tail if and only if it is rescheduled; nothing else changes; it is the step function and keeps the invariant |
| TaskCode.Kernel.ExitTask | kernel/task.c:546-578 | the caller is live no longer, in no queue, and the head of the run queue runs; nothing else changes; it is the step function and keeps the invariant |
| TaskCode.Kernel.ForkTask | kernel/task.c:230-349 | the child is put at the tail of the run queue, awake and waiting nowhere, exactly when the caller gets a pid; otherwise nothing changes and the result is -EAGAIN for want of a pid, else -ENOMEM |
| TaskCode.Kernel.ScheduleTaskletNow | kernel/task.c:436-458 | the tasklet goes to the tail of the run queue and is marked if and only if it was not marked and a node could be had; otherwise nothing changes and the result is 0 if it was marked, else -ENOMEM |
| TaskCode.Kernel.TaskletFinish | kernel/task.c:351-359 | the mark of the running tasklet alone is cleared and the head of the run queue runs; it is the step function and keeps the invariant |
| TaskCode.Kernel.SleepThread | kernel/task.c:600-618 | the caller goes to the tail of the wait queue with SLEEP_ASLEEP, the given interruptability and its wq set, and the head of the run queue runs; nothing else changes; it is the step function and keeps the invariant |
| TaskCode.Kernel.SleepResult | kernel/task.c:617 | sleep_thread never reports an interruption |
| TaskCode.Kernel.WakeQueue | kernel/task.c:620-638 | the loop moves all sleepers of the queue, in order, to the tail of the run queue, empties the queue, clears SLEEP_ASLEEP and wq of exactly those tasks, and changes nothing else; it keeps the invariant |
| TaskCode.Kernel.CreateTaskletNow | kernel/task.c:361-434 | a new tasklet is live, unmarked, awake and queued nowhere, or nothing changes |
| TaskCode.Kernel.DestroyTaskletNow | kernel/task.c:480-501 | exactly the tasklet is forgotten |
| TaskCode.Kernel.CreateWaitqueue | kernel/task.c:580-591 | one more wait queue, empty, or nothing changes |
| TaskCode.Kernel.DestroyWaitqueue | kernel/task.c:593-598 | exactly the empty queue goes |
| TaskRuns.Perform | kernel/task.c:230-638 | the code of every routine does what its event stands for |
| TaskRuns.RunFromBoot | kernel/task.c:96-638 | any run of the routines from start-up ends where the run of the events ends, with each live task in exactly one place and its wait status right |
| RwSem.WordsStep | kernel/structures/mutex.c:45-137 | every step of the running thread keeps the semaphore word equal to permits held plus failed attempts, and the mutex word equal to its owners |
| RwSem.StepKeeps | kernel/structures/mutex.c:45-137 | every thread step and every scheduler event keeps the whole invariant |
| RwSem.RunKeeps | kernel/structures/mutex.c:45-137 | every run keeps the whole invariant |
| RwSem.Exclusion | kernel/structures/mutex.c:117-137 | a thread past acquire_semaphore_write holds all permits, no other holds any, and at most one thread is collecting |
| RwSem.AcquireMutexAlone | kernel/structures/mutex.c:45-54 | acquire_mutex returns only by finding the mutex clear, as its sole owner, never by an interrupted sleep |
| RwSem.EveryReachableState | kernel/structures/mutex.c:45-137 | in every reachable state: the word equation, at most max permits held, writers alone, one collector |
| RwSem.TwoShares | kernel/structures/mutex.c:117-137 | no two threads together hold more than all threads do |
| RwSemRuns.ReaderPassesIff | kernel/structures/mutex.c:79-85 | a reader has one permit more after its attempt if and only if fewer than max were counted; otherwise it holds what it held and backs off; no other thread changes |
| RwSemRuns.CollectorPassesIff | kernel/structures/mutex.c:79-85 | the same for a writer that collects its next permit; with the last one it is done collecting |
| RwSemRuns.LockPassesIff | kernel/structures/mutex.c:45-54 | acquire_mutex owns the mutex after its attempt if and only if it was clear; otherwise the word is as it was and the thread goes to sleep |
| RwSemRuns.CollectAll | kernel/structures/mutex.c:125-129 | with all permits free the loop has collected n of them after n steps |
| RwSemRuns.WriterGetsIn | kernel/structures/mutex.c:125-132 | a thread alone, with the mutex clear and all permits free, is writing after max + 4 steps and holds all max permits |
| RwSemRuns.WriteCycle | kernel/structures/mutex.c:125-137 | acquiring and releasing for writing, alone, gives back the whole state after max + 6 steps |
| RwSemRuns.ReaderGetsIn | kernel/structures/mutex.c:117-119 | a reader that starts while a permit is free holds it two steps later |
| RwSemRuns.ReaderReleases | kernel/structures/mutex.c:87-90 | releasing a permit gives back exactly that one and moves every sleeper of the semaphore, in order, to the tail of the run queue |
| RwSemRuns.WriteReleases | kernel/structures/mutex.c:134-137 | releasing for writing, in any state, gives back all max permits and moves every sleeper of the semaphore, in order, to the tail of the run queue |
| RwSemRuns.MutexReleases | kernel/structures/mutex.c:51-54 | a writer that has collected all permits clears the mutex, moves every thread that sleeps on it, in order, to the tail of the run queue, and is writing |
| RwSemRuns.ReaderSleeps | kernel/structures/mutex.c:79-85 | a reader that finds no permit gives its failed attempt back and sleeps at the tail of the semaphore's queue, to try again when it runs |
| RwSemRuns.CollectorSleeps | kernel/structures/mutex.c:79-85 | a collecting writer that finds none does the same and keeps the permits it has |
| RwSemRuns.LockerSleeps | kernel/structures/mutex.c:45-49 | a thread that finds the mutex taken sleeps at the tail of its queue |
| RwSemRuns.LockerTriesAgain | kernel/structures/mutex.c:45-49 | when it runs again it tries again, never taken for interrupted |
| RwSemRuns.SchedProjection | kernel/structures/mutex.c:45-137 | every run of the semaphore is, for the scheduler, a run of its own events, so bounded waiting holds for it |
| BlockRequest.ConsumeSuffix | kernel/block.c:444-462 | what the loop leaves is exactly the unserved suffix, and the ASSERT holds if and only if no more was done than was left |
| BlockRequest.TooManyReported | kernel/block.c:444-462 | two sectors reported where one is left make the ASSERT fail |
| BlockRequest.Request.AddBio | kernel/block.c:384-393 | the sectors of the bio are appended and nsectors stays the sum, or nothing changes and the result is -ENOMEM |
| BlockRequest.Request.EndRequest | kernel/block.c:437-475 | the sectors left are the unserved suffix, first_sector + nsectors is constant, an uninterrupted request is finished exactly when nothing is left |
| BlockBytes.ReadEffect | kernel/fs/dev.c:221-251 | sectors read into scattered frames put exactly the disk's bytes into the virtual range and leave the rest of it alone |
| BlockBytes.WriteEffect | kernel/fs/dev.c:355-382 | sectors written from scattered frames replace exactly their bytes by those of the virtual range |
| BlockBytes.PhysInjective | kernel/paging.c:158-165 | distinct virtual addresses of the buffer have distinct physical ones |
| BlockBytes.SectorsInPage | kernel/fs/dev.c:229-236 | the rest of a page behind a sector boundary is a whole, positive number of sectors |
| BlkDev.SectorCount | kernel/fs/dev.c:211-213 | the sectors cover the bytes and no sector is superfluous |
| BlkDev.BioIsVirt | kernel/fs/dev.c:228-236 | each bio is non-empty, stays in one physical page, is the next stretch of the bounce buffer, and stops only at the end of the page or of the buffer |
| BlkDev.Drive.AddBounce | kernel/fs/dev.c:221-245 | the loop ends; it succeeds if and only if all its bios can be allocated, and then there are as many as the pages cut the buffer into and they flatten to its sectors in order, each inside one page |
| BlkDev.Drive.Serve | kernel/block.c:437-475 | the sectors moved are exactly those the driver's reports move before the first error, in order, whatever the pace and the retries; the request is finished |
| BlkDev.MovedAll | kernel/block.c:437-475 | without an error all sectors are moved |
| BlkDev.FindPartition | kernel/block.c:347-353 | the loop finds the first partition with the minor number, or none |
| BlkDev.FirstWithIs | kernel/block.c:93-97 | it has the minor number and no earlier one has |
| BlkDev.GetBlkdev | kernel/block.c:77-101 | a device is given only if it has a partition with the minor number; with devices registered in order, NULL if and only if no device has one |
| BlkDev.CandidateHas | kernel/block.c:77-101 | the device looked at is the only one that can have the minor number |
| BlkDev.Drive.GetBlockSize | kernel/block.c:103-109 | the sector size, or 0 if and only if no partition has the minor number |
| BlkDev.UnknownMinorFaults | kernel/fs/dev.c:201-205 | a read of minor 7 on a device with only partition 1 divides by zero |
| BlkDev.Drive.CreateRequest | kernel/block.c:341-382 | a request is refused if and only if no partition has the minor number, it starts past the partition's size, or it cannot be allocated; otherwise it goes to the first partition with the number |
| BlkDev.Drive.ReadInto | kernel/block.c:395-415 | a request that cannot be allocated fails cleanly, one that cannot be queued stops the kernel in free_request, each exactly then; otherwise the sectors moved before the first error are in the buffer and the rest of it is as it was |
| BlkDev.QueueFullPanics | kernel/block.c:395-409 | a drive on which a read without memory for the queue ends in the ASSERT of free_request |
| BlkDev.Drive.ReadBlkdev | kernel/fs/dev.c:201-259 | how the call ends, for every minor number, allocation and queue; the bytes returned are the partition's as far as the driver moves sectors before an error, and the bounce buffer's old ones after; the disk is unchanged |
| BlkDev.ReadRightIff | kernel/fs/dev.c:201-259 | a read returns exactly the bytes [off, off + count) of the partition if and only if the driver moves all its sectors before it reports an error, or the bytes it does not move are in the bounce buffer already; the result is the full count either way |
| BlkDev.Drive.Prefill | kernel/fs/dev.c:288-345 | outside the bytes to be written the bounce buffer holds the disk's bytes, also when head and tail are one sector, if the driver moves those sectors |
| BlkDev.Patched | kernel/fs/dev.c:347-379 | writing the first m sectors of the prefilled and patched buffer back replaces exactly the given bytes that are in them |
| BlkDev.Drive.WriteBlkdev | kernel/fs/dev.c:272-392 | how the call ends, for every minor number, allocation and queue; unless it is carried out the disk is unchanged; if it is, exactly the given bytes in the sectors that the driver moves before an error are replaced, or, after an error while filling the buffer, nothing but sectors of the transfer |
| BlkDev.WriteEndsAt | kernel/fs/dev.c:288-388 | a write ends as the first of its up to three requests that is not served, and is carried out if and only if all are |
| BlkDev.LuckyWrites | kernel/fs/dev.c:288-388 | with every allocation made, a write is refused if and only if it starts past the partition's size or ends past it inside a sector |
| BlkDev.WriteThenRead | kernel/fs/dev.c:201-392 | the disk has the given bytes in their place and is otherwise as it was, and what was written is what is read back |
| BlkDev.WriteInsideIff | kernel/block.c:355-356 | what a write does to the disk stays inside the partition, for every disk and buffer, if and only if off + count <= partition bytes |
| BlkDev.ReadInsideIff | kernel/block.c:355-356 | what a read returns depends on the partition alone, for every disk, if and only if off + count <= partition bytes |
| BlkDev.WriteOutside | kernel/fs/dev.c:272-392 | write_blkdev keeps the disk outside the partition when the bytes are inside, even after an error; otherwise, if it is carried out, it puts the buffer's bytes past the partition |
| BlkDev.SectorsInsideIff | kernel/block.c:355-356 | the sectors of a transfer lie inside the partition if and only if its bytes do |
| BlkDev.WritePastPartition | kernel/fs/dev.c:272-392 | a drive with a one-sector partition on which an accepted two-sector write changes the byte behind the partition |
| BlkDev.WriteRightIff | kernel/block.c:437-475 | with the reads it needs untroubled, a write leaves the disk as asked if and only if the driver moves all its sectors before it reports an error, or the bytes it does not move are on the disk already; the result is the full count either way |
| BlkDev.ErrorUnreported | kernel/block.c:437-475 | a drive on which the driver reports an error, nothing is written, and write_blkdev returns the full count |
| Frames.ChangeBit | kernel/paging.c:52-64 | setting or clearing one bit changes that bit and no other |
| Frames.FirstFreeIsLeast | kernel/paging.c:73-83 | the result is the least free frame below the limit, or 0xFFFFFFFF if and only if there is none |
| Frames.FrameMap.SetFrame | kernel/paging.c:52-57 | exactly one frame is added to the set |
| Frames.FrameMap.ClearFrame | kernel/paging.c:59-64 | exactly one frame is removed from the set |
| Frames.FrameMap.FirstBit | kernel/paging.c:76-81 | the lowest clear bit of the word, or 32 if there is none |
| Frames.FrameMap.FirstFrame | kernel/paging.c:73-83 | the word and bit loops find the least free frame of the whole words |
| Paging.Mmu.AllocFrame | kernel/paging.c:85-100 | an entry without a frame gets the least free one, an entry with one is left alone; it fails if and only if the entry has none and every frame below the limit is taken |
| Paging.Mmu.ClonePage | kernel/paging.c:280-293 | the copy gets the least free frame with equal bytes and flags; it fails if and only if every frame below the limit is taken |
| Paging.Mmu.FreeFrame | kernel/paging.c:148-156 | exactly the entry's frame is given back |
| Paging.Mmu.CloneTable | kernel/paging.c:275-299 | every mapped page gets a distinct, previously free frame with equal bytes and flags; bytes of all taken frames are kept; NULL only with every frame below the limit taken |
| Paging.Mmu.CloneDirectory | kernel/paging.c:301-326 | kernel tables are shared by identity, private tables are fresh deep copies in distinct, previously free frames, the source is untouched; NULL only with every frame below the limit taken |
| Paging.Mmu.FreeTable | kernel/paging.c:328-333 | exactly the frames of the table are given back |
| Paging.Mmu.FreeDir | kernel/paging.c:335-341 | exactly the frames of the private pages are given back |
| Paging.CloneAndFree | kernel/paging.c:301-341 | the clone shows the source's tables in frames of its own and fails only with every frame taken; freeing it restores the set of taken frames and leaves the source's tables and the bytes of every frame taken before as they were |
| Paging.WritesStayPrivate | kernel/paging.c:275-326 | a store into a private page shows there and in no other private page of either space |
| Paging.CloneShowsSame | kernel/paging.c:275-326 | right after a clone both spaces show the same bytes on every private page |
| Paging.RunFrameCalls | kernel/paging.c:85-156 | no run of alloc_frame and free_frame gives one frame to two entries or touches the frames of others; after it exactly the entries last allocated have a frame, and it stops only with every frame taken |
| Fat.FollowClusterChain | kernel/fs/fat32.c:158-197 | the depth-th cluster of the chain, or 0 past its end |
| Fat.FreeFromIsFree | kernel/fs/fat32.c:252-270 | the list of free clusters is complete and increasing |
| Fat.SeekFindsEndIff | kernel/fs/fat32.c:238-250 | the seek stops at the end of the chain if and only if no earlier link reads as an end mark with its reserved bits |
| Fat.ReservedBitCutsChain | kernel/fs/fat32.c:199-275 | allocating one cluster on a two-cluster chain with one reserved bit set cuts the second cluster off |
| Fat.SeekEnd | kernel/fs/fat32.c:238-250 | the loop stops at the first entry that reads as an end mark as a whole word, or at the last of the chain |
| Fat.SeekIndexStops | kernel/fs/fat32.c:238-250 | the seek function names that entry |
| Fat.NextFree | kernel/fs/fat32.c:254-264 | the search stops at the next free cluster, skipping none, or at the table's end |
| Fat.ExtendPath | kernel/fs/fat32.c:266-268 | marking a free cluster as last and linking it from the end of a path gives a chain, wherever the path led before |
| Fat.AllocClusters | kernel/fs/fat32.c:199-275 | the chain up to where the seek stops goes on with exactly min(wanted, free) clusters, the lowest free ones in order; no other entry changes; it is the whole old chain and the new clusters if and only if no link before the end reads as an end mark, or nothing is allocated |
| Fat.CutIff | kernel/fs/fat32.c:199-275 | the old chain and the new clusters form a chain if and only if the seek reached the end or nothing was allocated |
| Fat.OtherChainsKept | kernel/fs/fat32.c:199-275 | every chain disjoint from the extended one is still a chain, and still disjoint |
| Fat.ExtendThenFollow | kernel/fs/fat32.c:158-275 | following the extended chain reaches the clusters up to where the seek stopped, then the new ones, then 0 |
| DevInodes.NamedOrOpenIsListed | kernel/fs/dev.c:545-556 | a number that is not listed has neither a name nor an open handle, so it may be reissued |
| DevInodes.InsertKeeps | kernel/fs/dev.c:167-180 | a fresh inode in its place keeps the file system consistent |
| DevInodes.RemoveKeeps | kernel/fs/dev.c:182-199 | taking out an inode with neither names, handles nor entries keeps it consistent |
| DevInodes.AddNameKeeps | kernel/fs/dev.c:613-635 | one more entry and one more link keep it consistent, also in an unlinked directory |
| DevInodes.AddNameMeans | kernel/fs/dev.c:613-635 | the directory has one entry more, the last, with the name and the number of the file; the file has one link more; every other field of every file is as it was |
| DevInodes.InsertAddMeans | kernel/fs/dev.c:558-611 | the new inode stands in its place with one link and no entries, the parent has one entry more, the last, for it; every other field of every file is as it was |
| DevInodes.DropNameKeeps | kernel/fs/dev.c:637-671 | one entry and one link less keep it consistent |
| DevInodes.DropNameMeans | kernel/fs/dev.c:637-671 | the entries left are the old ones without the one taken, the file has one link less, and every other field of every file is as it was; also when the file itself is taken out after it |
| DevInodes.RefKeeps | kernel/fs/dev.c:406-465 | opening or closing one handle keeps it consistent |
| DevInodes.RemoveKeepsLinksIff | kernel/fs/dev.c:182-199 | removing an unlinked inode keeps the link counts right if and only if it has no entries |
| DevInodes.RemoveConsistentIff | kernel/fs/dev.c:182-199 | removing an inode without names and handles keeps the file system consistent if and only if it has no entries |
| DevInodes.LinkWithoutName | kernel/fs/dev.c:602-606 | a link counted without an entry makes it inconsistent |
| DevFs.UnlinkLosesNames | kernel/fs/dev.c:637-671 | mkdir d, create d/tty, unlink d leaves a device with a link and no name |
| DevFs.CreateLosesEntry | kernel/fs/dev.c:602-611 | mkdir without memory for the list node succeeds and leaves a link without a name |
| DevFs.CloseLosesNames | kernel/fs/dev.c:436-465 | mkdir d, open d, unlink d, create d/tty, close d leaves the same |
| DevFs.FileSystem.constructor | kernel/fs/dev.c:99-152 | the file system with only the root is consistent |
| DevFs.FileSystem.GetInode | kernel/fs/dev.c:154-165 | the early exit agrees with a full search |
| DevFs.FileSystem.FileInsert | kernel/fs/dev.c:167-180 | the inode goes between the smaller and the larger ones |
| DevFs.FileSystem.FileRemove | kernel/fs/dev.c:182-199 | exactly the inode with the number goes; a missing one changes nothing |
| DevFs.FileSystem.GetEmptyInode | kernel/fs/dev.c:545-556 | the least number not in use |
| DevFs.FileSystem.Create | kernel/fs/dev.c:558-611 | a new inode with the least unused number, which had neither name nor handle, with one link and no entries; the parent, linked or unlinked, has its old entries followed by the one for it, and every other field of every file is as it was; the error cases change nothing; consistency is kept if and only if the list node for the name could be allocated |
| DevFs.FileSystem.Link | kernel/fs/dev.c:613-635 | the parent has its old entries followed by one for the inode, which has one link more, and every other field of every file is as it was; or -ENOMEM and no change; consistency is kept if and only if the list node for the name could be allocated |
| DevFs.FileSystem.Unlink | kernel/fs/dev.c:637-671 | the entries left are the old ones without the first of the name, the inode has one link less and goes with its last name unless it is open, and every other field of every file is as it was; the error cases change nothing; consistency is kept if and only if no inode with entries is dropped |
| DevFs.FileSystem.Open | kernel/fs/dev.c:406-434 | only a linked inode can be opened, and a driver may refuse; consistency is kept |
| DevFs.FileSystem.Close | kernel/fs/dev.c:436-465 | the last close removes an unlinked inode unless the driver refuses; an inode no longer listed is left alone with result 0; consistency is kept if and only if there was a handle to close and no inode with entries is dropped |
| KList.List.DescribesOne | kernel/structures/list.c:54-101 | head, tail and links determine the sequence |
| KList.List.ForwardOne | kernel/structures/list.c:103-124 | the forward chain alone determines it |
| KList.List.BackwardOne | kernel/structures/list.c:126-147 | the backward chain alone determines it |
| KList.List.Insert | kernel/structures/list.c:54-77 | the node is appended in both chains, or nothing changes |
| KList.List.Push | kernel/structures/list.c:79-101 | the node is prepended in both chains, or nothing changes |
| KList.List.InsertAfter | kernel/structures/list.c:103-124 | the list is left describing some sequence, the one with the new node in place, if and only if the node was the last or no node could be allocated |
| KList.InsertAfterBreaks | kernel/structures/list.c:103-124 | a list of two nodes that describes no sequence after an insertion behind the first |
| KList.List.InsertBefore | kernel/structures/list.c:126-147 | the list is left describing some sequence, the one with the new node in place, if and only if the node was the first or no node could be allocated |
| KList.InsertBeforeBreaks | kernel/structures/list.c:126-147 | a list of two nodes that describes no sequence after an insertion in front of the second |
| KList.List.Dequeue | kernel/structures/list.c:158-178 | exactly the node is taken out of both chains and detached |
| KList.List.Find | kernel/structures/list.c:180-191 | the first node with the data, NULL if there is none, never for NULL |
| KList.List.GetIndex | kernel/structures/list.c:193-206 | the node with the index, or NULL past the end |
| Calendar.DaysBeforeClosed | kernel/time.c:32-33 | the year-by-year day count is the closed form of section 4.16 of the POSIX.1-2017 Base Definitions |
| Calendar.Gmtime | kernel/time.c:76-103 | a valid date and time that means exactly the given second, for every 32-bit time |
| Calendar.SecondsOne | kernel/time.c:76-103 | at most one valid date and time means a given second |
| Calendar.MktimeDays | kernel/time.c:58-74 | all the 32-bit steps together are one reduction of a day count with a four-year cycle |
| Calendar.CycleAgrees | kernel/time.c:58-74 | the four-year cycle agrees with the calendar before 1 March 2100 and is one day ahead after |
| Calendar.MktimeRightIff | kernel/time.c:58-74 | mktime is right if and only if the time is before 1 March 2100, and a day ahead otherwise |
| Calendar.RoundTripSeconds | kernel/time.c:58-103 | mktime(gmtime(t)) = t if and only if t is before 1 March 2100, and t and one day otherwise |
| Calendar.RoundTripFields | kernel/time.c:58-103 | gmtime(mktime(tm)) has the fields of every valid tm from 1970 up to 1 March 2100 |
| Calendar.FirstWrongSecond | kernel/time.c:58-74 | 1 March 2100 comes out one day late |

## Left out

- The page source behind the heap (`liballoc_alloc`, `liballoc_free`, `first_n_frames`): a parameter with a contract.
- `kmalloc`, `kcalloc`, `kvalloc`: wrappers of `kmemalign`.
- Headers are records at addresses rather than raw bytes, so the type punning of a stale header by later user bytes is not modelled.
- KHeap.Heap.Kmemalign: only for the requests that can be dealt with, as `RequestSafeIff` shows; alignments that are neither 0 nor a power of two are not modelled.
- KHeap.Heap.Kfree: a pointer is NULL, live, or one whose recovered header is not marked live; a wild pointer whose header cannot be read is not modelled.
- HeapTheorems.FreeTwice: not for the last minor of a block, whose header goes back to the page source with the block.
- Spinlocks and interrupt masking around heap and list operations.
- Scheduler: how pids are chosen, the process tree, zombies, registers, stacks and the context switch itself; `reset_tasklet`, which only resets registers.
- Liveness of sleeping: the condition check and `sleep_thread` are separate steps, so that every sleeper is woken in time is not claimed; what is claimed of progress is who passes an attempt, where a thread sleeps, and that a lone writer gets in.
- Destroying mutexes and semaphores, and their allocation failures.
- BlkDev.Drive.ReadBlkdev: sector numbers fit 32 bits; that a successful transfer never frees its bounce buffer is not stated.
- BlkDev.Drive.WriteBlkdev: sector numbers fit 32 bits; after an error while filling the buffer only the frame is stated.
- Picking up requests (`next_ready_request_blkdev`), waiting for them, and the IDE driver.
- Page tables' physical addresses, the kernel-heap frames that hold the tables, `get_page`, `kernel_map`, `kernel_unmap`, `dm_frame`, `du_frame` and `init_paging`.
- Paging.Mmu.AllocFrame: running out of frames is the result false where the kernel panics.
- Fat.AllocClusters: the table is one buffer, so an allocation that has to read a second one is not modelled; nor is a new chain (chain_start 0), nor directories and file data.
- DevFs.FileSystem.Create: the parent is a listed directory.
- DevFs.FileSystem.Link: the child is a live inode; the code dereferences the result of its lookup.
- `chmod`, `chown`, `readdir` and the semaphores around devfs operations.
- `list_merge`, `list_remove` and `list_destroy`.
- The VFS layer, hash map, tree, printf, ELF loading, PCI, terminal, system calls, boot code and assembly.
