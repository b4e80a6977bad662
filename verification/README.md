# Perspicua kernel: verified models

Perspicua is an SMP kernel for AArch64. This project models its memory manager, scheduler, synchronisation, FAT32 driver
and three smaller state machines in Dafny, and proves what each of them keeps over whole runs. Every count (cores, tasks,
pages, clusters, lock nodes, cache entries) is a parameter, so each theorem is over an unbounded domain.

Verify with `dafny verify dfyconfig.toml`.

| files | what they model |
|---|---|
| Cow, CowProgress | copy-on-write address spaces and page counts, refined against fork by eager copy, and faults that let stores through |
| PageTable | the three-level user table against a flat map |
| Asid, AsidMachine, AsidLimits | the ASID pool, ghost TLBs on every core, and how many processes are isolated |
| Buddy, BuddyMath, Pmm | the binary buddy allocator, its doubly linked lists and boot distribution |
| HeapList, HeapSafety, HeapCycle, HeapPool | the coalescing first-fit heap, from list to headers in memory |
| Sched, SchedSafety, SchedProgress, RunQueue | the scheduler as interleaved steps, what it keeps and what it does, and its linked lists |
| WaitQueue, WaitMachine, WaitProgress, Mutex, Pipe | wait queues, the wait loop against its wakers, the sleeping mutex, pipes |
| LockGraph, Lockdep, LockOrder, LockLimits | the lock-order validator, its bit matrix, mutual exclusion and deadlock freedom |
| FatChain, FatGeometry, FatCrash, FatOps | cluster chains, mount geometry, crash ordering of directory operations |
| LongName, LongNameRead, LongNameIo | the long-name writer and reader |
| Signals, SignalsProgress | stop, continue and kill |
| BlockCache | the block cache: hash chains, recency list, write-through |
| Dates | FAT timestamps and civil dates |
| Common | an optional value and lists of distinct elements |

Concurrent code is a state machine: a state datatype, one predicate per atomic step (a compare-and-swap, a section under
a lock, a plain store, a context switch), an invariant kept by every step, and a theorem over all traces. Sequential code
that updates state in place is a class whose methods are proved against specification functions, and the properties are
proved of those functions.

Where the code does not give a property everywhere, the exact condition is proved, with an input where it fails:
`BuddySafety.HoldKeepsIff` and `HoldInside` (holding a page inside a block), `FatGeometry.LaidOutIff` with `TruncatedTable`
and `WrappedCluster` (devices larger than 2^32 blocks), `LongName.WriteAddsOneEntry` and `StaleReappears` (an entry hidden
behind an end marker), `LongName.PlainAddsOneEntry` with `LongNameRead.PlainUnlessOrphaned` and `OrphansRename` (orphan
fragments before a one-slot name), `FatOps.Volume.Remove`, `Truncate` and `RenameOver` with `FatCrash.SharedIsUnsafe` (a file
with two names), `Dates.StampRoundTrip` and `StampsThatMove` (years outside 1980 to 2107), `CowProgress.StoreReachable` (a
page shared by as many holders as a 16-bit count allows), `LockLimits.DeadlockFreeIff` with `OneMoreDeadlocks` (more locks
than the validator's table has rows), and `AsidLimits.IsolatedIffFewer` with `LateWriteReachable`: exec runs with interrupts
on, and a rollover between its read of the ASID and its write of TTBR0 lets another space's TLB entries be used. That takes
at least as many live processes as there are ASIDs, 256 with the reserved one: the default process table of 128 slots
(`CONFIG_MAX_PROCESSES`) never holds so many, a build with a table large enough for 256 live processes can. One condition is
one-way: deadlock freedom also needs that no interrupt comes between the validator's release and the store, and
`LockOrder.WindowDeadlocks` is a run that fails without it.

## Model

| member | source | states |
|---|---|---|
| `Cow.LoadsAgree` | kernel/mm/mmu.c:354-594 | Main theorem. After any run of map, unmap, store, fork, failed fork, destroy, page free and the steps of any number of concurrent write faults, every space has exactly the pages it would have if fork had duplicated them all, every byte is the same, and a store is permitted on the same pages |
| `Cow.RunRefines` | kernel/mm/mmu.c:781-831 | For-all-runs simulation: every reachable state keeps the invariant (a frame's count is the leaves naming it plus in-flight holds; a writable leaf is the only reference) and its view is the state of the eager-copy machine |
| `Cow.StepRefines` | kernel/mm/mmu.c:781-831 | One step of any kind keeps the invariant and is one step, or a stutter, of the eager machine |
| `Cow.StepStore` | kernel/mm/mmu.c:781-831 | A store through a writable leaf keeps the invariant, and no other leaf names the frame it writes |
| `Cow.StepFork` | kernel/mm/mmu.c:405-489 | Fork, which shares every page read-only on both sides and raises its count, keeps every count equal to the leaves and holds on the frame and every writable leaf sole |
| `Cow.StepForkFail` | kernel/mm/mmu.c:405-489 | A fork that runs out of memory after any part of the parent was shared, and is undone, keeps counts exact and writable leaves sole |
| `Cow.StepDestroy` | kernel/mm/mmu.c:354-403 | Tearing a space down leaves every remaining count exact and every writable leaf sole |
| `Cow.StepMap` | kernel/mm/mmu.c:491-549 | Mapping a fresh page over whatever was there keeps counts exact and writable leaves sole |
| `Cow.StepUnmap` | kernel/mm/mmu.c:551-594 | Unmapping keeps counts exact, the unmapped frame counting as held until it is freed |
| `Cow.StepHold` | kernel/mm/mmu.c:781-831 | Holding the source frame before the lock is dropped keeps counts exact, in-flight holds included |
| `Cow.StepPromote` | kernel/mm/mmu.c:781-831 | Promoting a leaf whose frame has one reference keeps every writable leaf the sole reference to its frame |
| `Cow.StepAlloc` | kernel/mm/mmu.c:781-831 | Allocating the copy's frame outside the lock keeps counts exact, the fault in flight holding it |
| `Cow.StepCopy` | kernel/mm/mmu.c:781-831 | Copying outside the lock keeps the invariant and writes a frame no leaf names, so no space sees it |
| `Cow.StepFinish` | kernel/mm/mmu.c:781-831 | Re-validation and the leaf's move to the copy, or the drop of the copy, keep counts exact and the writable leaf sole, and the copy's bytes are still the shared frame's; that the copy is installed is CowProgress.FinishOpens |
| `Cow.StepFree` | kernel/mm/pmm.c:448-491 | Dropping a reference frees a frame only when nothing names it: every mapped frame survives with its bytes |
| `CowProgress.StoreReachable` | kernel/mm/mmu.c:781-831 | Main theorem. After any run, a page that eager copying would let its owner write reaches, by the steps of one fault handler alone, a state in which a store of any byte anywhere in it goes through, if and only if it is writable already or its frame has a reference left to give; and no other page ever does |
| `CowProgress.HandlerOpensIff` | kernel/mm/mmu.c:781-831 | From any state that keeps the invariant, a handler alone opens a page to stores exactly when the page is writable, or copy-on-write with a count below the 16-bit limit |
| `CowProgress.PromoteOpens` | kernel/mm/mmu.c:795-801 | Promotion makes the entry writable and no longer copy-on-write on the same frame with the same attributes, changes nothing else, and every store to the page is then enabled |
| `CowProgress.FinishOpens` | kernel/mm/mmu.c:813-830 | If the entry is still the one that faulted, it becomes writable and no longer copy-on-write on the copy, with its attributes, and every store is then enabled; otherwise no entry changes |
| `SchedSafety.SafeEverywhere` | kernel/sched/sched.c:684-776 | Main theorem. In every state of every interleaving of schedule, steal, block, stop, exit, sleep, wake, continue and create steps on any number of cores: no task is current on two cores; each is linked at most once and only while READY (so a DEAD one is on no queue) and what may be dequeued has its registers saved; no READY task is lost; what is freed is DEAD, off every core, saved and never the running task; the double-dead panic is unreachable; nothing freed is still on a queue or a core |
| `SchedSafety.RunIsSafe` | kernel/sched/sched.c:684-776 | The inductive invariant behind it holds in every reachable state |
| `SchedSafety.CoreStepKeeps` | kernel/sched/sched.c:684-776 | Every step inside the scheduler, on any core, keeps the invariant and loses no READY task |
| `SchedSafety.TaskStepKeeps` | kernel/sched/sched.c:433-497 | Every compare-and-swap a running task makes on itself (block, stop, un-park, exit) and every sleep keeps the invariant and loses no task |
| `SchedSafety.WakerStepKeeps` | kernel/sched/sched.c:561-598 | Every step of a waker, a continuer or a creator keeps the invariant and loses no task |
| `SchedSafety.StepCleanup` | kernel/sched/sched.c:299-336 | Freeing the dead predecessor, after unlinking it from the sleep queue, keeps the scheduler invariant: nothing names a task that is gone |
| `SchedSafety.StepDrain` | kernel/sched/sched.c:235-259 | Taking a sleeper off and winning or losing its compare-and-swap keeps the scheduler invariant: no task gets two places |
| `SchedSafety.StepDequeue` | kernel/sched/sched.c:139-171 | A dequeue, by the owner or a thief, keeps the scheduler invariant: the chosen task has one place, is off every core and saved; which queues are tried is SchedProgress.IdleIsEarned and VictimsAll |
| `SchedSafety.StepRelease` | kernel/sched/sched.c:684-776 | Clearing the predecessor's core mark, on entry or on resumption, keeps the scheduler invariant: a task on no core is saved |
| `SchedSafety.StepSwitch` | kernel/sched/sched.c:684-776 | The context switch keeps the scheduler invariant: each task's core mark names the one core that holds it |
| `SchedSafety.StepWakeCas` | kernel/sched/sched.c:561-598 | Winning the compare-and-swap from BLOCKED or STOPPED keeps the scheduler invariant: the enqueue in flight is its only place |
| `SchedSafety.InvPlacesTasks` | kernel/sched/sched.c:120-171 | The invariant implies one core per task and one queue place per READY task |
| `SchedSafety.InvFreesRight` | kernel/sched/sched.c:299-336 | The invariant implies what is about to be freed is DEAD, present, off core and saved, and that a pending dead task is never overwritten |
| `SchedSafety.InvNoDangling` | kernel/sched/sched.c:299-336 | The invariant implies every task a queue, a core or the sleep queue names exists |
| `SchedProgress.IdleIsEarned` | kernel/sched/sched.c:725-738 | Main theorem. In every run, a core that ends a search with its idle task saw every queue, at some moment of that search, without a task it could take: on its own queue none off every core, on any other none that is also a user task |
| `SchedProgress.SearchTakes` | kernel/sched/sched.c:139-171 | In every run, a search that ends with another task took the first one of some queue that was READY, off every core and saved, a kernel task only from its own queue; the rest of every queue is unchanged |
| `SchedProgress.VictimsAll` | kernel/sched/sched.c:727-733 | Among the victims of one search every core is exactly once, its own last |
| `SchedProgress.NothingIsLeftBehind` | kernel/sched/sched.c:684-776 | Main theorem. In every state of every run every READY task has its place, every RUNNING one a core that has not given it up, every DEAD one a core that will free it, and every core can come out of the scheduler by its own steps with a RUNNING task of its own |
| `SchedProgress.SchedulerComesOut` | kernel/sched/sched.c:684-776 | From any state that keeps the invariant and any point inside the scheduler, the core's own steps lead out of it to a RUNNING task marked as its own |
| `SchedProgress.RunAttends` | kernel/sched/sched.c:706-723 | In every run a RUNNING task is current on, or chosen by, a core still committed to it, and a DEAD one is current before its core looks at it or pending to be freed |
| `SchedProgress.SleepersWake` | kernel/sched/sched.c:235-259 | In every run a BLOCKED sleeper leaves the sleep queue, unless by its own hand, only by becoming READY with a place from which it will be run |
| `SchedProgress.QueuesAreFifo` | kernel/sched/sched.c:120-171 | In every step of every run a task joins a run queue only at its end, at most one leaves, and those that stay keep their order |
| `RunQueue.RunQueue.Enqueue` | kernel/sched/sched.c:120-136 | The linked list gains a task at its tail, READY, and stays an acyclic list of distinct tasks |
| `RunQueue.RunQueue.Dequeue` | kernel/sched/sched.c:139-171 | The first task off every core (and not a kernel task, for a thief) is unlinked from wherever it stands; the others keep their order; null exactly when none qualifies |
| `RunQueue.SleepQueue.Unlink` | kernel/sched/sched.c:174-198 | Exactly the given task leaves, wherever it is; a task not on the queue changes nothing |
| `RunQueue.SleepQueue.Enqueue` | kernel/sched/sched.c:200-232 | A stale entry goes first; its task then stands behind exactly those due no later, so the queue stays sorted and names it once |
| `RunQueue.SleepQueue.TakeDue` | kernel/sched/sched.c:235-259 | The soonest sleeper leaves if it is due and becomes READY only if it was BLOCKED; null means nobody is due |
| `AsidLimits.IsolatedIffFewer` | kernel/mm/asid.c:31-118 | Main theorem. With n ASIDs, n at least 3, every run of at most k processes at a time, on any number of cores and with execs rescheduled anywhere, is isolated if and only if k is less than n |
| `AsidLimits.FewAreIsolated` | kernel/mm/asid.c:31-118 | With fewer processes than ASIDs, in every state of every run, a core running a space under an ASID has that space and tag in TTBR0 and no TLB entry with the tag left by another space, ASIDs in use are distinct, and no rollover has happened |
| `AsidLimits.LateWriteReachable` | kernel/sched/process.c:668-678 | The failing run, for any number of ASIDs from 3 on and as many processes: an exec is rescheduled between reading its ASID and writing TTBR0, the others use the ASIDs up and roll the generation over, the stale ASID is written and used, and its new holder then runs with a TLB entry under its own tag that another space left |
| `AsidMachine.RunIsIsolated` | kernel/mm/asid.c:31-118 | With any number of processes and rollovers: every run in which no exec writes to TTBR0 an ASID that a rollover has taken from it is isolated, and live processes of the current generation have distinct ASIDs |
| `AsidMachine.StepExecInstall` | kernel/mm/mmu.c:596-603 | Writing TTBR0 with an ASID that is still the process's keeps the invariant on every core |
| `AsidMachine.NextKeepsInv` | kernel/mm/asid.c:47-118 | Every step of every core, a late exec write excepted, keeps the invariant that ties TLB entries to the holder of their tag |
| `AsidMachine.GrantKeepsDistinct` | kernel/mm/asid.c:47-94 | A grant, with or without a rollover, leaves holders of the current generation distinct |
| `AsidMachine.GrantKeepsTlb` | kernel/mm/asid.c:47-94 | A core falls behind only when a broadcast has emptied its TLB, and catches up by flushing, so stale tags are never used |
| `AsidMachine.StepPick` | kernel/sched/sched.c:659-674 | Granting an ASID to the process about to run keeps the invariant on every core |
| `AsidMachine.StepExecRead` | kernel/sched/process.c:673-674 | Reading the ASID to flush keeps the invariant: from here on old entries may be under that tag only |
| `AsidMachine.StepExecFlush` | kernel/sched/process.c:674-678 | The flush that ends an exec keeps the invariant on every core, even if a rollover has given the process another ASID since it read the one it flushes |
| `AsidMachine.StepFree` | kernel/sched/process.c:746-759 | Freeing an ASID after leaving the space, with its broadcast invalidate, keeps the invariant on every core, so the ASID may be granted again |
| `AsidPool.GrantMeaning` | kernel/mm/asid.c:47-94 | Allocation never fails, keeps a current pair, otherwise grants the first free ASID and marks just that one, rolls over exactly when all are taken, flushes locally exactly when the core was behind, and moves no other core's mark |
| `AsidPool.AsidTable.GetFree` | kernel/mm/asid.c:31-45 | The word-and-bit search finds the first clear bit and sets it, or changes nothing when all are set |
| `AsidPool.AsidTable.Activate` | kernel/mm/asid.c:47-94 | The stateful routine computes the grant whose meaning GrantMeaning states |
| `AsidPool.AsidTable.Free` | kernel/mm/asid.c:96-118 | Only a pair of the current generation gives its bit back |
| `LockOrder.RunNeverDeadlocks` | kernel/core/lockdep.c:92-214 | While every lock is tracked, no state of a panic-free run has a circular wait among any number of cores, with interrupt handlers that take locks of their own nested on any core, even one that is spinning |
| `LockLimits.DeadlockFreeIff` | kernel/core/lockdep.c:47-214 | Main theorem. For two or more cores that may hold two locks each: no run over at most n locks ever has a circular wait if and only if n is at most the number of rows of the validator's table |
| `LockLimits.FewAreTracked` | kernel/core/lockdep.c:47-60 | In every run over no more locks than the table has rows every held lock is tracked |
| `LockLimits.OneMoreDeadlocks` | kernel/core/lockdep.c:47-60 | The failing run for any table size: with the table full, two cores take a tracked and an untracked lock in opposite orders, the validator sees neither order, and they wait for each other |
| `LockLimits.OneInside` | kernel/core/lock.c:30-63 | In every run, with handlers nested on any core, no two cores are inside the same lock |
| `LockOrder.StepInterrupt` | kernel/core/lock.c:30-50 | An interrupt that comes while a core spins or runs keeps the invariant, the interrupted wait put aside |
| `LockOrder.StepReturn` | kernel/core/lock.c:30-76 | A handler that has released what it took resumes the interrupted wait and keeps the invariant |
| `LockOrder.WindowDeadlocks` | kernel/core/lock.c:52-63 | The failing run without the restriction on interrupts: one between the validator's release and the store, whose handler asks for the same lock, makes a core wait for itself |
| `LockOrder.RunIsExact` | kernel/core/lockdep.c:121-163 | In every state of every panic-free run the bit matrix is exactly the transitive closure of the observed pairs and is irreflexive, and the next acquisition reports a cycle exactly when its pairs would close one |
| `LockOrder.AcquireExact` | kernel/core/lockdep.c:92-171 | What one acquisition does: each panic under exactly its condition, otherwise the closure of the enlarged pairs |
| `LockGraph.JoinCloses` | kernel/core/lockdep.c:121-163 | One incremental update turns the exact closure of an acyclic relation into the exact closure with one more pair, still acyclic, when there is no edge back |
| `LockGraph.EdgeBackIsCycle` | kernel/core/lockdep.c:121-163 | An edge back is a real cycle in the observed pairs, so the panic is never a false alarm |
| `Lockdep.RecordExact` | kernel/core/lockdep.c:121-163 | Recording all held locks reports a cycle exactly when the new pairs have one, and otherwise leaves the exact closure |
| `Lockdep.Validator.SetEdge` | kernel/core/lockdep.c:37-45 | Setting one bit of the packed matrix sets that edge and no other |
| `Lockdep.Validator.GetOrCreateNode` | kernel/core/lockdep.c:47-60 | A known lock keeps its number, a new one gets the next, and a full table answers -1 |
| `Lockdep.Validator.Close` | kernel/core/lockdep.c:139-163 | The in-place row updates add exactly the pairs through the new edge, although they read rows they are changing |
| `Lockdep.Validator.AcquireLock` | kernel/core/lockdep.c:92-171 | The stateful acquire gives the verdict and the state of its specification, whose exactness AcquireExact states |
| `Lockdep.Validator.ReleaseLock` | kernel/core/lockdep.c:173-214 | The last occurrence of the lock leaves the core's held list, the rest in order; reports whether it was held |
| `WaitMachine.NoLostWakeup` | kernel/include/sched/wait.h:46-91 | Main theorem. In every interleaving, once a waker that made the condition true has finished waking and nobody consumed the condition meanwhile, no task that found it false is still asleep |
| `WaitMachine.QuietMeansAwake` | kernel/include/sched/wait.h:46-91 | Whenever the condition is true and no waker is at work, nobody is asleep on it |
| `WaitMachine.ParkedIsLinked` | kernel/sched/wait.c:23-139 | A parked task is on the queue or in a waker's batch exactly once, and no waker holds an entry whose waiter has left |
| `WaitMachine.RunKeeps` | kernel/sched/wait.c:23-139 | Linking and the debt of wakes are invariants of every run |
| `WaitProgress.LeavesForCause` | kernel/include/sched/wait.h:46-92 | In every run a wait ends well only when the waiter, still linked, has itself just seen the condition true, and badly only when it has just seen it false |
| `WaitProgress.WakeIsServed` | kernel/include/sched/wait.h:85-87 | In every step of every run a wake stays with its task, or the task goes on to test the condition again, or leaves having found it true, or gives up and hands the wake to the first in the queue, which is then awake |
| `WaitProgress.EveryWaiterGetsOut` | kernel/include/sched/wait.h:46-92 | In every state of every run in which the condition is true and no waker is at work, every waiter's own steps take it out of the loop |
| `WaitQueue.Queue.Prepare` | kernel/sched/wait.c:23-56 | Links an entry at the tail unless it is linked already, and blocks its task only from RUNNING |
| `WaitQueue.Queue.Finish` | kernel/sched/wait.c:58-94 | Unlinks the entry from wherever it is, or nothing if a waker took it, and un-blocks its task |
| `WaitQueue.Queue.WakeOne` | kernel/sched/wait.c:96-119 | The first entry is detached, marked woken and its task un-blocked; the rest are untouched; false exactly on an empty queue |
| `WaitQueue.Queue.WakeAll` | kernel/sched/wait.c:121-139 | Every entry is detached, marked woken and its task un-blocked, and the queue is empty |
| `Mutex.MutexIsSafe` | kernel/core/mutex.c:27-86 | Main theorem. In every reachable state one task at most is inside, the depth is its outstanding acquisitions, and a sleeper on a free mutex always has a pending wake or an awake contender |
| `Mutex.UnlockOutcome` | kernel/core/mutex.c:56-86 | Unlock panics exactly when the caller has no outstanding acquisition and wakes exactly when it gives up its last |
| `Mutex.StepKeepsProgress` | kernel/core/mutex.c:45-86 | No step leaves a sleeper stranded on a free mutex |
| `Mutex.WakeKeepsProgress` | kernel/sched/wait.c:96-119 | A wake hands the duty on to whichever task it wakes |
| `Mutex.LockUnlock` | kernel/core/mutex.c:27-86 | An acquisition that succeeds and the release that follows it leave the mutex as it was, and the release frees it exactly when it was free |
| `Mutex.Kmutex.DoTryLock` | kernel/core/mutex.c:27-43 | In terms of the acquisitions each task has to give back: it succeeds exactly when nobody else has any, then the caller has one more; nobody else's count changes, and a refusal changes none |
| `Mutex.Kmutex.DoUnlock` | kernel/core/mutex.c:56-86 | The caller has one acquisition fewer and nobody else's count changes; it reports Released exactly when nobody has any left, and panics exactly when the caller had none, telling a free mutex from another's |
| `PipeMachine.PipeIsSafe` | kernel/fs/pipe.c:44-185 | Main theorem. Over every run with any number of readers and writers, bytes delivered followed by bytes buffered are exactly the bytes accepted, in order; a non-empty pipe has no queued reader, a non-full one no queued writer; the last-close panic is unreachable |
| `PipeMachine.EndOfStream` | kernel/fs/pipe.c:44-89 | In every state of every run a read that asks for bytes returns none without waiting exactly when no writer is left and every byte ever accepted has been delivered |
| `Pipe.ReadOutcome` | kernel/fs/pipe.c:44-89 | Each outcome of a read section by the pipe's value: bytes exactly when there are some, none are wanted or no writer is left, the oldest ones in order and as many as wanted or there; otherwise refused, interrupted or waiting, with nothing taken |
| `Pipe.WriteOutcome` | kernel/fs/pipe.c:91-141 | Each outcome of a write section: broken exactly when there is something to write and no reader; otherwise what fits is appended in order and only a full pipe is refused, interrupted or waited for |
| `PipeMachine.ReadKeepsInv` | kernel/fs/pipe.c:44-89 | A read section keeps the stream, the queues and the roles |
| `PipeMachine.WriteKeepsInv` | kernel/fs/pipe.c:91-141 | A write section keeps the stream, the queues and the roles |
| `PipeMachine.CloseKeepsInv` | kernel/fs/pipe.c:143-185 | A close wakes whoever must see it and never meets the panic |
| `Pipe.Buffer.CopyOut` | kernel/fs/pipe.c:44-89 | The ring copy takes exactly the oldest bytes asked for, in order |
| `Pipe.Buffer.CopyIn` | kernel/fs/pipe.c:91-141 | The ring copy appends as many bytes as fit, in order |
| `Pipe.Buffer.Read` | kernel/fs/pipe.c:44-89 | The stateful read section computes its specification on the ring |
| `Pipe.Buffer.Write` | kernel/fs/pipe.c:91-141 | The stateful write section computes its specification on the ring |
| `Pipe.Buffer.DoClose` | kernel/fs/pipe.c:143-185 | The stateful close computes its specification, panic included |
| `BuddySafety.RunKeepsInv` | kernel/mm/pmm.c:376-519 | Main theorem. From the memory boot leaves (Distribute), after any sequence of allocations, frees and holds of block heads, reserved pages, free blocks and allocated blocks partition memory, blocks are aligned, no two free buddies are unmerged, the lists hold exactly the free blocks and the counter is their size |
| `BuddySafety.AllocKeeps` | kernel/mm/pmm.c:376-437 | Allocation fails exactly for zero pages or when every free block is too small; otherwise it hands out a block of the least sufficient order from free memory and disturbs no other allocation |
| `BuddySafety.FreeKeeps` | kernel/mm/pmm.c:448-491 | Each outcome has its exact condition and its exact effect on the count: the last reference returns the whole block, every page of which is then in a free block, any other lowers the count by one, a refused free changes nothing; other blocks are untouched |
| `BuddySafety.InsertKeeps` | kernel/mm/pmm.c:162-187 | The merging loop keeps the partition and leaves no mergeable pair |
| `BuddySafety.SplitKeeps` | kernel/mm/pmm.c:376-437 | Splitting down hands back upper halves, keeps partition, coalescing and the count, and disturbs no allocation |
| `BuddySafety.HoldKeepsIff` | kernel/mm/pmm.c:493-519 | Holding keeps the invariant if and only if the page is outside memory, reserved, a free head or an allocated head |
| `BuddySafety.HoldInside` | kernel/mm/pmm.c:493-519 | The failing input: holding the second page of an allocated two-page block succeeds and leaves memory no partition describes |
| `BuddySafety.CountIsAccount` | kernel/mm/pmm.c:448-518 | In every run, while a block is allocated its count is what it was plus the holds taken less the frees, whatever else is allocated, held or freed meanwhile |
| `BuddySafety.ReturnedByTheLast` | kernel/mm/pmm.c:448-518 | In every run a block with one reference is returned exactly when there has been one free more than holds since, by that free and by none before it |
| `BuddySafety.HoldThenFree` | kernel/mm/pmm.c:448-518 | A hold of an allocated block and a free give back the same memory, with the block still held |
| `BuddySafety.BootInserts` | kernel/mm/pmm.c:339-361 | Boot hands the next aligned block without reserved pages to the free lists and keeps the partial partition |
| `BuddySafety.BootDone` | kernel/mm/pmm.c:339-361 | When every page is distributed the invariant holds |
| `BuddyMath.BuddyFacts` | kernel/mm/pmm.c:162-187 | The buddy is the neighbour that completes the block of the next order, and the relation is symmetric |
| `Pmm.Allocator.GetOrder` | kernel/mm/pmm.c:65-82 | The loop finds the least order that is large enough, or one past the largest |
| `Pmm.Allocator.ListAdd` | kernel/mm/pmm.c:129-139 | The doubly linked list gains the page at its head; every other list is unchanged |
| `Pmm.Allocator.ListDel` | kernel/mm/pmm.c:141-160 | The page leaves its list, both neighbours relinked; every other list is unchanged |
| `Pmm.Allocator.FreeBuddyInternal` | kernel/mm/pmm.c:162-187 | The loop over arrays computes the recursive insertion that InsertKeeps is about |
| `Pmm.Allocator.BlockAt` | kernel/mm/pmm.c:339-361 | The largest aligned block at a page that stays inside memory and off the reserved ranges |
| `Pmm.Allocator.Distribute` | kernel/mm/pmm.c:339-361 | The boot loop ends with the allocator's invariant, a page being left out exactly when it is reserved |
| `Pmm.Allocator.AllocPages` | kernel/mm/pmm.c:376-437 | The stateful allocation computes its specification and keeps the invariant |
| `Pmm.Allocator.FreePages` | kernel/mm/pmm.c:448-491 | The stateful free computes its specification, panics included, and keeps the invariant |
| `Pmm.Allocator.HoldPage` | kernel/mm/pmm.c:493-519 | A hold raises exactly this page's count by one and changes nothing else; ignored exactly outside managed memory, panicking exactly on a free head and on a full count, changing nothing then; the invariant is kept for a block head |
| `Reserved.OverlapsPageByPage` | kernel/mm/pmm.c:89-127 | A run of pages meets the reserved ranges exactly when one of its pages does |
| `Reserved.RangeOverlaps` | kernel/mm/pmm.c:95-122 | The scan of the table decides overlap |
| `Reserved.ReserveRange` | kernel/mm/pmm.c:189-235 | The table then claims the old bytes and the new ones, its ranges stay apart and in bounds; the panic fires exactly on a full table or after boot |
| `HeapSafety.HeapAccounts` | kernel/mm/heap.c:58-283 | Main theorem. Over every run the free list is address-ordered with no two blocks touching, live blocks are apart, free and live never share a byte, and headers, payloads, footers and free space add up to the total |
| `HeapSafety.RunKeepsInv` | kernel/mm/heap.c:162-283 | The pool invariant, alignment included, holds after any sequence of allocations and frees of live pointers |
| `HeapSafety.MallocKeepsInv` | kernel/mm/heap.c:162-239 | Allocation fails exactly on a bad size or when neither the list nor the page allocator can serve it; otherwise, after at most one expansion, it grants a 16-byte aligned block of at least the size, with less than a header and 16 bytes to spare, in space that was not live |
| `HeapSafety.ExpandFits` | kernel/mm/heap.c:58-92 | One expansion is always enough for the request that caused it |
| `HeapSafety.FreeKeepsInv` | kernel/mm/heap.c:241-283 | A freed block goes back whole and the account still balances |
| `HeapCycle.MallocThenFree` | kernel/mm/heap.c:162-283 | Main theorem. An allocation and the free of what it returned leave the heap exactly as it was, list, counters and all, or as grown by one region if it had to grow |
| `HeapCycle.HistoryDoesNotMatter` | kernel/mm/heap.c:100-136 | Two heaps with the same regions and the same addresses allocated have the same free list, however they came about: coalescing is complete |
| `HeapCycle.FreeMeaning` | kernel/mm/heap.c:241-283 | A free makes exactly its block no longer allocated and exactly its addresses free, and lowers the bytes in use by payload and header |
| `HeapCycle.MallocIsFirstFit` | kernel/mm/heap.c:186-227 | The block comes from the lowest free address at which the request fits |
| `HeapCycle.PagesAreLeast` | kernel/mm/heap.c:58-75 | A growth takes the least power of two of pages that serves the request |
| `HeapList.InsertIsGood` | kernel/mm/heap.c:100-136 | Insertion keeps the list strictly ordered with no two blocks touching |
| `HeapList.InsertBytes` | kernel/mm/heap.c:100-136 | Insertion adds the block's bytes, no more and no fewer, merging or not |
| `HeapList.InsertOccupies` | kernel/mm/heap.c:100-136 | Insertion makes exactly the block's addresses free |
| `HeapPool.Pool.InsertFree` | kernel/mm/heap.c:100-136 | The linked headers in memory become the inserted list, and no other header changes beyond the links |
| `HeapPool.Pool.Alloc` | kernel/mm/heap.c:162-239 | The header-level allocation computes the specification that MallocKeepsInv is about |
| `HeapPool.Pool.Init` | kernel/mm/heap.c:138-148 | The pool after start-up is what one expansion brings to nothing, and satisfies the invariant |
| `HeapPool.Pool.Search` | kernel/mm/heap.c:162-239 | The walk finds the first block that is large enough and the header before it |
| `HeapPool.Pool.RoundPages` | kernel/mm/heap.c:58-92 | The doubling loop computes the page count that ExpandFits is about |
| `HeapPool.Pool.Release` | kernel/mm/heap.c:241-283 | Done, overflow and double free each under exactly its condition; the panics change nothing; otherwise the block is freed as specified |
| `FatTable.Table.AllocateCluster` | kernel/fs/fat32.c:330-368 | The first free cluster in search order from the hint is marked end-of-chain and the hint moves past it; 0 exactly when the table is full |
| `FatChain.VisitsAll` | kernel/fs/fat32.c:330-368 | From any hint the search looks at every cluster exactly once |
| `FatTable.Table.ExtendChain` | kernel/fs/fat32.c:402-417 | The first free cluster goes behind the last one: exactly this chain gains it and every chain apart from it is untouched; 0 exactly when the table is full or the last cluster is not one, and then nothing has changed |
| `FatTable.Table.FreeChain` | kernel/fs/fat32.c:1527-1538 | The loop ends on every table, cyclic ones included, and frees exactly the chain when there is one |
| `FatChain.ReleasedIsZeroed` | kernel/fs/fat32.c:1527-1538 | On a well-formed chain releasing zeroes that chain and nothing else |
| `FatChain.ReleasedOnlyFrees` | kernel/fs/fat32.c:1527-1538 | On any table releasing only ever frees |
| `FatChain.ExtendIsChain` | kernel/fs/fat32.c:402-417 | Linking a free cluster behind the last extends this chain and keeps all chains apart |
| `FatChain.CutIsChain` | kernel/fs/fat32.c:2394-2469 | Ending a chain early leaves the kept part a chain |
| `FatTable.Table.GetNext` | kernel/fs/fat32.c:260-276 | An invalid cluster reads as end-of-chain, a valid one as its masked entry |
| `FatTable.Table.SetEntry` | kernel/fs/fat32.c:283-310 | Every copy of the table gets the entry; an invalid cluster is refused and changes nothing |
| `FatGeometry.LaidOutIff` | kernel/fs/fat32.c:2533-2603 | Main theorem. For every accepted volume, table copies, table and cluster sectors are apart and on the device, and different clusters on different sectors, if and only if the last sector in use, computed from the boot sector and the device size, is below 2^32 |
| `FatGeometry.GeometryApart` | kernel/fs/fat32.c:2533-2603 | So a device of at most 2^32 blocks is always laid out so, and the root and every cluster number are in range |
| `FatGeometry.MountsIff` | kernel/fs/fat32.c:2533-2603 | A volume is mounted if and only if its boot sector is in order and its root directory's cluster has a number, sectors on the device and an entry in the table; then the root, the sizes and the start addresses are the boot sector's, and the clusters in use are exactly those that can be used |
| `FatGeometry.TruncatedTable` | kernel/fs/fat32.c:2533-2603 | A concrete larger device that is accepted although its start addresses are cut: its table aliases sector 0 and the layout fails |
| `FatGeometry.WrappedCluster` | kernel/fs/fat32.c:2533-2603 | A concrete larger device whose start addresses are exact and whose last clusters wrap all the same: the layout fails |
| `FatOps.Volume.Remove` | kernel/fs/fat32.c:1849-1933 | Unlink and rmdir: every sector write leaves a safe disk (no live entry reaches a free cluster, chains are disjoint and cover their sizes, the root's included) if and only if no chain is freed or the entry was its only name; the final state and each refusal are exact, an open file keeps its chain, unique names stay unique |
| `FatOps.Volume.Truncate` | kernel/fs/fat32.c:2394-2469 | A shrinking truncate writes the entry first and then frees exactly the clusters past the last kept one; every write is safe if and only if no other name of the file says more than the kept clusters; growing is refused, unique names stay unique |
| `FatOps.Volume.RenameOver` | kernel/fs/fat32.c:2064-2170 | A rename over a target: at every write the file is under one of its two names, the replaced chain is released last and exactly then, and every write is safe if and only if no chain is released or no third entry names it; unique names stay unique |
| `FatOps.Volume.RenameNew` | kernel/fs/fat32.c:2064-2170 | A rename to a new name in a directory that need not grow: long-name slots, then the entry, then the old name goes; every write is safe and the file is under one of its names; unique names stay unique |
| `FatOps.Volume.SetDotDot` | kernel/fs/fat32.c:2046-2062 | Repointing a moved directory's parent entry is safe and changes only that slot |
| `FatOps.Volume.FreeChain` | kernel/fs/fat32.c:1527-1538 | Exactly the chain is freed, in every copy of the table, and if no live entry meets it every write leaves the disk safe |
| `FatOps.Volume.PerformAll` | kernel/fs/fat32.c:2064-2170 | From a safe disk on which no two entries name the same file, any sequence of removes, truncates, renames and parent updates leaves a safe disk at every sector write of every one of them, names stay unique, the root stays named, and each operation has exactly its effect on slots and table or is refused |
| `FatOps.UniqueIsEnough` | kernel/fs/fat32.c:2064-2170 | While no two entries name the same file the safety conditions of all the operations hold |
| `FatCrash.SlotWriteKeepsSafe` | kernel/fs/fat32.c:1055-1103 | A directory write that adds no live entry keeps the disk safe |
| `FatCrash.FatWriteKeepsSafe` | kernel/fs/fat32.c:283-310 | A table write outside every live chain keeps the disk safe, between copies too |
| `FatCrash.NamelessIsClear` | kernel/fs/fat32.c:1870-1918 | Once its only name is gone no live entry meets a file's chain |
| `FatCrash.CutKeepsSafe` | kernel/fs/fat32.c:2394-2469 | Ending a chain early is safe once the size under every name of the file says so, and clears the rest |
| `FatCrash.CutIsUnsafe` | kernel/fs/fat32.c:2394-2469 | A name that says more than the kept clusters leaves an unsafe disk |
| `FatCrash.SharedIsUnsafe` | kernel/fs/fat32.c:2064-2170 | Between the two directory writes of a rename the disk is safe but the file has two names; an unlink of either after a crash there leaves an unsafe disk |
| `LongName.RoundTrip` | kernel/fs/fat32.c:1546-1634 | Main theorem. A name of 1 to 255 non-NUL bytes standing anywhere in a directory reads back exactly, with exactly its own slots, whatever fragments precede it |
| `LongNameRead.WalkShowsRight` | kernel/fs/fat32.c:1123-1172 | Main theorem. Of any slots: each entry before the end marker is shown once, under a long name if and only if a whole run of fragments, numbered down to 1 from a flagged first one and all with the entry's checksum, stands right before it; then under the name they spell, with exactly their slots |
| `LongNameRead.PlainUnlessOrphaned` | kernel/fs/fat32.c:1123-1172 | A one-slot name reads without a long name if and only if no whole run with its checksum stands right before it |
| `LongName.ChecksumTells` | kernel/fs/fat32.c:1103-1121 | Short names that differ in one byte have different sums, so the sum depends on every byte |
| `LongName.ChecksumOfQuickFox` | kernel/fs/fat32.c:1103-1121 | The short name THEQUI~1.FOX has the sum 7 |
| `LongName.WriteAddsOneEntry` | kernel/fs/fat32.c:1458-1525 | Writing a long name over the free run its search stopped at, every end marker passed on the way claimed: without a marker up to the run's end exactly its entry is added and no other reads differently; otherwise that holds if and only if no entry stands between the first marker and the run, and none behind the run before another marker |
| `LongName.PlainAddsOneEntry` | kernel/fs/fat32.c:1458-1525 | The same for a name that fits 8.3; when it reads without a long name is LongNameRead.PlainUnlessOrphaned |
| `LongName.OrphansRename` | kernel/fs/fat32.c:1169-1172 | The failing input: an orphan run gives its name to the one-slot entry written behind it |
| `LongName.CreateInZeroed` | kernel/fs/fat32.c:1409-1525 | In a directory with only end markers behind the first, as the driver zeroes them, a create at the run its search finds adds exactly its entry, long or one-slot, and the directory stays so |
| `LongName.FailedSearchReads` | kernel/fs/fat32.c:1409-1447 | A search that finds no room leaves the directory reading as before if and only if no entry stands behind its end marker |
| `LongName.GrowthReads` | kernel/fs/fat32.c:1636-1654 | Growing a directory by zeroed slots changes nothing it shows, keeps it zeroed, and enough of them make room for any name |
| `LongName.StaleReappears` | kernel/fs/fat32.c:1409-1447 | Two failing inputs: a stale entry behind the end marker a name takes, and one behind a marker the search claimed in a run it then gave up, come back |
| `LongName.CompleteRun` | kernel/fs/fat32.c:492-521 | After the last fragment the buffer spells the name, terminator and padding included |
| `LongName.ScanWritten` | kernel/fs/fat32.c:1148-1172 | Scanning from any fragment of a written name, in any state its earlier fragments leave, ends with the name |
| `LongNameIo.ChecksumOf` | kernel/fs/fat32.c:1110-1121 | The rotating byte loop computes the checksum of name and extension |
| `LongNameIo.ExtractPart` | kernel/fs/fat32.c:492-521 | Thirteen characters land at their place, never past the buffer; a sequence number out of range writes nothing |
| `LongNameIo.WriteEntries` | kernel/fs/fat32.c:1458-1525 | The loop writes exactly the slots the round trip is about |
| `LongNameIo.FindSlots` | kernel/fs/fat32.c:1409-1447 | The search stops at the first run of enough free slots, fragments and entries breaking runs, with exactly the end markers before its last slot claimed; it fails exactly when there is no such run, all markers claimed |
| `LongNameIo.Create` | kernel/fs/fat32.c:1458-1525 | The name's slots go over the first run that holds them and nothing else changes but the claimed markers; a name over 255 bytes is refused untouched |
| `LongNameIo.Walk` | kernel/fs/fat32.c:1546-1657 | Walking clusters, sectors and slots is scanning one run of slots, so names may straddle any boundary; the walk fails exactly when there are more clusters than the cap and none visited ends the directory |
| `PageTable.Space.MapPage` | kernel/mm/mmu.c:491-549 | Only this page's translation changes, to the masked address requested, and it is then open to user reads and writes exactly as its bits say; the frame it displaced is reported; out of memory exactly when a missing table cannot be had, the panic exactly when a block must be split without a page for its table, and then no translation changes |
| `PageTable.Space.UnmapPage` | kernel/mm/mmu.c:551-594 | The page is unmapped, its frame reported, every other translation stays; the panic exactly when a block must be split without a page for its table |
| `PageTable.Space.Query` | kernel/mm/mmu.c:691-745 | The three-level walk answers what the flat map says for any address, its page offset added, with the page-type bit exactly when no 2 MB block maps it |
| `PageTable.Space.RangeOk` | kernel/mm/mmu.c:629-675 | The block-skipping walk accepts a range if and only if it is not empty and every page it meets is mapped with USER set and, for a write, with RO clear or COW set |
| `PageTable.MappedPasses` | kernel/mm/mmu.c:605-620 | A page mapped with given bits passes a check exactly when USER is set and, for a write, RO is clear or COW set |
| `PageTable.Space.SplitBlock` | kernel/mm/mmu.c:95-121 | Splitting a 2 MB block keeps every translation of the space |
| `PageTable.SplitKeeps` | kernel/mm/mmu.c:95-121 | The split keeps the tree shape and each page's address and attributes apart from the page-type bit |
| `PageTable.SplitStaysInField` | kernel/mm/mmu.c:95-121 | The pages of an aligned block stay inside the 48-bit address field, in the same 2 MB; the table invariant gives the alignment for every block that is split |
| `PageTable.LeafInField` | kernel/mm/mmu.c:491-549 | Every translation of a well-formed space is a page-aligned address the field can hold, so no attribute bit is ever disturbed |
| `PageTable.PutLeaf` | kernel/mm/mmu.c:491-594 | A store to a last-level entry moves one page's translation |
| `PageTable.IndicesAreThePage` | kernel/mm/mmu.c:491-549 | Table indices and page numbers below 2^27 are in bijection |
| `PageTable.OtherPagesStay` | kernel/mm/mmu.c:491-594 | A change at one page's indices changes no other page |
| `Signals.StopsAreOverridden` | kernel/core/signals.c:144-181 | Main theorem. In every run, a continue and a stop are never pending together, and whenever the table lock is free a stopped process has neither a kill nor a continue pending |
| `SignalsProgress.KillIsFatal` | kernel/core/signals.c:116-184 | Main theorem. In every state of every run with the lock free and a kill pending, the target is not stopped and, unless it sleeps, its own steps of delivery end it |
| `SignalsProgress.SendEffect` | kernel/core/signals.c:325-360 | A send makes its signal pending unless the disposition drops it, cancels what it conflicts with, resumes a stopped process for a continue or a kill whatever the disposition, wakes a blocked one for a signal that became pending, and changes nothing else |
| `SignalsProgress.SendCompletes` | kernel/core/signals.c:388-402 | With the lock free, a send to any live process can go through |
| `SignalsProgress.FatalEnds` | kernel/core/signals.c:116-184 | A delivered signal left to a default action other than stop, continue and ignore ends the process |
| `SignalsProgress.ExitingIsFinal` | kernel/core/signals.c:183 | In every run a process on its way out stays so |
| `SignalsProgress.StopsOrNot` | kernel/core/signals.c:143-180 | A stop that reaches its critical section stops the process if and only if neither a continue nor a kill is pending, and gives up the lock either way |
| `SignalsProgress.TakesLowest` | kernel/core/signals.c:119-127 | In every run the signal a process takes is the lowest of those pending and not blocked |
| `SignalsProgress.TakingEffect` | kernel/core/signals.c:124-255 | Taking a signal leaves just that one no longer pending; by its disposition the process goes on, goes on to stop, or enters its handler with the handler's mask added, SIGKILL and SIGSTOP never blocked, and the disposition reset if asked |
| `SignalsProgress.FaultIsDeliverable` | kernel/core/signals.c:362-386 | After a synchronous fault its signal is pending, unblocked and not ignored, a handler stays if it could be reached, and no other signal is affected |
| `Signals.RunKeepsInv` | kernel/core/signals.c:325-402 | The invariant behind it, which also covers a stop that races a sender on another core, holds in every reachable state |
| `Signals.SenderKeeps` | kernel/core/signals.c:325-402 | Every step of a sender under the lock keeps it, to one process or a group |
| `Signals.StopKeeps` | kernel/core/signals.c:116-181 | Every step of delivery keeps it: reading the signal, clearing its bit whatever senders did meanwhile, and the stop branch with its lock, its look for an override, the compare-and-swap and the retry |
| `Signals.TurnKeeps` | kernel/sched/sched.c:582-598 | Scheduling steps, a continue's effect included, keep it |
| `Signals.CallKeeps` | kernel/core/signals.c:362-386 | Faults, new dispositions, masks, exec and fork keep it |
| `BlockCache.Cache.ReadBlock` | kernel/driver/block.c:99-225 | A successful read returns what the device holds now and makes the block the most recent; a device error and each shortage of memory have their exact conditions; only the least recently used entry can be displaced, and only when the cache is full |
| `BlockCache.Cache.Read` | kernel/driver/block.c:99-225 | A run of blocks reads as the device's contents, up to the first block that is missing, that the device refuses or that finds no memory |
| `BlockCache.Cache.Write` | kernel/driver/block.c:227-249 | The device gets the blocks and every cached copy of them follows; a failed write changes nothing |
| `BlockCache.Cache.LruRemove` | kernel/driver/block.c:46-61 | The entry leaves the doubly linked list wherever it stands; the links, head and tail are those of the list without it |
| `BlockCache.Cache.LruAddHead` | kernel/driver/block.c:63-74 | The entry becomes the first; the links, head and tail are those of the longer list |
| `BlockCache.Cache.Lookup` | kernel/driver/block.c:76-89 | The walk along the hash links finds a hit exactly when the key is cached and moves it to the front of the linked list |
| `BlockCache.Cache.Unhash` | kernel/driver/block.c:178-185 | The walk through the links takes exactly the victim off its hash chain; every other chain is untouched |
| `BlockCache.Cache.Evict` | kernel/driver/block.c:99-225 | The entry at the tail, the least recently used, leaves the recency list and its hash chain, and only it |
| `BlockCache.HashedOut` | kernel/driver/block.c:99-225 | Removing an entry from its chain keeps the chains exactly the entries by hash |
| `BlockCache.HashedIn` | kernel/driver/block.c:99-225 | So does putting a new one at the front of its chain |
| `Dates.CivilRoundTrip` | kernel/fs/fat32.c:1009-1043 | The stamp code's civil date is a date of the Gregorian calendar, month lengths and leap years included, and fed back to the days function is the day it came from, for every day from 1970 on |
| `Dates.DaysRoundTrip` | kernel/core/timer.c:155-168 | The converse: every date of the calendar from 1970 on, turned to days and back, is that date |
| `Dates.DaysCount` | kernel/core/timer.c:155-163 | Day numbers count days: 1 January 1970 is 0, and the calendar's next day has the next number, for every date |
| `Dates.StampRoundTrip` | kernel/fs/fat32.c:2243-2260 | A stamp decodes to its second rounded down to even if and only if its day number is from 3652 on and before 50403, which is the years 1980 through 2107 |
| `Dates.StampBack` | kernel/fs/fat32.c:1009-1043 | The converse trip: every stamp whose fields are a calendar date and a time of the day is the stamp of the instant it decodes to |
| `Dates.StampsThatMove` | kernel/fs/fat32.c:2243-2260 | Failing instants on either side: the first of 1970 and the first of 2108 |
| `Dates.DecodeStamp` | kernel/fs/fat32.c:2243-2260 | What every stamp decodes to: years before 1980 are clamped, years past 2107 wrap |
| `Dates.StampFields` | kernel/fs/fat32.c:1009-1043 | Each packed field reads back as the civil field it came from |
| `Dates.YearOfDay` | kernel/fs/fat32.c:1009-1043 | The year formula gives the year of every day of a 400-year era |
| `Dates.DaysGrow` | kernel/core/timer.c:155-168 | Day numbers grow strictly with the year |

## Left out

- Barriers, cache maintenance, weak memory and speculative table walks: memory is sequentially consistent, a compare-and-swap or a locked section is one step, and TLBs fill only on user accesses.
- Copy-on-write of 2 MB user blocks and of unmanaged pages, which stay shared by design, and the remapping of ELF segments.
- TLB maintenance inside page-table updates; the addresses of new table pages and their supply are parameters.
- The ASID generation counter and scheduler deadlines are unbounded numbers.
- The order of sleepers in the scheduler machine is arbitrary; the sorted list is proved in RunQueue. The machine and the linked lists are separate models, and so are the wait machine and its linked queue.
- RunQueue.SleepQueue.Enqueue: compares deadlines as unbounded numbers, so the signed wrap-around of the millisecond clock is not modelled.
- RunQueue.SleepQueue.TakeDue: one turn of the drain under its lock; the enqueue that follows it outside the lock is a step of the scheduler machine.
- The validator's own raw lock and its per-core re-entry flag: a call is one step.
- LockOrder.RunNeverDeadlocks: locks a full table does not track are outside it; a handler releases only locks it took, and no interrupt comes between the validator's release and the store (LockOrder.WindowDeadlocks shows why; locks taken with interrupts masked have that).
- HeapPool.Pool.Release: payload bytes never overwrite a stale header in the model, so a pointer into the middle of a reused block that happens to read as a header is not covered by its exact conditions.
- Timeouts and signals in the wait loop are un-blocks that may come at any moment; their bookkeeping is not modelled.
- Creating a pipe and delivering SIGPIPE; a call in progress keeps its endpoint open, as the file reference does.
- Devicetree parsing, the slab flag, the zeroing of pages and the wrap-around of a reserved range's end address in the page allocator.
- The slab allocator for small sizes; heap expansion is serialised with the allocation it serves.
- I/O errors of the FAT32 driver, the directory-growth window, alias generation, name lookup, the page cache and the data path of read and write; whether a file is open or a directory empty is an input.
- The stored FAT entry's four reserved bits: the driver clears them on every write, and so does the model.
- The contents of signal handler frames, alternate stacks, system-call restart and the notification of waiting parents; whether a frame can be built is an input. A process may go to sleep with a signal pending, as an uninterruptible wait does.
- Fairness: what a core, a handler or a waiter can reach by its own steps is proved, not that it is scheduled.
- Write-back of dirty cache blocks and block_cache_sync: the cache writes through, so no block is ever dirty. Calls are assumed to be serialised: the FAT32 driver's mutex does that for its own, but raw device nodes call without it, and a read miss that races a write is not modelled.
- The wall clock is an input of the timestamp code.
- Device drivers, assembly, sessions, terminals, procfs, devfs, ELF loading, libc, the shell and user programs.
