# Verified models of the kernel and its library

This project models the hardest parts of the kernel and of the abstract-machine library in Dafny
and proves what each of them is for. `dafny verify dfyconfig.toml` checks everything.

| files | what they model |
|---|---|
| `Words`, `Bits` | powers of two, alignment, division facts; the bitwise operators, bit by bit |
| `BuddyTree`, `PageAllocator` | the page layer: one 8191-entry buddy tree for each 16M unit, `page_alloc`, `page_free` |
| `SlabHeap`, `Pmm` | the slab layer on top of it, and `kalloc`/`kfree` over both |
| `SlabReclaim`, `SlabAccounts`, `SlabWalks` | slab allocation, freeing and reclamation by several CPUs, interleaved in atomic steps; where each block is, which free slabs stay, and which slab serves a call |
| `Kernel`, `TaskContexts`, `TaskScans` | n CPUs, m tasks, the trap handlers and the semaphores, interleaved in atomic steps; which context a task goes on with, and which task a CPU enters |
| `Scheduler`, `SchedulerMirror`, `Semaphore`, `Irq`, `Spinlock` | the same code as it updates its state in place: the task list and the scan, the ring of waiters, the list of handlers, the interrupt nesting |
| `Int64`, `Division` | counting zeros and dividing 64 bits with 32-bit halves |
| `Vme` | x86-64 page tables against the walk of section 4.5 of the Intel SDM, volume 3A |
| `TtyInput`, `TtyScreen` | the line discipline and the incremental redraw of the terminal |
| `Disk` | a byte-addressed disk over blocks |

## How to read it

- Functions on values say what an operation means; classes hold the fields the program updates in
  place, and their methods are proved equal to those functions. The lemmas about the functions are
  the results.
- Addresses and sizes are natural numbers. Where the width matters (`Int64`, `Division`, the page
  table entries) the wrap-around and the masks are written out. `_page`, `buf` and `dirty` buffers
  are arrays; slab headers and the links inside free blocks are maps from addresses.
- `Semaphore` proves that its methods do to the ring what the atomic steps of `Kernel` do to a
  queue. `Scheduler` runs the handlers of one CPU in one go; `Kernel` interleaves them with those of
  the others, and `SchedulerMirror` proves that a trap nothing interrupts does to the linked list
  what its steps do to the state.
- A transition system has one predicate per atomic step; a run is any sequence of states in which
  every pair is a step of some CPU. `atomic_xchg` is one step, and memory is sequentially
  consistent.
- Some functions of the program are split where a proof is: `slab_init`, `slab_alloc`,
  `recover_slab`, `tty_putc` and `__udivmoddi4` each consist of a few methods that are called in the
  program's order. The three shift set-ups of `__udivmoddi4` are one method, `ShiftApart`.

## Where the code departs from its intent

- `page_free` changes nothing as written: the test at `kernel/src/page.c:211` returns when the block
  *ends after* the pointer, which at the root is true of every pointer of the unit. Both guards are
  modelled (`FreeGuard`): `PageFree` proves that the literal one leaves every unit as it was and
  that the intended one removes exactly the given block. The allocator's safety holds for both
  guards; only `NothingLeaks` needs the intended one. The allocation results are about the code
  exactly as written.
- Giving everything back does not always leave the list with one slab. `recover_slab` spares the
  head of the list, and a slab whose predecessor it finds locked. When calls of several CPUs overlap,
  an entirely free slab can so end up behind the head, and nothing frees it until it is used again:
  `OverlapLeavesSlab` is such a run, `EntirelyFreeExactly` says when it happens, and
  `TidyWithoutOverlap` that it does not when calls do not overlap. `Pmm` models one call at a time,
  on a heap that earlier calls may have left in that state; `NothingLeaks` says what is left then.
- An allocation can fail although a large enough block is free, because `HAVE_BUBBLE` hides it.
  `BubbleHidesFreeBlock` is a run in which that happens; `PageAlloc` states exactly when a request
  succeeds: when the root entry of some unit is at least its class.
- `recover_slab` never unlocks the slab it recovers (`kernel/src/slab.c:212-215`), so its lock word
  stays 1. `SlabReclaim` keeps recovered slabs as they are: their page is not handed out again. With
  `page_free` as written that is so, because the page stays handed out for ever; with the intended
  guard it is an assumption about the run.
- `init_idle_task` assigns only its own parameter (`kernel/src/kmt.c:141-142`), so `idle_tasks` is
  never filled, and `kmt_context_save` uses the current task before `kmt_schedule` replaces a null
  one. The models start with every CPU running its own distinct idle task.
- The ring of a semaphore holds 255 waiters, as a full ring looks like an empty one. `SemWait`
  states what the 256th waiter does to it; the transition system admits at most 255.
- `tty_pop_back` reads the cell before `front`. It is right because the buffer starts zeroed and
  because the ring never fills, which `Holds` records.
- `__divdi3` wraps for the minimum divided by -1; `DivDI3` states that case on its own, and
  `QuotientFits` shows that it is the only one.

## Model

| member | source | states |
|---|---|---|
| `BuddyTree.OffsetClosedForm` | kernel/src/page.c:171-182 | the address computed from the index alone is the address of the node in the binary tree: half the parent's block each |
| `BuddyTree.UnrelatedDisjoint` | kernel/src/page.c:163-182 | nodes neither of which lies under the other stand for disjoint bytes |
| `BuddyTree.CleanBelow` | kernel/src/page.c:147-157 | below an entry that is its own class or FULL_USED every entry is its own class |
| `BuddyTree.LiveDisjoint` | kernel/src/page.c:124-128 | of two handed-out nodes neither lies under the other |
| `BuddyTree.NeverOverPromises` | kernel/src/page.c:74-83 | an entry v >= P_4K outside handed-out blocks is witnessed by a wholly free aligned block of 2^v bytes |
| `BuddyTree.DirtyHasLive` | kernel/src/page.c:235-242 | a node that is not its own class has a handed-out block at or below it |
| `BuddyTree.AllFreeIsInitial` | kernel/src/page.c:235-242 | with nothing handed out every entry is back at its page_init value, earlier HAVE_BUBBLE marks included |
| `BuddyTree.AllocKeepsLocal` | kernel/src/page.c:113-161 | writing the path of the descent keeps the entry rule at every node and marks exactly one block |
| `BuddyTree.AllocKeepsInv` | kernel/src/page.c:113-161 | an allocation keeps the tree invariant; the handed-out nodes are the old ones and the new one, which was untouched |
| `BuddyTree.FreeKeepsLocal` | kernel/src/page.c:215-242 | rewriting the path after a free keeps the entry rule at every node |
| `BuddyTree.FreeKeepsInv` | kernel/src/page.c:201-242 | giving back a handed-out node keeps the invariant, removes exactly that node and lets the unit serve its class again |
| `BuddyTree.DescentIsLowest` | kernel/src/page.c:137-145 | of the nodes of the class that no entry on the way refuses, the left-first descent hands out the one at the lowest address |
| `BuddyTree.BubbleHidesFreeBlock` | kernel/src/page.c:147-154 | HAVE_BUBBLE under-reports: 4M and then 8M out of a fresh unit leave a whole untouched 4M block that the root no longer offers |
| `PageAllocator.TransPageSize` | kernel/src/page.c:19-26 | the smallest of the 13 classes with room, or P_REFUSE |
| `PageAllocator.PageSystem.constructor` | kernel/src/page.c:28-48 | as many whole untouched units as fit before the heap end |
| `PageAllocator.PageSystem.PageInit` | kernel/src/page.c:50-60 | every entry becomes the class of its node |
| `PageAllocator.PageSystem.ConvertIsNodeAddr` | kernel/src/page.c:171-182 | convert_page_to_phsics gives the start of the node's block in the page's own unit |
| `PageAllocator.PageSystem.GetSpaceInPage` | kernel/src/page.c:113-161 | when the root covers the request the left-first descent succeeds, hands out one untouched node and rewrites exactly the path to it |
| `PageAllocator.PageSystem.AllocSpaceFromPage` | kernel/src/page.c:103-111 | same, and the alignment re-check never rejects |
| `PageAllocator.PageSystem.PageAlloc` | kernel/src/page.c:62-101 | NULL exactly when no unit's root covers the class; otherwise the first such unit serves it with one new block, disjoint from every handed-out block, at the lowest address on offer there |
| `PageAllocator.AllocBlocks` | kernel/src/page.c:62-101 | the handed-out blocks of all units grow by exactly one, disjoint from all others, aligned to its size, inside the heap |
| `PageAllocator.BlocksSeparate` | kernel/src/page.c:113-182 | handed-out blocks of all units are pairwise byte-disjoint |
| `PageAllocator.PageSystem.FreeSpaceInPage` | kernel/src/page.c:201-247 | guard as written: nothing changes; intended guard: exactly the given node is freed and the path rewritten |
| `PageAllocator.PageSystem.PageFree` | kernel/src/page.c:184-199 | guard as written: no unit changes; intended guard: exactly the given block leaves the handed-out blocks |
| `PageAllocator.FreeBlocks` | kernel/src/page.c:184-247 | freeing a node removes exactly its block and no other block's status changes |
| `PageAllocator.NoBlocksMeansInitial` | kernel/src/page.c:50-60 | once every block is freed, in any order, every entry of every unit equals what page_init wrote |
| `SlabHeap.Layout` | kernel/src/slab.c:49-53 | header and blocks exactly fill the page, and every block starts at a multiple of its size |
| `SlabHeap.SlotFacts` | kernel/src/slab.c:51-60 | the j-th block is aligned to its class, inside the page, outside the header and never 4096-aligned |
| `SlabHeap.SlotsDisjoint` | kernel/src/slab.c:51-60 | blocks of one slab do not overlap |
| `SlabHeap.FreeCount` | kernel/src/slab.c:153-157 | free_block_num <= block_num, with equality exactly when no block of the slab is handed out |
| `SlabHeap.TakenOk` | kernel/src/slab.c:125-138 | taking the head of a free list keeps: free list a chain of exactly free_block_num distinct blocks which with the handed-out ones make up all block_num |
| `SlabHeap.ReturnedOk` | kernel/src/slab.c:149-156 | pushing a block back keeps the same |
| `SlabHeap.AddedOk` | kernel/src/slab.c:29-67 | a new slab at the head keeps all lists and free lists, whatever the head was |
| `SlabHeap.ReturnedTidy` | kernel/src/slab.c:153-161 | after a free at most the slab that got the block can be entirely free behind a first one, and it is not if it is still in use or the first |
| `SlabHeap.UnlinkedTidy` | kernel/src/slab.c:212-214 | unlinking that slab leaves no entirely free slab behind a first one |
| `SlabHeap.UnlinkedOk` | kernel/src/slab.c:176-216 | unlinking a free slab from behind its predecessor keeps all lists and free lists |
| `SlabHeap.WrittenOk` | kernel/src/slab.c:52-60 | a caller writing into its block disturbs no free list, although links live inside blocks |
| `Pmm.RequestClassIsFirstFit` | kernel/src/slab.c:11-18 | the two layers together pick the smallest class of at least 8 bytes; slabs serve exactly the requests up to 2K |
| `Pmm.SlabSystem.TransSlabSize` | kernel/src/slab.c:11-18 | the smallest slab class with room, or S_REFUSE |
| `Pmm.SlabSystem.AlignmentTellsLayer` | kernel/src/pmm.c:24-28 | a live pointer is 4096-aligned exactly when it came from page_alloc; otherwise the masked address is its slab |
| `Pmm.SlabSystem.LiveDisjoint` | kernel/src/pmm.c:7-33 | no two live blocks, of either layer, share a byte |
| `Pmm.SlabSystem.LiveAvoidsHeaders` | kernel/src/slab.c:42-53 | no live block reaches into a slab header |
| `Pmm.SlabSystem.NothingLeaks` | kernel/src/slab.c:176-216 | intended guard, whatever calls went before, one at a time: when every caller has given everything back, every page still handed out is the page of a listed slab, and only the first slabs of the lists keep one exactly when no entirely free slab is left behind a first one |
| `Pmm.SlabSystem.CutIntoBlocks` | kernel/src/slab.c:41-60 | the page becomes a header and a free list of all its blocks |
| `Pmm.SlabSystem.SlabInit` | kernel/src/slab.c:29-67 | a fresh slab, all blocks free, becomes the head; NULL, changing nothing, exactly when the page layer refuses a 4K page |
| `Pmm.SlabSystem.SlabSystemInit` | kernel/src/slab.c:20-27 | every CPU has for every block size one slab, all of its blocks free; or none, and then the page layer has no 4K page left |
| `Pmm.SlabSystem.WalkList` | kernel/src/slab.c:75-98 | the first slab of the list with a free block, NULL exactly when all are full |
| `Pmm.SlabSystem.AllocBlockFromSlab` | kernel/src/slab.c:125-138 | the head of the free list, which nobody else holds |
| `Pmm.SlabSystem.SlabAlloc` | kernel/src/slab.c:69-123 | the callers gain exactly the returned block; up to 2K it is a free block of the first slab of the CPU's own list for that size that has one, or of a new slab put before them when all are full, and no other slab changes; NULL exactly when the list is full and the page layer refuses; no word of a live block changes |
| `Pmm.SlabSystem.FindPrev` | kernel/src/slab.c:183-191 | the list walk finds the slab just before the one to recover |
| `Pmm.SlabSystem.RecoverSlab` | kernel/src/slab.c:164-216 | a slab with all blocks free is linked past and is no slab any more, and its page goes back to the page layer; when it is the head, or the try-lock of its predecessor fails, nothing changes |
| `Pmm.SlabSystem.SlabFree` | kernel/src/slab.c:140-162 | the callers lose exactly the freed block, and no word of another live block changes; the slab goes exactly when that was its last block in use, it is not the first of its list, and the try-lock succeeds |
| `Pmm.SlabSystem.WriteBlock` | kernel/src/slab.c:133-135 | writing to a live block keeps the allocator valid |
| `Pmm.Allocator.constructor` | kernel/src/pmm.c:35-49 | as many units as fit, from the first 16M boundary above the heap start on, behind the tables; every CPU has for every block size one slab with all blocks free, or none when the page layer has no page left; nothing is live |
| `Pmm.Allocator.KAlloc` | kernel/src/pmm.c:7-15 | the live blocks grow by exactly the returned one, which has room for the request, is aligned to the smallest covering class, disjoint from every live block and every slab header, and 4096-aligned exactly above 2K; NULL exactly when the layers refuse; up to 2K it is a free block of the first slab of this CPU's own list for the size that has one, or of a new slab put before them when all are full; no word of a live block changes; no entirely free slab is left behind a first one; interrupt flag restored |
| `Pmm.Allocator.KFree` | kernel/src/pmm.c:17-33 | the right layer gets the block and exactly that block is live no longer, whatever recover_slab does; no word of another live block changes; a slab leaves its list exactly when its last block in use was freed, it is not the first, and the try-lock succeeds |
| `SlabReclaim.StepKeepsInv` | kernel/src/slab.c:69-216 | every atomic step of the owner, of any freeing CPU, and of any other user of the page locks keeps the protocol invariant |
| `SlabReclaim.RunInv` | kernel/src/slab.c:69-216 | the invariant holds in every state of every interleaving |
| `SlabReclaim.NeverSpinsOnGone` | kernel/src/slab.c:81-98 | no CPU ever spins with _lock on the lock of a recovered slab |
| `SlabReclaim.UnlinksTheRightSlab` | kernel/src/slab.c:201-215 | every unlink removes a slab other than the head, locked by the CPU, from behind a listed, locked slab whose append is the removed one |
| `SlabReclaim.GoneSlabIsFree` | kernel/src/slab.c:152-161 | a recovered slab has no handed-out block and none on its way back, and never changes again |
| `SlabReclaim.WalkStepOk` | kernel/src/slab.c:183-199 | the unlocked walk of recover_slab never runs off the end of the list |
| `SlabReclaim.ListFromLinked` | kernel/src/slab.c:62-64 | from any listed slab the append fields strictly go to older slabs and reach exactly the listed ones no newer |
| `SlabReclaim.ListIsExactlyTheLinked` | kernel/src/slab.c:62-64 | the list from the head is acyclic and holds exactly the slabs pushed and not recovered |
| `SlabReclaim.BlockedWaits` | kernel/src/slab.c:81-98 | a CPU that spins on a set lock waits for the CPU that set it |
| `SlabReclaim.WaitsDownward` | kernel/src/slab.c:81-98 | the wait-for relation is well-founded: who is waited for ranks lower in lock order, so no CPUs wait in a circle |
| `SlabReclaim.ChainEnds` | kernel/src/slab.c:201-215 | the chain of holders that starts at a waiting CPU has at most three links and ends in a CPU that is not waiting |
| `SlabReclaim.NoDeadlock` | kernel/src/slab.c:81-98 | whenever a CPU is inside the allocator, some CPU inside it is not waiting for a lock |
| `SlabReclaim.NotBlockedMoves` | kernel/src/slab.c:201-215 | and a CPU that is not waiting can take a step that moves it |
| `SlabReclaim.ReclaimHappens` | kernel/src/slab.c:164-216 | a run in which a slab is filled, freed and recovered: the protocol is not vacuous |
| `SlabWalks.VisitTakes` | kernel/src/slab.c:82-119 | a slab that has a free block when the allocating CPU holds it serves the call: one of its free blocks goes to the caller, nothing else moves, and the CPU goes on neither to the next slab nor to the page layer |
| `SlabWalks.VisitPasses` | kernel/src/slab.c:86-98 | a full one is left as it is, for the next of the list or, behind the last, for the page layer |
| `SlabWalks.NewPageOnlyAfterFullWalk` | kernel/src/slab.c:75-104 | over all runs: a call takes a new page only when it has held every slab now in the list, and each had no free block then |
| `SlabWalks.FirstWithRoomServes` | kernel/src/slab.c:82-119 | over all runs: the slab that serves a call is the first of the list that had a free block when the call held it |
| `SlabWalks.GivesUpAfterAllUnits` | kernel/src/slab.c:103-107 | over all runs: a call that ends without a block has held the lock of every unit of the page layer |
| `SlabWalks.NoUnitTwice` | kernel/src/page.c:74-83 | over all runs: no unit of the page layer is tried twice in one call |
| `SlabAccounts.StepLosesNoBlock` | kernel/src/slab.c:69-216 | no step of any CPU loses a block: one that is not free is in a caller's hands or with a CPU that is about to put it back |
| `SlabAccounts.BlocksConserved` | kernel/src/slab.c:69-162 | in every reachable state every block of every slab is in exactly one place: the free list, a caller's hands, or one CPU on its way to return it |
| `SlabAccounts.StepKeepsAccounts` | kernel/src/slab.c:164-216 | every step keeps account of the entirely free slabs: spared by recover_slab, being decided on by the CPU that holds them, or new |
| `SlabAccounts.EntirelyFreeExactly` | kernel/src/slab.c:153-216 | in every reachable state a listed slab is entirely free exactly when its last free ended as the head or at a failed try-lock and it was not used since, or its holder is between the test and the unlinking, or it was just made |
| `SlabAccounts.QuiescentLeftovers` | kernel/src/slab.c:176-210 | with no call under way the entirely free slabs are the spared ones, every other block is held, and none is left behind the head exactly when no spared slab stands there |
| `SlabAccounts.TryLockSucceeds` | kernel/src/slab.c:201-210 | with one call at a time recover_slab always finds its predecessor unlocked |
| `SlabAccounts.TidyWithoutOverlap` | kernel/src/slab.c:176-210 | so calls that do not overlap leave no entirely free slab behind the head |
| `SlabAccounts.OverlapLeavesSlab` | kernel/src/slab.c:81-98 | calls that overlap can: an allocation on one CPU that has passed the full head, and two frees on another, leave an entirely free slab behind the head with nothing handed out |
| `Kernel.StepKeepsInv` | kernel/src/kmt.c:14-72 | every step of the handlers, the semaphores and create, on any CPU, keeps the kernel invariant |
| `Kernel.RunInv` | kernel/src/kmt.c:14-72 | the invariant holds in every state of every run of n CPUs and m tasks |
| `Kernel.OneCpuPerTask` | kernel/src/kmt.c:21-29 | a task is in use by at most one CPU, the one that left it and has not trapped again included, and running says exactly whether it is |
| `Kernel.CurrentOrLastOfOne` | kernel/src/kmt.c:14-31 | between traps a task is the current or last task of at most one CPU, and running is true exactly when it is one |
| `Kernel.EntersSafely` | kernel/src/kmt.c:47-67 | a task that is entered is not blocked and not in use by any other CPU |
| `Kernel.ContextNeverOverrun` | kernel/src/kmt.c:14-25 | a trap always saves with i_nest == 0, so context[4] is never overrun |
| `Kernel.NestAtMostOne` | kernel/src/kmt.c:14-31 | i_nest is 0 or 1, and 1 exactly while a context is pushed and not popped |
| `Kernel.CpuMoves` | kernel/src/kmt.c:14-72 | with a task on the list a CPU can always take its next step: no handler is stuck, overruns context[4] or takes i_nest below 0 |
| `Kernel.SemaphoreConserves` | kernel/src/sem.c:24-66 | passes and wake-ups equal initial value plus signals minus resource; resource >= 0, and 0 while anybody waits; wake order is FIFO |
| `Kernel.BlockedIsQueuedOnce` | kernel/src/sem.c:36-46 | a task is blocked exactly when it sits once in exactly one wait queue |
| `Kernel.NoLostWakeUp` | kernel/src/sem.c:53-55 | a task falls asleep only by its own wait and wakes exactly when a signal takes it from the head of its queue, also before it has left its CPU |
| `Kernel.RunsWithinTraps` | kernel/src/kmt.c:38-68 | on any number of CPUs, with no task created meanwhile: a task that stays awake is on some CPU before any one CPU has ended as many traps as there are tasks |
| `Kernel.NearerEachTrap` | kernel/src/kmt.c:43-68 | while a task waits awake the scan of a CPU cannot pass it, and every trap leaves the CPU with a task nearer to it on the list |
| `TaskContexts.SavesContext` | kernel/src/kmt.c:14-19 | the step in which a trap saves leaves its context in slot 0 of the task it interrupted, and every other slot as it was |
| `TaskContexts.SavesIdleContext` | kernel/src/kmt.c:15-16 | and for the idle task of a CPU in its slot 0, and no other CPU's idle task changes |
| `TaskContexts.OthersKeepContext` | kernel/src/kmt.c:14-72 | no other step of any CPU changes a context of the task |
| `TaskContexts.ReturnsLastContext` | kernel/src/kmt.c:53-66 | over all runs: the context a CPU goes on with when it enters a task is the one the task's last trap, on whatever CPU, was taken with; before its first trap, the one it was created with |
| `TaskContexts.EnteredWasGiven` | kernel/src/kmt.c:74-95 | a task that is entered was given such a context |
| `TaskContexts.IdleReturnsLastContext` | kernel/src/kmt.c:70-71 | over all runs: a CPU that turns to its idle task goes on with the context of its last trap in that task, or with what that task had at the start |
| `TaskScans.RefusedWhy` | kernel/src/kmt.c:46-60 | a polled task that is passed over is asleep, or running and not the CPU's own current task |
| `TaskScans.PollAdvances` | kernel/src/kmt.c:38-43 | each poll brings the loop one task further, on the first lap around the list and on the second, while other CPUs step and tasks are created |
| `TaskScans.IdleOnlyIfAllUnfit` | kernel/src/kmt.c:38-71 | over all runs: a CPU turns to its idle task only if in this pass it has twice found every task unfit that was there when the pass began; its own current task, if any, asleep |
| `TaskScans.IdleOnlyAfterPolls` | kernel/src/kmt.c:12-12 | over all runs: and it has made at least 2 * task_count + 2 polls |
| `TaskScans.EntersOnlyIfNearerUnfit` | kernel/src/kmt.c:38-66 | over all runs: a CPU enters a task only if in this pass it has found every nearer one unfit that was there when the pass began |
| `TaskScans.EntersFirstEligible` | kernel/src/kmt.c:33-72 | a pass in which nothing else happens enters the first eligible task from the current one on, the current one last, and turns to the idle task exactly when none is eligible |
| `TaskScans.CurrentGoesOn` | kernel/src/kmt.c:46-53 | so the current task goes on when it is awake and no other task is eligible |
| `Scheduler.Cpu.Create` | kernel/src/kmt.c:74-95 | the new task, awake with its context in slot 0, is first on the list |
| `Scheduler.Cpu.KmtContextSave` | kernel/src/kmt.c:14-31 | the context is pushed on the current task; the departed task is given up; the current one becomes the last one |
| `Scheduler.Cpu.Scan` | kernel/src/kmt.c:38-68 | task_count*2 + 2 polls visit every listed task and stop at the first eligible one in cyclic order |
| `Scheduler.Cpu.KmtSchedule` | kernel/src/kmt.c:33-72 | the first eligible task runs with its saved context; idle only if none is eligible |
| `Scheduler.FirstEligibleIsChosen` | kernel/src/kmt.c:47-60 | when no other task is running the scan chooses the first awake task after the current one |
| `Scheduler.NoneEligibleIsIdle` | kernel/src/kmt.c:70-71 | and no task is eligible, so that the idle task runs, exactly when every task sleeps |
| `Scheduler.Cpu.Trap` | kernel/src/kmt.c:14-72 | one trap on one CPU: the task it interrupted, be it the idle one, has the trap's context to go on with and every other task the one it had; the first awake task after the current one is chosen, idle exactly when none is, and goes on with its own; exactly it and the interrupted one are running |
| `Scheduler.Cpu.RunsSoon` | kernel/src/kmt.c:12-12 | on one CPU a task that stays awake is the current one after at most task_count traps, whatever other tasks sleep or wake in between |
| `Scheduler.RunsWithinTaskCount` | kernel/src/kmt.c:38-68 | the same count for any sequence of places each chosen from the one before: within any task_count choices every awake place comes up |
| `SchedulerMirror.OrderMirrors` | kernel/src/kmt.c:39-43 | the numbering of Kernel is the order of the linked list: one step along it, and the distance between two places |
| `SchedulerMirror.CreateMirrors` | kernel/src/kmt.c:74-95 | create, in front of the list, is Kernel's create |
| `SchedulerMirror.SaveMirrors` | kernel/src/kmt.c:14-31 | kmt_context_save does to the tasks of the list what Kernel's steps Save, ReleaseLast and SetLast do to its state |
| `SchedulerMirror.SameChoice` | kernel/src/kmt.c:38-71 | the task the scan of the list stops at is the one that Kernel's pass enters, idle included |
| `SchedulerMirror.ScheduleMirrors` | kernel/src/kmt.c:33-72 | kmt_schedule does to the list what every uninterrupted pass of Kernel's loop does to its state |
| `SchedulerMirror.TrapMirrors` | kernel/src/kmt.c:14-72 | the two handlers together do to the list what a whole trap of Kernel does when nothing else happens meanwhile, and return the context of the task entered |
| `Semaphore.Sem.constructor` | kernel/src/sem.c:5-22 | the given value and no waiters |
| `Semaphore.Sem.SemWait` | kernel/src/sem.c:29-42 | the critical section: pass, or fall asleep at the end of the queue; with 255 waiters already there the ring looks empty afterwards; otherwise, blocked flags included, whatever state of Kernel's semaphore it mirrored it now mirrors that after Kernel's wait |
| `Semaphore.Sem.SemSignal` | kernel/src/sem.c:50-66 | the first waiter wakes and leaves, across wrap-around; resource grows exactly when nobody waits; and it mirrors Kernel's signal likewise |
| `Semaphore.WaitMirrors` | kernel/src/sem.c:31-46 | what sem_wait does to resource, queue and blocked flags is Kernel's atomic wait |
| `Semaphore.SignalMirrors` | kernel/src/sem.c:53-58 | what sem_signal does to them is Kernel's atomic signal |
| `Irq.IrqList.OnIrq` | kernel/src/os.c:10-40 | the handler is inserted behind all of the same or smaller seq: a stable sort |
| `Irq.IrqList.Trap` | kernel/src/os.c:42-69 | exactly the requests of the list for the event or for every event run, each once, in list order; the result is the context of the last of them that gives one, and there is none exactly when none gives one; with the scheduler's two at the ends, the saver runs first, the scheduler last, and its context is returned |
| `Irq.EndsServed` | kernel/src/os.c:49-63 | for every event the first and last request of such a list are the first and last served, and the last one's context wins |
| `Irq.IrqList.Boot` | kernel/src/kmt.c:163-164 | after the two registrations of kmt_init and any number of later ones with a smaller seq than the largest, the two are at the ends |
| `Irq.EndsStay` | kernel/src/os.c:21-36 | a registration never comes before kmt_context_save, and comes before kmt_schedule exactly when its seq is below the largest |
| `Spinlock.InterruptsFollowDepth` | kernel/src/os.c:115-138 | over any legal sequence of lock and unlock: interrupts are off while a lock is held and restored when none is |
| `Spinlock.Cpu.InterruptOff` | kernel/src/os.c:115-122 | the flag is saved at depth 0 only, and the depth grows |
| `Spinlock.Cpu.InterruptOn` | kernel/src/os.c:124-138 | ignored with interrupts on or at depth 0; the saved flag returns at depth 0 |
| `Spinlock.Cpu.Lock` | kernel/src/spinlock.c:9-12 | interrupts go off, and the loop ends at the first exchange that finds the word free |
| `Spinlock.Cpu.Unlock` | kernel/src/spinlock.c:14-17 | the lock word is cleared before interrupts come back |
| `Spinlock.SpinLock.TryLock` | kernel/src/common.c:12-14 | true exactly when the lock was free; locked afterwards either way |
| `Int64.ClzSI2` | abstract-machine/klib/src/int64.c:640-669 | for a != 0: 2^(31-r) <= a < 2^(32-r) |
| `Int64.CtzSI2` | abstract-machine/klib/src/int64.c:675-709 | for a != 0: 2^r divides a and 2^(r+1) does not |
| `Int64.ClzDI2` | abstract-machine/klib/src/int64.c:725-731 | the same bound for 64 bits out of two halves |
| `Int64.CtzDI2` | abstract-machine/klib/src/int64.c:717-723 | the same divisibility for 64 bits |
| `Bits.PowerTest` | abstract-machine/klib/src/int64.c:491-491 | d & (d - 1) == 0 exactly for powers of two |
| `Division.WithinWord` | abstract-machine/klib/src/int64.c:516-520 | the half-word shifts by 1 to 31 are n >> sr and n << (64 - sr) |
| `Division.PastWord` | abstract-machine/klib/src/int64.c:564-571 | the half-word shifts by 33 to 63 are n >> sr and n << (64 - sr) |
| `Division.ShiftApart` | abstract-machine/klib/src/int64.c:545-604 | each of the three shift set-ups splits n between r and q |
| `Division.QuotientBits` | abstract-machine/klib/src/int64.c:505-513 | the leading-zero difference makes the initial remainder smaller than the divisor; divisors above 2^63 meet the loop once |
| `Division.MaskIsComparison` | abstract-machine/klib/src/int64.c:626-628 | the sign of d - r - 1 tells r >= d, also for d >= 2^63, given r < 2d |
| `Division.DivideRound` | abstract-machine/klib/src/int64.c:612-629 | each round keeps quotient * d + r equal to the bits of n seen so far with r < d, and r < 2d < its bound before the comparison |
| `Division.ShiftSubtract` | abstract-machine/klib/src/int64.c:611-633 | the loop delivers quotient and remainder |
| `Division.UDivModDI4` | abstract-machine/klib/src/int64.c:426-634 | for every 64-bit a and b != 0, through every special case: a == q*b + r and r < b |
| `Division.UDivDI3` | abstract-machine/klib/src/int64.c:408-412 | a / b |
| `Division.UModDI3` | abstract-machine/klib/src/int64.c:416-422 | a % b |
| `Division.QuotientRemainder` | abstract-machine/klib/src/int64.c:383-404 | partner of the signed routines: truncation toward zero leaves a remainder with the dividend's sign, smaller than the divisor |
| `Division.QuotientFits` | abstract-machine/klib/src/int64.c:369-379 | the truncated quotient fits 64 bits exactly unless a is the minimum and b is -1 |
| `Division.DivDI3` | abstract-machine/klib/src/int64.c:369-379 | the quotient toward zero for all b != 0 except (MIN, -1), which wraps to MIN |
| `Division.ModDI3` | abstract-machine/klib/src/int64.c:393-404 | the remainder with the dividend's sign for all b != 0 |
| `Division.DivModDI4` | abstract-machine/klib/src/int64.c:383-389 | the remainder agrees with __moddi3 for all b != 0 |
| `Vme.IndexOfIsIndex` | abstract-machine/am/src/x86/qemu/vme.c:49-51 | mask and shift select the digit of the address in base 512 for each level |
| `Vme.Descend` | abstract-machine/am/src/x86/qemu/vme.c:57-75 | a user walk goes from table to table of the tree with every permission until an entry is empty |
| `Vme.WalkAfterAdd` | abstract-machine/am/src/x86/qemu/vme.c:66-68 | a new empty table changes no translation |
| `Vme.WalkAfterSet` | abstract-machine/am/src/x86/qemu/vme.c:147-154 | writing one last-level entry changes no other page: the index split is injective and the tables are a tree |
| `Vme.KernelIdentity` | abstract-machine/am/src/x86/qemu/vme.c:120-131 | the low 512 GiB keep the kernel's identity map, closed to user code |
| `Vme.AddTable` | abstract-machine/am/src/x86/qemu/vme.c:66-68 | linking a fresh page keeps the tree: one spot per table, one table per spot, each hanging from its parent |
| `Vme.PathPresent` | abstract-machine/am/src/x86/qemu/vme.c:155-155 | when the last table for an address exists no entry above it is empty |
| `Vme.AddrSpace.PtWalk` | abstract-machine/am/src/x86/qemu/vme.c:57-75 | the last-level entry for the address; exactly the missing tables are added, and it fails exactly when fewer pages are left than tables missing; no translation changes; an existing path changes nothing |
| `Vme.HasAbove` | abstract-machine/am/src/x86/qemu/vme.c:57-75 | where the table of one level exists so do those above it, so the missing ones are the lowest |
| `Vme.AddrSpace.Map` | abstract-machine/am/src/x86/qemu/vme.c:141-156 | afterwards the processor finds (pa, writable) at va, or nothing for MMAP_NONE; every other user page as before; at most three tables are added, exactly the missing ones; a bad or unaligned address panics exactly then, an empty allocator exactly when fewer pages are left than tables missing, and the other panics only for their cause |
| `Vme.AddrSpace.Protect` | abstract-machine/am/src/x86/qemu/vme.c:117-135 | a root with the kernel's part and no user page |
| `Vme.AddrSpace.Teardown` | abstract-machine/am/src/x86/qemu/vme.c:77-87 | every table at and below is given back exactly once and nothing else; recursion ends by level |
| `Vme.NothingBelow` | abstract-machine/am/src/x86/qemu/vme.c:80-81 | no table hangs below an entry without P and U, the kernel entries included |
| `Vme.AddrSpace.Unprotect` | abstract-machine/am/src/x86/qemu/vme.c:137-139 | exactly the tables obtained by protect and map go back, each once; no kernel table, no mapped page |
| `TtyInput.FirstLine` | kernel/src/dev/dev_tty.c:67-85 | what is typed after a newline never reaches back into the finished line |
| `TtyInput.LinesArePieces` | kernel/src/dev/dev_tty.c:67-85 | the k-th finished line is the k-th newline-separated piece of the input after backspace editing |
| `TtyInput.LinesStay` | kernel/src/dev/dev_tty.c:67-85 | a finished line never changes, whatever is typed later |
| `TtyInput.LineQueue.Enqueue` | kernel/src/dev/dev_tty.c:14-21 | the byte is appended across wrap-around; panic exactly when 1023 bytes are held |
| `TtyInput.LineQueue.PopBack` | kernel/src/dev/dev_tty.c:23-34 | the last byte goes, unless it is the end of a finished line or nothing is there |
| `TtyInput.LineQueue.Cook` | kernel/src/dev/dev_tty.c:67-85 | the ring holds exactly the unread text after one more key, also while readers are between semaphore and lock; cooked and those readers count the unread lines; panic exactly without room |
| `TtyInput.LineQueue.PassCooked` | kernel/src/dev/dev_tty.c:228-228 | a reader passes the semaphore and has a line to itself |
| `TtyInput.LineQueue.TakeLine` | kernel/src/dev/dev_tty.c:229-244 | under the lock it gets the next line cut to count, whatever came in between; the loop meets the NUL of that line |
| `TtyInput.LineQueue.Read` | kernel/src/dev/dev_tty.c:226-245 | with nothing in between the k-th read returns the k-th line cut to count |
| `TtyInput.FirstStored` | kernel/src/dev/dev_tty.c:233-242 | the next line sits at front and only its end is NUL |
| `TtyInput.EditIsUndo` | kernel/src/dev/dev_tty.c:74-83 | without backspaces a line is what was typed; a backspace undoes the character typed before it, wherever they stand, and does nothing at the beginning of a line |
| `TtyInput.PiecesJoined` | kernel/src/dev/dev_tty.c:69-73 | the pieces hold no newline, and joined by newlines they are what was typed |
| `TtyScreen.PutTakesEffect` | kernel/src/dev/dev_tty.c:46-65 | one character: a plain one stands where the cursor was and the cursor moves one on; return, newline and backspace move it as they should, backspace emptying the cell it goes to; no other cell changes; what would leave the last line moves every line up by one instead and empties the last |
| `TtyScreen.TextOnPage` | kernel/src/dev/dev_tty.c:135-167 | text of any length stands on the screen as on an endless page without scrolling, of which the screen shows the last lines, as long as no backspace comes in the first cell of the screen that is not the first of the page |
| `TtyScreen.BackspaceAtTop` | kernel/src/dev/dev_tty.c:57-61 | and after such a backspace, which does nothing, the screen shows no part of that page |
| `TtyScreen.PlainTextFits` | kernel/src/dev/dev_tty.c:62-65 | plain text that fits stands in consecutive cells from the cursor on, and nothing else changes |
| `TtyScreen.UntouchedKeeps` | kernel/src/dev/dev_tty.c:135-167 | a cell that tty_putc does not mark keeps its character and is left and entered by no cursor |
| `TtyScreen.PutKeepsClean` | kernel/src/dev/dev_tty.c:135-167 | incremental redraw: every unmarked cell still shows what a full redraw would |
| `TtyScreen.Tty.ScrollUp` | kernel/src/dev/dev_tty.c:36-44 | every cell takes the character one line below it, and the last line is empty |
| `TtyScreen.Tty.PutC` | kernel/src/dev/dev_tty.c:135-167 | the character takes effect in the cells and on the cursor, cell by cell, and nothing else changes; marks that were sufficient stay so |
| `TtyScreen.Tty.Render` | kernel/src/dev/dev_tty.c:90-114 | afterwards every marked cell of the display shows its picture, cursor included, the others show what they did, and no mark is left; with sufficient marks every cell shows its picture |
| `TtyScreen.Tty.Write` | kernel/src/dev/dev_tty.c:247-256 | plain text that fits stands in consecutive cells from the old cursor, the rest unchanged; any text that does not go back from the first cell of the screen shows as on an endless page; with sufficient marks the display reads that page, texture by texture, and is what a full redraw would give |
| `TtyScreen.Tty.Blink` | kernel/src/dev/dev_tty.c:313-318 | toggling the cursor keeps the marks sufficient |
| `TtyScreen.Tty.Start` | kernel/src/dev/dev_tty.c:273-274 | whatever the display showed before, it is right after the first render |
| `TtyScreen.Tty.Boot` | kernel/src/dev/dev_tty.c:200-224 | after tty_init, its welcome text on an arbitrary display, and the start of the terminal task, the display reads line for line like a page with the welcome text on it |
| `Disk.FlatSplit` | kernel/src/dev/dev_sd.c:33-34 | block b is the b-th stretch of the flat bytes |
| `Disk.WriteBlock` | kernel/src/dev/dev_sd.c:48-52 | a write into one block is a write at its place in the flat bytes |
| `Disk.Sd.SdRead` | kernel/src/dev/dev_sd.c:26-39 | exactly the bytes [offset, offset + count), whatever blocks they lie in |
| `Disk.Sd.SdWrite` | kernel/src/dev/dev_sd.c:41-57 | exactly those bytes change; a block replaced whole is not read first |
| `Disk.ReadAfterWrite` | kernel/src/dev/dev_sd.c:26-57 | reading back gives what was written, and other ranges are as before |

## Left out

- PageAllocator.PageSystem.PageFree: takes only the start of a handed-out block. For another pointer the program reads child entries past the last level.
- Pmm.Allocator.KFree: takes only a live block, for the same reason. One call at a time: what other CPUs do shows in the outcome of the try-lock, a parameter, and in the heap it starts from; the interleaving is in SlabReclaim.
- PageAllocator.PageSystem.constructor: at most 256 units, the room of page_pool; the check of the pool's end is not in the program either.
- Semaphore.Sem.SemWait: the yield loop behind the critical section is the scheduler's part, in Kernel.
- SlabReclaim.StepKeepsInv: one list of one CPU and block size at a time. Other lists and callers of pages meet it at the page locks only, and appear as CPUs that take and drop one; their own slab locks do not. Which unit a page comes from, and its tree, are not modelled.
- Scheduler.Cpu.KmtSchedule: needs at least one task on the list; with an empty list the program follows a null pointer. The scan is a method of its own.
- Scheduler.Cpu.RunsSoon: for one CPU and a list that does not grow meanwhile; Kernel.RunsWithinTraps covers several CPUs.
- Kernel.RunInv: handlers of devices between the two of the scheduler are not steps of their own; they reach the model as signals at any time.
- Division.UDivModDI4: b is not 0; the program divides by zero on purpose then. Null result pointers are not modelled.
- Vme.AddrSpace.PtWalk: a panic ends the machine; the method returns whether there was one, and Map its cause. Physical addresses have 52 bits.
- Vme.AddrSpace.Protect: the x86_64 configuration only, with kpt as the boot code leaves it. as->area, as->pgsize, ucontext and the TLB are not modelled.
- TtyInput.LineQueue.Cook: the key is not NUL; the input task filters those. The semaphores around the critical sections are Kernel's.
- TtyScreen.Tty.Render: a sprite replaces what the display showed there and stays; z order, drawing over other displays and the metadata of a character are not modelled.
- Disk.Sd.SdRead: offset and count stay on the disk, and 32-bit wrap-around of the position is not modelled.
- Removal of tasks (`teardown` in kmt.c): it frees a task without checking that it is stopped. Tasks are only created here.
- Debug branches, printing, names of locks and semaphores, clearing of stacks.
- Port I/O, interrupt controllers, serial line, clock, graphics and boot code: hardware effects without a meaning to check here.
- The native platform, the stubs of other platforms, and the demo programs: foreign calls or empty bodies.
- The string and formatting helpers of klib, the font table and sprite plotting, key decoding: only easy members. Memory copies are taken as primitive.
- Weak memory orders and the instructions behind atomic_xchg.
