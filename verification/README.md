# A verified model of the rkernel2 core

This project models the stateful core of a small i686 research kernel in Dafny and
proves properties of it that only hold over whole runs: its scheduler, its sleeping
lock and wait queues, its balanced tree, its nested address translation, and its four
memory allocators.

| file | what it models |
|---|---|
| `Ring.dfy` | the intrusive doubly linked rings, pointer by pointer |
| `SchedQueue.dfy` | the 32 run rings and their decaying values |
| `SchedOps.dfy` | the locked sections of insert, remove, actualize and preempt, on values and in place |
| `SchedRuns.dfy` | whole runs of scheduler operations as runs of ring events |
| `SchedLocks.dfy` | the scheduler locks, the `THREAD_SF_LOCK_SCHED` flag and interrupts on any number of CPUs |
| `WaitProtocol.dfy` | sleeping and waking against the scheduler, in every interleaving |
| `WaitQueue.dfy` | wait queues as rings of thread entries |
| `SharedLock.dfy` | the shared/exclusive/drainable lock, for any number of threads |
| `TreeShape.dfy`, `TreeMemory.dfy`, `Tree.dfy` | the balanced tree: as a value, as cells in memory, and as the in-place code with its 64-entry slot stack |
| `RegionMapper.dfy`, `FaultWalk.dfy` | first-fit placement of regions, and page faults through nested region mappers |
| `PhysPages.dfy`, `KernelGrow.dfy` | page bitmaps, and the kernel address bump allocator on top of them |
| `Zone.dfy` | the zone allocator with free lists threaded through the buffers |
| `KernelWindow.dfy` | the window for temporary kernel mappings |
| `Basics.dfy` | shared definitions |

Code that changes state in place is a class or a method on arrays, proved equal to a
function on values; the properties are proved of those functions, over every run.
Protocols are state machines whose steps are the atomic sections of the code, in any
interleaving. `dafny verify dfyconfig.toml` checks everything.

## Where the code departs from what it says

- `sched_runnable` expands to `linked_ring_empty`, which is true of an *empty* ring,
  while the comments around it need "not empty". The model uses "not empty".
  `SchedQueue.LiteralPolaritySelectsEmpty` shows that, read literally, a pass can only
  ever select a ring without a thread.
- `sched_blocked` is zeroed but never made a ring. The model takes it as an empty ring.
- `waitqueue_enter` does not store the queue in `t_wait_queue`, which
  `sched_is_suspended` needs. The model adds the store.
  `WaitProtocol.WithoutStoreNobodyBlocks` shows that without it nobody is ever blocked.
- `t_current_cpu` is accessed outside the scheduler lock: `sched_insert` sets it before,
  `sched_remove` clears it after, and `sched_actualize` reads it before its locked section
  and does not look again. So a waker can put a thread back that `sched_remove` has just
  handed out, and a thread that migrates can end up in two rings
  (`WaitProtocol.RacesHappen`, `WaitProtocol.MigrationRace`). Threads are conserved in
  every interleaving if no removal takes a preempted thread that is on a wait queue or
  that a waker has in hand (`WaitProtocol.InvOverRuns`), and each removal that does take
  one can go wrong (`WaitProtocol.UnsafeRemovalBreaks`). At the level of the locked
  sections, `SchedOps.ConservedOverRuns` says exactly which runs conserve threads. The
  stale unlink itself changes nothing in the model; in memory it also writes through the
  links the thread had in its old ring.
- `waitqueue_wait` promises to block until the thread is removed from the queue. That
  holds exactly for preemptible threads (`WaitProtocol.BlocksUntilDequeued`,
  `WaitProtocol.YieldReturnsEarlyIff`).
- A drain can stall for ever: two fair waiters swallow the wake-ups meant for the
  drainer (`SharedLock.FairWaitersStallDrain`), or two drainers put each other to sleep
  (`SharedLock.TwoDrainersStall`). When everybody acquires with `sl_lock_greedy` and
  one thread drains at a time, no wake-up is lost (`SharedLock.NoLostWakeupIfGentle`).
- `sl_touch` is documented as a lock followed by an unlock, but it ignores the drain
  flag. The model follows the code.
- `bt_remove` does not refresh depths above its slot, and an insertion deeper than 64
  slots does not refresh those above the last 64. `TreeShape.RemovalExactIff` and
  `TreeShape.LongPathExactIff` say exactly when the depths are right afterwards;
  `TreeShape.RemovalCanLeaveStaleDepth` and `TreeShape.InsertionCanLeaveStaleDepth` are
  cases where they are not.
- A removal can deepen its slot, because the single rotation on the way back does not
  always help: the root of a perfect tree of 7 nodes, of depth 3, leaves a tree of depth 4
  (`TreeShape.RemovalCanDeepen`). It never leaves more than the depths of the two children
  together (`TreeShape.RemovedBound`).
- `bt_balance` rotates once, so it does not always balance: `TreeShape.BalanceLevelIff` says
  when it does. New least or greatest keys keep a level tree level
  (`TreeShape.EdgeInsertLevel`); a key in between need not (`TreeShape.InnerInsertUneven`).
- `rm_insert` adds in 32 bits. A region that fits nowhere is still placed, beyond the
  end of the mapper, exactly when the end of the last region plus the size wraps around
  (`RegionMapper.Table.Insert`, `RegionMapper.WrapHappens`).
- `rm_pagefault` rounds the extent of a domain up in 32 bits. For an extent of more than
  2^32 - 4096 bytes that wraps around, the window is empty, and every address is a
  segmentation fault (`FaultWalk.WindowMeans`, `FaultWalk.WindowCanVanish`).
- A lookup miss, and a region of undefined type, leave the fault walk with a null region
  mapper; `VM_FAILURE` is never returned (`FaultWalk.PageFault`).
- Fresh kernel ranges (`KernelGrow.KernelSpace.GrowMany`) need that frame 0 is not free in
  the pool, because a stored 0 looks like a free entry (`KernelGrow.StoredPrefixIff`,
  `KernelGrow.FrameZeroIsHandedOutTwice`). The boot code's first range does begin at
  address 0; its first page is taken by `pmap_init` before the kernel grows.
- `zinit` does not set `zn_count`. The model takes 0.

## Model

| member | source | states |
|---|---|---|
| `Ring.Init` | system/kern/kern_ring.c:53-55 | an initialised link is a ring without contents |
| `Ring.Empty` | system/kern/kern_ring.c:49-51 | non-zero exactly for a ring without contents |
| `Ring.Insert` | system/kern/kern_ring.c:25-36 | the four pointer writes turn a ring into the ring with the element first (after) or last (before) in its contents |
| `Ring.Remove` | system/kern/kern_ring.c:38-47 | the two pointer writes delete the element from the contents, wherever it is, and leave its own links alone |
| `Ring.Rotated` | system/kern/kern_ring.c:25-47 | any link of a ring can serve as its head |
| `SchedQueue.Lowest` | system/kern/kern_sched.c:125-130 | the first of the runnable rings with the lowest decaying value, none exactly when no ring is runnable |
| `SchedQueue.Selected` | system/kern/kern_sched.c:145-182 | a pass selects a ring that holds a thread, and selects none exactly when all are empty |
| `SchedQueue.PassKeepsCount` | system/kern/kern_sched.c:153-185 | after a pass at most 31-k counters are at or below -k |
| `SchedQueue.DecayStep` | system/kern/kern_sched.c:153-224 | every pass, enqueue and unlink keeps the counting invariant |
| `SchedQueue.DecayBound` | system/kern/kern_sched.c:74-79 | over every run each counter is within [-30, sched_prios[i]] between events and within [-31, sched_prios[i]] inside a pass |
| `SchedQueue.SelectedInTime` | system/kern/kern_sched.c:138-201 | a ring that is never empty is selected within counter + 31 passes |
| `SchedQueue.BoundedWaiting` | system/kern/kern_sched.c:138-225 | while ring i never becomes empty, some pass selects it within sched_prios[i] + 31 passes, whatever else happens |
| `SchedQueue.PoppedInTime` | system/kern/kern_sched.c:138-225 | the passes a thread still waits are bounded by the threads ahead of it and its ring's counter |
| `SchedQueue.FifoWaiting` | system/kern/kern_sched.c:187-225 | a thread with p threads ahead is popped within (p+1) times the bound |
| `SchedQueue.NotSelectedEarly` | system/kern/kern_sched.c:163-178 | while ring i waits, ring j is not selected before its counter has come down to sched_prios[i] |
| `SchedQueue.PriorityRespected` | system/kern/kern_sched.c:184-224 | a ring just selected, or just filled after being empty, is not selected within sched_prios[j]-sched_prios[i] passes while ring i waits |
| `SchedQueue.PriosAscend` | system/kern/kern_sched.c:67-79 | the table starts at 1 and ascends by at least 4 from ring to ring |
| `SchedQueue.LowerNumberFirst` | system/kern/kern_sched.c:74-185 | a ring just selected is not selected again in the next four passes while a ring with a lower number waits |
| `SchedQueue.LiteralPolaritySelectsEmpty` | system/kern/kern_sched.c:137-182 | with the macro read literally a pass only selects rings without a thread |
| `SchedOps.Sweep` | system/kern/kern_sched.c:147-179 | the single loop does the two documented steps: decay or reset all, find the first lowest |
| `SchedOps.Scheduler.constructor` | system/kern/kern_sched.c:238-261 | empty rings, full counters, the first thread as idle thread, count 1 |
| `SchedOps.Scheduler.SelectRing` | system/kern/kern_sched.c:145-185 | loop and reset together do exactly one documented pass |
| `SchedOps.Scheduler.PopOne` | system/kern/kern_sched.c:145-190 | one pass unlinks the thread at the back of the selected ring |
| `SchedOps.Scheduler.Next` | system/kern/kern_sched.c:138-201 | the restart loop puts suspended threads aside until one is found that is not suspended, or none is left |
| `SchedOps.Scheduler.Enter` | system/kern/kern_sched.c:207-225 | the thread goes to the back of the blocked ring or the front of its run ring, resetting an empty one; idle goes nowhere |
| `SchedOps.Scheduler.Leave` | system/kern/kern_sched.c:363-367 | the thread is unlinked from whichever ring it is in |
| `SchedOps.Scheduler.SetOwner` | system/kern/kern_sched.c:272-275 | the unlocked write of the owner, also at the end of sched_remove, changes nothing else |
| `SchedOps.Scheduler.InsertThread` | system/kern/kern_sched.c:280-297 | new state after the locked section of an insert |
| `SchedOps.Scheduler.RemoveThread` | system/kern/kern_sched.c:314-331 | new state after the locked section of a removal, and the thread removed, if any |
| `SchedOps.Scheduler.ActualizeThread` | system/kern/kern_sched.c:355-373 | the locked section unlinks and enqueues again exactly a preempted thread, whoever owns it |
| `SchedOps.Scheduler.PreemptCurrent` | system/kern/kern_sched.c:384-437 | new state after a preemption, including the two reasons to do nothing |
| `SchedOps.ScheduleNext` | system/kern/kern_sched.c:138-201 | what is returned is a known thread that is not suspended; only rings and blocked ring change |
| `SchedOps.NextFindsReady` | system/kern/kern_sched.c:138-201 | a thread is found exactly when some thread in a run ring is not suspended, and it is such a thread |
| `SchedOps.EnterWhere` | system/kern/kern_sched.c:207-225 | a thread that is entered is in the blocked ring exactly when suspended, else at the front of ring priority % 32 and in no other |
| `SchedOps.ActualizedWhere` | system/kern/kern_sched.c:355-373 | so is a preempted thread that is actualized, from wherever it was |
| `SchedOps.PreemptRefused` | system/kern/kern_sched.c:394-405 | a current thread with THREAD_SF_LOCK_SCHED or a non-preemption count stays, and nothing at all changes |
| `SchedOps.PreemptSwitchesIff` | system/kern/kern_sched.c:384-437 | another thread runs afterwards exactly when the current one has neither and some thread is ready, or it is suspended and not idle; the new one was ready, or is idle when none was |
| `SchedOps.PreemptedWhere` | system/kern/kern_sched.c:422-433 | the thread switched away is in the blocked ring exactly when suspended, else in the ring of its priority only |
| `SchedOps.FreshConserved` | system/kern/kern_sched.c:238-261 | the scheduler as set up conserves threads and has none but its idle thread |
| `SchedOps.InsertConservesIff` | system/kern/kern_sched.c:280-297 | an insert keeps conservation exactly when the thread is neither idle nor in the scheduler; then it adds exactly that thread |
| `SchedOps.RemoveConserves` | system/kern/kern_sched.c:314-331 | a removal gives up exactly the thread it returns and keeps conservation |
| `SchedOps.ActualizeConservesIff` | system/kern/kern_sched.c:355-373 | an actualization keeps conservation exactly when the thread is in the scheduler, idle or not preempted; otherwise the thread is in it uncounted |
| `SchedOps.PreemptConserves` | system/kern/kern_sched.c:384-437 | a preemption keeps conservation and the threads in the scheduler |
| `SchedOps.StepConservesIff` | system/kern/kern_sched.c:187-437 | every locked section keeps conservation exactly when it is orderly |
| `SchedOps.ConservedOverRuns` | system/kern/kern_sched.c:187-437 | over every run from the start of the scheduler, with arbitrary changes of owner, wait state and priority, threads are conserved throughout exactly when inserts and actualizations are orderly; then the scheduler has exactly the threads inserted and not yet removed |
| `SchedOps.ExactlyOnePlace` | system/kern/kern_sched.c:187-437 | a thread of the scheduler is running, in one run ring, or in the blocked ring, and only one of these; others are nowhere |
| `SchedRuns.TraceRuns` | system/kern/kern_sched.c:138-437 | every operation acts on the rings as its sequence of passes, enqueues and unlinks |
| `SchedRuns.RunTraceRuns` | system/kern/kern_sched.c:138-437 | so does every run of operations |
| `SchedRuns.DecayOverOperations` | system/kern/kern_sched.c:138-437 | the decay bound over every run of operations |
| `SchedRuns.NoStarvation` | system/kern/kern_sched.c:138-437 | over every run of operations, a queued thread with p ahead is popped within (p+1)(sched_prios[i]+31) scheduling turns unless it is itself actualized |
| `SchedLocks.StepKeepsInv` | system/kern/kern_sched.c:30-64 | the flag covers the locked section, and a thread in its section is running and not interrupted |
| `SchedLocks.NoSelfDeadlock` | system/kern/kern_sched.c:280-299 | a handler that goes for a scheduler lock has interrupted a thread that holds none and wants none |
| `SchedLocks.InterruptIff` | system/kern/kern_sched.c:394-408 | a preemption event goes for the lock exactly when the thread it interrupts is outside its section and preemptible |
| `SchedLocks.KeepsItsCpu` | system/kern/kern_sched.c:30-64 | over every run, a thread inside its section or not preemptible is not switched away |
| `SchedLocks.HolderCanRelease` | system/kern/kern_sched.c:394-435 | the holder of a scheduler lock can always release it with its next step |
| `WaitProtocol.NextBlocks` | system/kern/kern_sched.c:192-199 | only suspended threads of the run rings are put into the blocked ring |
| `WaitProtocol.PreemptFlags` | system/kern/kern_sched.c:394-433 | which flags a preemption changes; the thread it switches to is idle or not suspended |
| `WaitProtocol.StepKeepsThreads` | system/kern/kern_wait.c:73-105 | every step in every interleaving keeps: a thread that announced its wait is running or preempted, and one past its yield and still queued is not preemptible |
| `WaitProtocol.StepKeepsInv` | system/kern/kern_wait.c:46-105 | every safe step of a waiter, a waker, the timer, an insert or a removal keeps conservation, and: a blocked thread announced its wait and is on its queue or about to be actualized; nobody wakes a preempted thread outside the scheduler |
| `WaitProtocol.InvOverRuns` | system/kern/kern_sched.c:266-376 | so threads are conserved in every state of every run from the start of the kernel whose removals are safe |
| `WaitProtocol.UnsafeRemovalBreaks` | system/kern/kern_sched.c:305-376 | after any unsafe removal, steps of the waker alone lead to a state where threads are not conserved |
| `WaitProtocol.MigrationRace` | system/kern/kern_sched.c:266-376 | a thread removed while on its wait queue and inserted again is in two places if it is woken in between |
| `WaitProtocol.RacesHappen` | system/kern/kern_sched.c:266-376 | both failures are reached from the start of the kernel |
| `WaitProtocol.AwakeIsRunnable` | system/kern/kern_wait.c:57-68 | a thread off its queue that nobody is about to actualize runs or is in a run ring |
| `WaitProtocol.StaysOff` | system/kern/kern_wait.c:46-105 | a thread off its queue and out of the blocked ring stays so under every step but its own next wait |
| `WaitProtocol.WokenStaysOut` | system/kern/kern_wait.c:46-105 | once sched_actualize has finished for a dequeued thread, after safe removals, it is out of the blocked ring and stays out until it waits again, whatever happens |
| `WaitProtocol.BlocksUntilDequeued` | system/kern/kern_wait.c:92-101 | a preemptible thread gets past its yield only when it has been dequeued |
| `WaitProtocol.YieldReturnsEarlyIff` | system/kern/kern_wait.c:84-101 | it runs on while still queued exactly when it is not preemptible |
| `WaitProtocol.WithoutStoreNobodyBlocks` | system/kern/kern_wait.c:42-44 | without the store of the queue no preemption blocks a thread |
| `WaitQueue.WaitQueue.IsEmpty` | system/kern/kern_ring.c:49-51 | true exactly when no thread waits |
| `WaitQueue.WaitQueue.Enter` | system/kern/kern_wait.c:42-44 | on the ring of thread entries, the thread becomes the first or the last |
| `WaitQueue.WaitQueue.GetFirst` | system/kern/kern_wait.c:46-63 | unlinks the entry at the back of the ring and names its thread, or finds none |
| `SharedLock.SharedLock.WakeFirst` | system/kern/kern_wait.c:46-71 | takes the last thread of the queue, or nothing from an empty one |
| `SharedLock.SharedLock.Wait` | system/kern/kern_wait.c:73-85 | the thread enters at the end of the queue the caller asks for |
| `SharedLock.SharedLock.TryAcquire` | system/kern/kern_lock.c:37-67 | one turn of the acquisition loops, whose success AcquiresIff describes |
| `SharedLock.SharedLock.LockInternal` | system/kern/kern_lock.c:31-70 | refusal while draining, else a turn of the loop |
| `SharedLock.SharedLock.DrainFrom` | system/kern/kern_lock.c:147-159 | the two waiting loops of a drain |
| `SharedLock.SharedLock.TouchFrom` | system/kern/kern_lock.c:172-190 | the waiting loops of a touch |
| `SharedLock.SharedLock.Enter` | system/kern/kern_lock.c:77-193 | the first section of each operation |
| `SharedLock.SharedLock.Reenter` | system/kern/kern_lock.c:40-188 | the section after each return of waitqueue_wait |
| `SharedLock.StepKeepsInv` | system/kern/kern_lock.c:31-193 | every section keeps queue, exclusion, drain and wake-up invariants |
| `SharedLock.InvOverRuns` | system/kern/kern_lock.c:31-193 | so they hold in every state of every run |
| `SharedLock.MutualExclusion` | system/kern/kern_lock.c:31-129 | number is -1 with one exclusive and no shared holder, or n with n shared and no exclusive holder |
| `SharedLock.AcquiresIff` | system/kern/kern_lock.c:31-102 | a greedy attempt, a fair one on an empty queue and a resumed one make the thread a holder exactly when the lock is not draining and the holders are compatible (no exclusive one for shared, none for exclusive); they are refused exactly when draining, and otherwise sleep next in line |
| `SharedLock.AcquiresOverRuns` | system/kern/kern_lock.c:31-102 | so in every state of every run |
| `SharedLock.TouchReturnsIff` | system/kern/kern_lock.c:170-193 | a touch returns exactly when the holders are compatible with its kind, and never becomes a holder |
| `SharedLock.DrainReturnsIff` | system/kern/kern_lock.c:134-161 | a drain returns exactly when nobody holds the lock and nobody else sleeps; otherwise the drainer sleeps behind everybody |
| `SharedLock.DrainFlagIff` | system/kern/kern_lock.c:134-141 | the flag is set by the start of a drain and by nothing else |
| `SharedLock.WakesIff` | system/kern/kern_lock.c:25-193 | exactly shared acquisitions, releases, starting drains, finished touches and attempts refused after a sleep wake the thread at the end of the queue |
| `SharedLock.NobodySleepsOnFreeLock` | system/kern/kern_lock.c:31-193 | before a drain, a sleeper on a free lock implies a thread that was dequeued and has not re-run its check |
| `SharedLock.FirstComeFirstWoken` | system/kern/kern_lock.c:89-93 | while t sleeps ahead of u, u is not woken and t stays ahead |
| `SharedLock.FairEntersLast` | system/kern/kern_lock.c:89-93 | a fair newcomer queues behind every sleeper |
| `SharedLock.NoAcquisitionAfterDrain` | system/kern/kern_lock.c:31-70 | once the drain flag is set it stays, and holders only leave |
| `SharedLock.DrainIsFinal` | system/kern/kern_lock.c:134-161 | when a drain returns, the lock is free and its queue empty, then and in every later state |
| `SharedLock.NoLostWakeupIfGentle` | system/kern/kern_lock.c:104-161 | with greedy acquisition and one drainer at a time no wake-up is lost, drain or not |
| `SharedLock.FairWaitersStallDrain` | system/kern/kern_lock.c:35-55 | a run in which fair waiters leave a drainer asleep with nobody to wake it |
| `SharedLock.TwoDrainersStall` | system/kern/kern_lock.c:145-159 | a run in which two drainers do |
| `TreeShape.RotLeftKeepsOrder` | system/vm/tree.c:40-48 | a left rotation keeps the in-order listing and the nodes |
| `TreeShape.RotRightKeepsOrder` | system/vm/tree.c:50-58 | a right rotation does too |
| `TreeShape.BalanceKeepsOrder` | system/vm/tree.c:61-70 | balancing does too |
| `TreeShape.UpKeepsOrder` | system/vm/tree.c:103-107 | so does balancing any number of slots up a path |
| `TreeShape.BalanceExact` | system/vm/tree.c:35-70 | balancing makes the depth exact and never raises it |
| `TreeShape.BalanceTop` | system/vm/tree.c:61-70 | the deeper child comes to the top when the depths differ by more than one; otherwise only the depth is refreshed |
| `TreeShape.BalanceDepthIff` | system/vm/tree.c:61-70 | a rotation lowers the depth by one exactly when the outer grandchild is deeper than the inner one, and else leaves it |
| `TreeShape.BalanceLevelIff` | system/vm/tree.c:61-70 | of a node whose level children differ by two it makes a level tree exactly when the outer grandchild is no less deep than the inner one |
| `TreeShape.LevelSize` | system/vm/tree.c:61-70 | a level tree of n nodes has depth d with 2^(d/2) at most n + 1 |
| `TreeShape.EdgeInsertLevel` | system/vm/tree.c:72-107 | inserting a new least or greatest key into a level tree gives a level tree at most one deeper |
| `TreeShape.InnerInsertUneven` | system/vm/tree.c:72-107 | an insertion between two keys that leaves a level tree uneven |
| `TreeShape.UpExact` | system/vm/tree.c:103-107 | backtracking over a whole path makes all depths exact |
| `TreeShape.UpGrows` | system/vm/tree.c:103-107 | the root grows by no more than the end of the path did |
| `TreeShape.SinkExact` | system/vm/tree.c:203-227 | the removal path is no longer than the two depths together |
| `TreeShape.SinkTakesDeeper` | system/vm/tree.c:214-225 | the removal rotates the deeper child to the top, the right one when equally deep |
| `TreeShape.RemovedInOrder` | system/vm/tree.c:195-233 | removal by rotation deletes exactly the node from the listing |
| `TreeShape.RemovedExact` | system/vm/tree.c:195-233 | removal restores exact depths in its slot |
| `TreeShape.RemovedBound` | system/vm/tree.c:195-233 | what removal leaves in its slot is no deeper than the two children together |
| `TreeShape.RemovalCanDeepen` | system/vm/tree.c:195-233 | a removal that makes its slot one deeper |
| `TreeShape.ExactAboveIff` | system/vm/tree.c:103-107 | depths above a replaced part are right exactly when its parent keeps its height |
| `TreeShape.LongPathExactIff` | system/vm/tree.c:82-107 | after an insertion along more than 64 slots all depths are right exactly when the lowest node not refreshed keeps its height; always when its other child was deeper |
| `TreeShape.InsertionCanLeaveStaleDepth` | system/vm/tree.c:82-107 | for every depth from 64 on, an exact search tree and a greatest key whose insertion leaves a wrong depth |
| `TreeShape.RemovalExactIff` | system/vm/tree.c:195-233 | after a removal all depths are right: always at the root; for a node with at most one child exactly when its sibling is at least as deep; always when the sibling is as deep as the two children together; in general exactly when the parent keeps its height |
| `TreeShape.RemovalCanLeaveStaleDepth` | system/vm/tree.c:195-233 | a removal that leaves a wrong depth above |
| `TreeMemory.Focus` | system/vm/tree.c:82-102 | the slot at the end of a path points to the subtree there, which is apart from the path |
| `TreeMemory.Replace` | system/vm/tree.c:82-102 | storing the address of a new subtree in the slot replaces it in the whole tree |
| `TreeMemory.RotationStored` | system/vm/tree.c:40-58 | the pointer writes of a rotation at a slot rotate the tree and touch no other cell |
| `Tree.BinTree.RotateLeft` | system/vm/tree.c:40-48 | in place, the subtree in the slot is rotated left |
| `Tree.BinTree.RotateRight` | system/vm/tree.c:50-58 | in place, the subtree in the slot is rotated right |
| `Tree.BinTree.BalanceAt` | system/vm/tree.c:61-70 | in place, the subtree in the slot is balanced, as BalanceTop and BalanceDepthIff describe |
| `Tree.BinTree.Backtrack` | system/vm/tree.c:103-107 | the wrapped stack balances exactly the last 64 slots of the path, or all of them |
| `Tree.BinTree.Descend` | system/vm/tree.c:77-102 | the search ends at the key or where it belongs, with the last 64 slots on the stack |
| `Tree.BinTree.Insert` | system/vm/tree.c:72-108 | insert-if-absent on the map; exact depths and growth by at most one for paths of up to 64 slots, and for longer paths exact depths if and only if the lowest node not refreshed keeps its height; a level tree stays level under a new least or greatest key |
| `Tree.BinTree.PutNode` | system/vm/tree.c:110-155 | insert-or-replace on the map; the replaced node is handed back with its value; depths as for an insertion |
| `Tree.BinTree.PutInPlace` | system/vm/tree.c:157-193 | insert-or-update on the map, with the same nodes when the key was there; depths as for an insertion |
| `Tree.BinTree.SinkDown` | system/vm/tree.c:203-227 | the loop rotates the node down along the removal path and terminates |
| `Tree.BinTree.RemoveAt` | system/vm/tree.c:195-233 | delete-at-slot on the map; for paths of up to 64 slots exact depths in the slot, and in the whole tree exactly under the condition of RemovalExactIff |
| `Tree.BinTree.Lookup` | system/vm/tree.c:235-253 | finds the slot of the key exactly when it is in the map |
| `Tree.BinTree.Floor` | system/vm/tree.c:255-275 | the greatest key not above, none exactly when all are above |
| `Tree.BinTree.Ceiling` | system/vm/tree.c:277-297 | the least key not below, none exactly when all are below |
| `RegionMapper.Table.Insert` | system/vm/region_mapper.c:117-153 | places at the least offset that fits and keeps regions sorted, disjoint and inside; fails when nothing fits, except exactly when the 32-bit sum wraps |
| `RegionMapper.WrapHappens` | system/vm/region_mapper.c:143-151 | an instance of that exception |
| `FaultWalk.Domain.MapPages` | system/vm/rm_pager.c:36-45 | the page table after the pages of a dataspace have been entered |
| `FaultWalk.Lookup` | system/vm/region_mapper.c:159-181 | finds the region containing the pointer exactly when there is one, and narrows the fault to it, with 32-bit sums |
| `FaultWalk.Walk` | system/vm/rm_pager.c:93-102 | terminates at a dataspace exactly for covered addresses, with the same address in a window inside every window passed |
| `FaultWalk.NarrowStep` | system/vm/region_mapper.c:170-178 | one level down keeps offset + ptr, ptr < size, alignment and enclosure |
| `FaultWalk.LeafMapped` | system/vm/rm_pager.c:36-52 | entering the leaf's pages maps every page inside all enclosing windows to the frame behind it, and nothing outside |
| `FaultWalk.PageFault` | system/vm/rm_pager.c:62-106 | segmentation fault exactly before the domain or when the page starts at or behind its end (always, when rounding up the extent wraps); for covered addresses exactly the pages inside all windows are entered; otherwise a null mapper |
| `FaultWalk.WindowMeans` | system/vm/rm_pager.c:76-86 | the window is the least whole number of pages that holds the extent, or none when rounding up wraps |
| `FaultWalk.OutsideIff` | system/vm/rm_pager.c:76-91 | an address is outside exactly when its page starts at or behind the end |
| `FaultWalk.WindowCanVanish` | system/vm/rm_pager.c:76-86 | a domain up to the last byte of the address space has no window |
| `PhysPages.Allocator.Carve` | system/physmem/phys_bmainit.c:69-83 | one range gets the next words of the block, cleared, as far as they go |
| `PhysPages.Allocator.BootInit` | system/physmem/phys_bmainit.c:46-93 | slices are in bounds and apart, no page is used, result 0 means every page of every range is tracked (and the converse away from the top of memory), and *Pi and *Pt name the range and the first page not tracked |
| `PhysPages.Marked` | system/physmem/phys_bmalloc.c:42-48 | setting a bit uses one page and no other |
| `PhysPages.Allocator.Search` | system/physmem/phys_bmalloc.c:37-54 | takes the first free page of a bitmap, fails exactly when all are used |
| `PhysPages.Allocator.Alloc` | system/physmem/phys_bmalloc.c:56-66 | takes the first free page of all, fails exactly when all are used |
| `PhysPages.DistinctPages` | system/physmem/phys_bmalloc.c:43-50 | different bits are different pages, each inside its own range |
| `PhysPages.PagesUnique` | system/physmem/phys_bmalloc.c:37-66 | along a run of allocations no page comes twice, and each lies in its range |
| `PhysPages.Allocator.AllocMany` | system/physmem/phys_bmalloc.c:37-66 | any number of calls on disjoint ranges return pairwise distinct pages that were not in use; fewer than asked for only when all are used |
| `PhysPages.BootAndAlloc` | system/physmem/phys_bmainit.c:46-93 | after a boot with disjoint ranges, all pages handed out are distinct whole pages of those ranges |
| `KernelGrow.KernelSpace.TakeFrames` | system/vm/kmem_util2.c:81-87 | stores and enters as many frames as it takes, no more than asked for, stopping early only at the end of the table or of memory, and enters nothing else |
| `KernelGrow.KernelSpace.Grow` | system/vm/kmem_util2.c:46-91 | the range handed out has exactly as many pages as frames were taken, all of them free before, is page-sized and page-aligned, inside the dataspace window, and starts at the first free entry |
| `KernelGrow.StoredPrefixIff` | system/vm/kmem_util2.c:70-86 | the entries stay a prefix that grew by the frames taken exactly when none of them is frame 0 |
| `KernelGrow.RangesFresh` | system/vm/kmem_util2.c:46-91 | along a run without frame 0 the entries used by different calls never overlap |
| `KernelGrow.KernelSpace.GrowMany` | system/vm/kmem_util2.c:46-91 | when frame 0 is not free in the pool, the address ranges handed out by any number of calls are pairwise disjoint |
| `KernelGrow.FrameZeroIsHandedOutTwice` | system/vm/kmem_util2.c:70-77 | with frame 0 among the frames the next range starts inside this one |
| `KernelGrow.FrameZeroTrackedIff` | system/physmem/phys_bmalloc.c:43-50 | frame 0 can be handed out exactly when some tracked range begins at address 0 |
| `Zone.CalcBufsize` | system/kern/zalloc.c:41-54 | the least power of two up to 128, else the least multiple of 128, that holds the size and a pointer |
| `Zone.PushOk` | system/kern/zalloc.c:117-131 | returning a buffer, or new memory, to a free list keeps the heap invariant |
| `Zone.PopOk` | system/kern/zalloc.c:56-68 | taking the top buffer keeps it, and the buffer was free |
| `Zone.PushPop` | system/kern/zalloc.c:56-122 | allocating and freeing again restores the heap exactly |
| `Zone.Zones.AddZone` | system/kern/zalloc.c:80-94 | a new zone without buffers, with the right buffer size |
| `Zone.Zones.Cram` | system/kern/zalloc.c:124-133 | memory apart from all buffers becomes exactly len / bufsize buffers of the zone, one behind the other, in front of the old free list and counted; live buffers and other zones stay |
| `Zone.CrammedIs` | system/kern/zalloc.c:124-133 | the recursive description of cramming cuts the memory into as many whole buffers as it holds |
| `Zone.Zones.RemoveTop` | system/kern/zalloc.c:56-68 | pops the free list and writes the zone into the header; null exactly when it is empty |
| `Zone.Zones.Refill` | system/kern/zalloc.c:149-161 | below 32 buffers the memory obtained is cut into whole buffers of the zone, otherwise nothing changes |
| `Zone.Zones.Alloc` | system/kern/zalloc.c:97-109 | an object of the zone that was not live, its header naming the zone; null exactly when the zone had no buffer and obtained none |
| `Zone.Zones.Free` | system/kern/zalloc.c:111-122 | the buffer goes back on the list of the zone its header names |
| `Zone.Zones.UserWrite` | system/kern/zalloc.c:61-64 | writes behind the header of a live object cannot break the heap |
| `KernelWindow.FindRun` | system/arch/i686/physmem.c:61-67 | the least run of free entries that is long enough, or none exists |
| `KernelWindow.MapPageRange` | system/arch/i686/physmem.c:54-78 | maps consecutive pages there, touching only free entries; zero means no run was long enough |
| `KernelWindow.MapRange` | system/arch/i686/physmem.c:106-113 | the same for a byte range at any offset |
| `KernelWindow.UnmapRange` | system/arch/i686/physmem.c:80-121 | clears exactly the entries of the pages the range touches, none for a range that ends before its first page |
| `KernelWindow.MappedTranslates` | system/arch/i686/physmem.c:69-75 | every byte va+k of the range translates to pa+k |
| `KernelWindow.PteFlags` | system/arch/i686/physmem.c:69-75 | every entry is present and writable |
| `KernelWindow.UnmapRestores` | system/arch/i686/physmem.c:80-121 | clearing what was mapped restores the table |
| `KernelWindow.MapThenUnmap` | system/arch/i686/physmem.c:106-121 | mapping and unmapping any range of any length leaves the page table exactly as it was |

## Left out

- Boot, assembly, descriptor tables, interrupt controllers and the context switch: hardware effects; an induced preemption is one `sched_preempt`.
- Memory-model fences and the spinlock itself: steps are taken as atomic and sequentially consistent.
- `vm_phys_free`: its range test skips every page of any range, so it frees nothing.
- `pmap_enter` and the page-table walk of the MMU: entering a page is an update of a map from addresses to frames.
- Integer widths of `sl_number`, `sched_thread_count`, `zn_count` and tree depths: they count threads, buffers or nodes and are unbounded here.
- Zone.CalcBufsize: sizes within 132 bytes of 2^32, where the loop wraps around, are not modelled, because no zone has such a size.
- Zone.Zones.AddZone: takes the count of a new zone to be 0, which the source does not set.
- Zone.Zones.Alloc: the memory a refill obtains is a parameter, required to be apart from all buffers.
- FaultWalk.PageFault: for page-aligned nests in which a dataspace has a frame for each page of its region; other nests are not described.
- KernelWindow.UnmapRange: only ranges inside the table, as its callers use it.
- TreeShape.RemovedExact: depths are described for removal paths of up to 64 slots, which is always so when the depths of the two children together are at most 64; contents are described for all.
- Zone.Zones.UserWrite: a zone record is itself a live object of `zone_zone` in the source, so a write behind that object's header can break a free list; here the records are a map of their own, out of reach of such writes.
- Scheduler rings are sequences in the scheduler and wait models; that the pointer rings refine sequences is proved in `Ring.dfy` and used for the wait queue of the lock in `WaitQueue.dfy`.
- Other schedulers: `SchedOps` and `WaitProtocol` follow one scheduler, with wakers on any CPU; a thread it does not have takes no step of its own there. Several schedulers at once appear only in `SchedLocks`.
- `kern_stacks.c`, `kern_thread.c`, `dataspace.c`, `protection_domain.c`, the terminal, `printf`, string functions and `mp.c`: setup code and output, only easy members.
