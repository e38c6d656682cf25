# Verified models of an operating-systems course repository

The repository holds two Pintos kernels, the Pintos list library and a MapReduce worker in Rust. This
project models its hardest parts in Dafny and proves what they promise, for all inputs and all runs:

- the intrusive doubly linked list with its natural merge sort (`ListOrder`, `IntrusiveList`);
- semaphores, locks, Mesa condition variables and the writer-preferring readers-writers lock as a step
  system of any number of threads, with safety and progress (`RwLock`, `RwLockProof`, `RwLockProgress`,
  `RwLockStarvation`, `RwLockMachine`);
- the FIFO scheduler with semaphores and the timer (`Scheduler`, `SchedulerProof`, `SchedulerLaws`,
  `SchedulerMachine`);
- priority donation and the sleep queue (`Donation`, `SleepQueue`);
- 64-bit division from a 64/32-bit divide instruction (`Division`);
- the arena allocator (`Arena`, `ArenaProof`, `ArenaHeap`);
- file I/O over sectors, sector ownership and two-level page tables (`Inode`, `Sectors`,
  `SectorsLaws`, `SectorsMachine`, `PageDir`);
- the length-delimited codec and the word-count job (`Codec`, `WordCount`, `Worker`, `Job`);
- the ustar header (`Ustar`), heap sort and binary search (`HeapSort`).

`Common` holds what several modules share.

`dafny verify dfyconfig.toml` checks everything.

A part whose code updates state is a class whose methods follow the code statement by statement. Their
postconditions tie the new state to a function of the old one (`Abs() == Step(old(Abs()), ...)`), and the
lemmas about that function are quantified over all runs. A thread may be interrupted between any two
methods of such a class; what one method does is one interrupts-off section, or one section under a lock
whose exclusion is itself proved.

What other code supplies is a parameter: the answers of the page allocator and of malloc(), whether the
free map reaches its file, the outcome of a remote call, the comparison function, the hash function, UTF-8
decoding and the library sort. They are constrained only by what their documentation promises, such as
fresh aligned pages or a sorted permutation.

Where the code does not do what one would expect, the exact condition is proved:

- `malloc()` adds its header in 32 bits: a block is as large as asked for if and only if `size + 12` does
  not wrap; the requests that wrap are granted a single page (`LiveBigEnough`, `WrappedRequest`), and then
  `realloc()` copies past it if and only if the old block was larger than a page (`ReallocCopies`,
  `ReallocOverrunExample`).
- `umod64()` and `smod64()` return 32 bits: right for every dividend if and only if `d <= 2^32`, or
  `|d| <= 2^31` (`UmodDivisors`, `SmodDivisors`); `sdiv64()` misses only `-2^63 / -1`.
- `timer_sleep()` wakes a thread early if and only if `ticks + n` overflows (`WokenEarlyIffOverflow`,
  `OverflowExample`).
- Donation stops at the first holder that is high enough. Afterwards every donation is in place if and only if,
  before, each waiter off the walk had no more than its holder has or is lifted to (`DonateClosesIff`), so in
  particular if only the donation of t was missing (`DonateCloses`); `EarlyStopNeedsTheOthers` is a failing state.
- The readers-writers lock promises a queued writer its turn if no new writers arrive (`QueuedWriterGetsIn`),
  and a thread not yet queued its turn if nobody new arrives (`EverybodyGetsIn`). Neither can be dropped:
  `WriterOvertakenForEver` and `WriterKeptOutForEver` are fair schedules under which the writer never gets in.
- `filesys_create()` loses the data sectors of a file if and only if it cannot add the name of a non-empty
  file (`LosesIffOrphans`, `OrphanExample`).
- `pagedir_destroy()` frees a page twice if and only if a frame is mapped twice or is itself a table or
  the directory, or a table is the directory (`FreedOnceIffOwned`, `SharedFrameExample`).
- `ustar_make_header()` accepts a negative size, which `ustar_parse_header()` refuses (`MakeParse`).
- The comment in malloc.c speaks of blocks up to 2 kB, but the largest descriptor is for 1024 bytes; the model
  follows the code (`MallocInit`).
- In `inode_write_at()` the branch that clears the bounce buffer is never taken: a chunk that neither
  starts after the beginning of its sector nor ends before its end is written directly (asserted in `WriteAt`).

## Model

| member | source | states |
|---|---|---|
| `IntrusiveList.Insert` | hw-list/list.c:151-156 | an element that is on no chain goes in before the given one; links stay well formed and nothing else moves |
| `IntrusiveList.Remove` | hw-list/list.c:222-227 | the element leaves the chain, its successor is returned, and its own links are left as they were |
| `IntrusiveList.SpliceWithin` | hw-list/list.c:164-182 | moving a segment within one list relinks it in front of the given element, which must lie outside the segment (otherwise the segment would become a ring) |
| `IntrusiveList.SpliceAcross` | hw-list/list.c:164-182 | moving a segment between two lists takes exactly it out of one chain and into the other |
| `IntrusiveList.FindEndOfRun` | hw-list/list.c:307-318 | returns the end of the maximal nondecreasing run, counting one comparison per step |
| `IntrusiveList.InplaceMerge` | hw-list/list.c:325-341 | relinks two adjacent sorted runs into their stable merge, in place, and counts its comparisons |
| `IntrusiveList.List.SortPass` | hw-list/list.c:359-373 | one pass of the outer loop computes the functional pass and counts its output runs |
| `IntrusiveList.List.Sort` | hw-list/list.c:346-377 | for every list and strict weak order: well-formed links, the stable sorted permutation of the same nodes, and at most 2n * max(1, ceil(lg R)) comparisons |
| `IntrusiveList.List.InsertOrdered` | hw-list/list.c:382-394 | the element goes before the first element that it is less than |
| `IntrusiveList.List.Reverse` | hw-list/list.c:281-291 | the nodes are in reverse order with well-formed links |
| `IntrusiveList.List.PushBack` | hw-list/list.c:192-194 | the element is appended |
| `IntrusiveList.List.Unique` | hw-list/list.c:400-417 | exactly the first of each group of adjacent equals stays, the others are appended in order to the second list if there is one |
| `ListOrder.StableSortUnique` | hw-list/list.c:343-346 | for a strict weak order there is only one stable sorted permutation of a sequence |
| `ListOrder.MergeSorted` | hw-list/list.c:320-324 | merging sorted runs gives a sorted run |
| `ListOrder.MergeTies` | hw-list/list.c:334-340 | merging keeps equal elements in the order first run, then second run |
| `ListOrder.RunEndMaximal` | hw-list/list.c:302-306 | the run found is nondecreasing and could not be longer |
| `ListOrder.PassHalvesCount` | hw-list/list.c:359-374 | a pass over R maximal runs outputs exactly ceil(R / 2) runs |
| `ListOrder.PassHalvesRuns` | hw-list/list.c:352-374 | a pass takes R maximal runs to at most ceil(R / 2): the measure that ends the sort |
| `ListOrder.SortIsStableSort` | hw-list/list.c:343-377 | iterating passes until one run is left gives the stable sorted permutation |
| `ListOrder.SortCostBound` | hw-list/list.c:343-345 | n elements in R runs cost at most 2n * max(1, ceil(lg R)) comparisons |
| `ListOrder.InsertOrderedIsStableSort` | hw-list/list.c:379-394 | ordered insertion into a sorted list is appending followed by a stable sort |
| `ListOrder.ReverseTwice` | hw-list/list.c:281-291 | reversing twice is the identity |
| `ListOrder.UniqueConserves` | hw-list/list.c:396-417 | no element is lost or made up: each is kept or a duplicate |
| `ListOrder.UniqueKeepsFirsts` | hw-list/list.c:396-399 | on a sorted list exactly one element of each class of equals is kept, its first |
| `ListOrder.UniqueByNeighbours` | hw-list/list.c:400-417 | on any list an element stays exactly if it differs from its neighbour before it, and is a duplicate otherwise, in order |
| `RwLockProof.NoLostWakeup` | proj-pregame/src/threads/synch.c:230-277 | in every run with the guard free: a queued reader implies AW + WW > 0, a queued writer implies AR + AW > 0 or a writer already signalled; with no holder and nobody signalled both queues are empty |
| `RwLockProof.Exclusion` | proj-pregame/src/threads/synch.c:222-277 | in every run AR, AW, WR and WW are the numbers of threads that hold or await the lock, and an active writer excludes every other holder |
| `RwLockProof.WriterPreference` | proj-pregame/src/threads/synch.c:234-250 | from the moment a writer waits until it is active, no reader becomes active |
| `RwLockProof.NoDeadlock` | proj-pregame/src/threads/synch.c:230-277 | when nothing is left to run, a blocked thread waits for a thread that holds the lock |
| `RwLockProof.GuardAssertions` | proj-pregame/src/threads/synch.c:172-219 | in every run the guard semaphore plus the number of threads inside is 1, no two threads are inside, and the holder field names exactly the thread that has it |
| `RwLockProof.StepInv` | proj-pregame/src/threads/synch.c:58-358 | every step of every thread keeps the whole invariant of guard, queues, counters and pending wakeups |
| `RwLockProof.FirstComeFirstServed` | proj-pregame/src/threads/synch.c:58-358 | the guard's waiters and both conditions are first come, first served: joined at the back when a thread blocks or begins to wait, left from the front at an up, a signal or a turn of a broadcast, and at no other time |
| `RwLockProof.SignalsFreeLock` | proj-pregame/src/threads/synch.c:257-277 | in every run a release signals only when the lock has become free: a writer if one waits, the readers only if none does |
| `RwLockProgress.WriterGetsIn` | proj-pregame/src/threads/synch.c:230-277 | under every fair schedule, whatever readers and writers arrive, when a writer waits some writer becomes active |
| `RwLockProgress.QueuedWriterGetsIn` | proj-pregame/src/threads/synch.c:230-277 | under every fair schedule a queued writer becomes active itself, however many readers keep arriving, if no new writers do |
| `RwLockProgress.WriterReleases` | proj-pregame/src/threads/synch.c:257-277 | under every fair schedule an active writer releases, and without new writers one thread fewer then wants or has the lock as writer |
| `RwLockStarvation.WriterOvertakenForEver` | proj-pregame/src/threads/synch.c:242-250 | with new writers it may not: a schedule in which every thread has turns again and again and a queued writer stays queued for ever |
| `RwLockProgress.EverybodyGetsIn` | proj-pregame/src/threads/synch.c:230-277 | under every fair schedule, once nobody new arrives every thread that wants the lock, queued or not, gets it in its role |
| `RwLockStarvation.WriterKeptOutForEver` | proj-pregame/src/threads/synch.c:58-72 | with new readers alone a writer that is not queued yet may not: a schedule in which every thread has turns again and again and the writer is kept from the guard for ever |
| `RwLockProgress.Drains` | proj-pregame/src/threads/synch.c:230-277 | ... and everybody ends up outside |
| `RwLockProgress.StepNearer` | proj-pregame/src/threads/synch.c:58-358 | every step of a runnable thread other than a release section lowers the measure: signals to give, threads on the way in, distance to their next section |
| `RwLockMachine.Machine.constructor` | proj-pregame/src/threads/synch.c:222-227 | the initial state of the lock |
| `RwLockMachine.Machine.GuardDown` | proj-pregame/src/threads/synch.c:58-72 | one turn of the loop of sema_down() on the guard is a step of the model |
| `RwLockMachine.Machine.TakeHolder` | proj-pregame/src/threads/synch.c:172-179 | lock_acquire() after sema_down() is a step of the model |
| `RwLockMachine.Machine.ReaderSection` | proj-pregame/src/threads/synch.c:234-241 | the reader loop under the guard, first entry or after a wait, with the first half of cond_wait(), is a step of the model |
| `RwLockMachine.Machine.WriterSection` | proj-pregame/src/threads/synch.c:242-250 | the writer loop likewise |
| `RwLockMachine.Machine.ReleaseSection` | proj-pregame/src/threads/synch.c:257-273 | rw_lock_release() under the guard, up to whom it signals, is a step of the model |
| `RwLockMachine.Machine.SignalWriter` | proj-pregame/src/threads/synch.c:336-344 | cond_signal() pops and ups the first waiter |
| `RwLockMachine.Machine.BroadcastTurn` | proj-pregame/src/threads/synch.c:352-358 | one turn of cond_broadcast() is a step of the model |
| `RwLockMachine.Machine.ClearHolder` | proj-pregame/src/threads/synch.c:204-208 | lock_release() before sema_up() is a step of the model |
| `RwLockMachine.Machine.GuardUp` | proj-pregame/src/threads/synch.c:99-109 | sema_up() on the guard wakes its first waiter |
| `RwLockMachine.Machine.WaitDown` | proj-pregame/src/threads/synch.c:314-327 | one turn of sema_down() on the waiter semaphore, after which the thread goes for the guard again |
| `SchedulerProof.StepInv` | proj-pregame/src/threads/thread.c:221-315 | every step of threads, semaphores and timer keeps the scheduler invariant |
| `SchedulerProof.OneListEach` | proj-pregame/src/threads/thread.c:221-315 | in every run exactly one thread runs, ready-list members are READY, semaphore waiters BLOCKED, READY threads (but the idle one) are on the ready list and BLOCKED ones on some waiters list, nobody is on two lists or twice on one, a DYING thread is on none and its page is freed once |
| `SchedulerProof.WaitersNotForgotten` | proj-pregame/src/threads/synch.c:44-109 | in every run no thread waits twice, and while threads wait at least value many have been woken and not rechecked yet |
| `SchedulerLaws.SemaphoreCounts` | proj-pregame/src/threads/synch.c:44-109 | in every run the value of a semaphore is the value it was made with, plus the calls of sema_up() on it in the run, minus the downs that the run completed |
| `SchedulerLaws.StepUnits` | proj-pregame/src/threads/synch.c:58-109 | a step changes a value exactly by an up of it or by a completed down of it |
| `SchedulerLaws.DownEffect` | proj-pregame/src/threads/synch.c:58-72 | sema_down() returns to its caller at a positive value and otherwise blocks it behind all other waiters, on entry and after each wakeup |
| `SchedulerLaws.WaitersInOrder` | proj-pregame/src/threads/synch.c:99-109 | over every run a waiter with k others before it is made ready by the (k+1)-th later sema_up() |
| `SchedulerLaws.SpawnEffect` | proj-pregame/src/threads/thread.c:176-213 | a new thread is the last ready one, and nothing else about threads changes |
| `SchedulerLaws.ExitIsFinal` | proj-pregame/src/threads/thread.c:288-299 | after thread_exit(), in every later state, the thread is dying, not running, on no list and, but for the initial thread, its page is freed |
| `SchedulerLaws.TicksCounted` | proj-pregame/src/threads/thread.c:137-152 | in every run thread_ticks is the number of timer ticks since the last schedule() |
| `SchedulerProof.StepAdvances` | proj-pregame/src/threads/thread.c:451-456 | a ready thread moves up one place at each schedule() and at no other time |
| `SchedulerProof.BoundedWaiting` | proj-pregame/src/threads/thread.c:451-550 | a thread with k threads ahead of it runs by the (k+1)-th later schedule() |
| `SchedulerProof.TicksForceSchedules` | proj-pregame/src/threads/thread.c:137-152 | n timer ticks force a schedule() at least every TIME_SLICE ticks |
| `SchedulerProof.RunsWithinTicks` | proj-pregame/src/threads/thread.c:137-152 | so it runs within TIME_SLICE * (k + 1) ticks |
| `SchedulerProof.ReadyRunsAgain` | proj-pregame/src/threads/thread.c:137-152 | in every infinite run in which the timer keeps ticking, a thread that is ready runs again |
| `SchedulerMachine.Kernel.Schedule` | proj-pregame/src/threads/thread.c:504-550 | schedule() with thread_switch_tail(): the front of the ready list or the idle thread runs, a dying predecessor is freed |
| `SchedulerMachine.Kernel.Block` | proj-pregame/src/threads/thread.c:221-227 | thread_block() |
| `SchedulerMachine.Kernel.IdleTurn` | proj-pregame/src/threads/thread.c:367-391 | one turn of the idle loop is a step of the model |
| `SchedulerMachine.Kernel.Unblock` | proj-pregame/src/threads/thread.c:251-261 | thread_unblock() appends to the ready list |
| `SchedulerMachine.Kernel.Yield` | proj-pregame/src/threads/thread.c:303-315 | thread_yield() is a step of the model; the idle thread is not enqueued |
| `SchedulerMachine.Kernel.Exit` | proj-pregame/src/threads/thread.c:288-299 | thread_exit() is a step of the model |
| `SchedulerMachine.Kernel.Create` | proj-pregame/src/threads/thread.c:176-213 | thread_create() adds one ready thread, or fails without effect when there is no page for it |
| `SchedulerMachine.Kernel.DownTurn` | proj-pregame/src/threads/synch.c:58-72 | one turn of the loop of sema_down() takes a unit or blocks behind the other waiters |
| `SchedulerMachine.Kernel.TryDown` | proj-pregame/src/threads/synch.c:78-93 | succeeds exactly when the value is positive |
| `SchedulerMachine.Kernel.Up` | proj-pregame/src/threads/synch.c:99-109 | sema_up() raises the value and readies the first waiter |
| `SchedulerMachine.Kernel.TimerTick` | proj-pregame/src/threads/thread.c:137-152 | a tick, with the yield that the end of a time slice causes |
| `Donation.DonateLifts` | projects1-3/src/threads/thread.c:272-287 | the walk lifts exactly the holders up the chain from t before the first that is as high as t, to the priority of t; on rings too |
| `Donation.DonateClosesIff` | projects1-3/src/threads/thread.c:272-287 | afterwards every waiter has at most the priority of its holder if and only if, before, every waiter that is not on the way has at most the priority its holder has or is lifted to |
| `Donation.DonateCloses` | projects1-3/src/threads/thread.c:272-287 | in particular if every waiter except t has inherited before, then all have after |
| `Donation.DonateLeast` | projects1-3/src/threads/thread.c:272-287 | every closed assignment above the old priorities is above the new ones |
| `Donation.DonateRaises` | projects1-3/src/threads/thread.c:272-287 | priorities only rise, and only to the donated one |
| `Donation.EarlyStopNeedsTheOthers` | projects1-3/src/threads/thread.c:283-285 | a state that fails that condition: the walk stops early and a waiter stays above its holder |
| `Donation.DonateKeepsQueue` | projects1-3/src/threads/thread.c:278-281 | the priority queue stays sorted and holds exactly the ready threads, each once |
| `Donation.DonateKeepsOrder` | projects1-3/src/threads/thread.c:278-281 | threads that are not lifted keep their relative order |
| `Donation.PriorityKernel.RecurseDonate` | projects1-3/src/threads/thread.c:272-287 | the loop terminates on every wait graph, cycles included, and computes that assignment and that queue |
| `Donation.PriorityKernel.Enqueue` | projects1-3/src/threads/thread.c:258-270 | thread_enqueue() under the priority policy keeps the queue sorted, after equals |
| `Donation.PriorityKernel.ScheduleNext` | projects1-3/src/threads/thread.c:548-556 | the thread chosen is not outranked by any ready thread |
| `SleepQueue.StepInv` | projects1-3/src/devices/timer.c:81-99 | requests, insertions and interrupts keep the sleeping list ordered by wake-up time, then arrival, and exactly the sleeping threads on it |
| `SleepQueue.AlwaysOrdered` | projects1-3/src/devices/timer.c:92-97 | in every run the list is sorted by wake_time and names nobody twice |
| `SleepQueue.WakesExactlyTheDue` | projects1-3/src/devices/timer.c:144-157 | despite the early break an interrupt wakes a sleeper if and only if its wake_time is not after ticks |
| `SleepQueue.SleepsExactlyUntilDue` | projects1-3/src/devices/timer.c:144-157 | over every run a sleeper stays on the list if and only if no interrupt at or after its wake_time has happened |
| `SleepQueue.SleepCall` | projects1-3/src/devices/timer.c:81-99 | a whole timer_sleep(n), with any activity between and after its two halves, sleeps until the first later interrupt at or after start + n; if that sum overflows, until the first later interrupt |
| `SleepQueue.WokenEarlyIffOverflow` | projects1-3/src/devices/timer.c:93 | a woken thread has slept its n ticks if and only if start + n did not overflow 64 bits |
| `SleepQueue.OverflowWakesAtOnce` | projects1-3/src/devices/timer.c:93 | after an overflow the very next interrupt wakes the thread |
| `SleepQueue.OverflowExample` | projects1-3/src/devices/timer.c:93 | a run that reaches it: asking for 2^63 - 1 ticks at tick 1 sleeps one tick |
| `SleepQueue.WakesInOrder` | hw-list/list.c:390-393 | an earlier wake-up time, or an equal one that came first, stands earlier on the list and is not left behind |
| `SleepQueue.Timer.Ask` | projects1-3/src/devices/timer.c:89-93 | nothing for n <= 0; otherwise the wake-up time is computed |
| `SleepQueue.Timer.Enqueue` | projects1-3/src/devices/timer.c:94-98 | the ordered insertion and the block |
| `SleepQueue.Timer.Interrupt` | projects1-3/src/devices/timer.c:144-157 | the list splits into the woken threads, in order and all due, and the rest, none due |
| `Division.Nlz` | proj-pregame/src/lib/arithmetic.c:37-63 | the shift that brings the highest set bit to bit 31 |
| `Division.TwoWordDivision` | proj-pregame/src/lib/arithmetic.c:69-98 | dividing the high word first and its remainder with the low word gives the exact quotient, and the second quotient is below 2^32 |
| `Division.TrialQuotient` | proj-pregame/src/lib/arithmetic.c:100-108 | the trial quotient of the halved dividend is the true one or one more |
| `Division.LargeDivisor` | proj-pregame/src/lib/arithmetic.c:99-109 | for divisors of 2^32 and more the trial quotient, shifted back and corrected, is exact |
| `Division.ShortDivisor` | proj-pregame/src/lib/arithmetic.c:93-98 | the branch for divisors below 2^32 is exact and cannot trap |
| `Division.Udiv64` | proj-pregame/src/lib/arithmetic.c:67-111 | exactly floor(n / d) for all 64-bit n and all d except 0 |
| `Division.Umod64` | proj-pregame/src/lib/arithmetic.c:115 | the true remainder if and only if it is below 2^32 |
| `Division.UmodDivisors` | proj-pregame/src/lib/arithmetic.c:115 | right for every dividend if and only if d <= 2^32 |
| `Division.TruncMeaning` | proj-pregame/src/lib/arithmetic.c:117-128 | truncating quotient and remainder: n = d q + r with r smaller than d in magnitude and of the sign of n |
| `Division.Sdiv64` | proj-pregame/src/lib/arithmetic.c:119-124 | the quotient truncated toward zero, except for -2^63 / -1, and what that one gives |
| `Division.Smod64` | proj-pregame/src/lib/arithmetic.c:128 | the true remainder if and only if it fits 32 bits |
| `Division.SmodDivisors` | proj-pregame/src/lib/arithmetic.c:128 | right for every dividend if and only if the magnitude of d is at most 2^31 |
| `Arena.Class` | proj-pregame/src/threads/malloc.c:93-97 | the smallest descriptor that fits, if any |
| `Arena.BlockToArena` | proj-pregame/src/threads/malloc.c:237-257 | block_to_arena() undoes arena_to_block() and its alignment assertion holds |
| `Arena.PageCountFacts` | proj-pregame/src/threads/malloc.c:101 | the 32-bit page count is the fewest pages that hold header and size if their sum does not wrap; otherwise it is 0 or 1, and when it is which |
| `Arena.MallocInv` | proj-pregame/src/threads/malloc.c:83-142 | malloc() keeps the allocator invariant whatever the page allocator answers |
| `Arena.FreeInv` | proj-pregame/src/threads/malloc.c:196-233 | free() keeps it, and its assertion on the count of a full arena holds |
| `ArenaProof.EveryRunSafe` | proj-pregame/src/threads/malloc.c:83-233 | over every run of malloc() and free() a live block is inside its arena behind the header, at least the requested size if and only if size + 12 does not wrap, and disjoint from every other live block |
| `ArenaProof.EveryRunAccounts` | proj-pregame/src/threads/malloc.c:83-233 | over every run free_cnt and the free lists are exact, and no block of a page that is not owned, given back or never had, is listed or live |
| `ArenaProof.LiveApart` | proj-pregame/src/threads/malloc.c:83-142 | two live blocks do not overlap |
| `ArenaProof.LiveInside` | proj-pregame/src/threads/malloc.c:237-257 | a live block lies inside its arena, behind the header |
| `ArenaProof.LiveBigEnough` | proj-pregame/src/threads/malloc.c:98-111 | a live block is as large as asked for if and only if adding the header did not wrap around |
| `ArenaProof.WrappedRequest` | proj-pregame/src/threads/malloc.c:101-111 | a request that wraps around is granted one page |
| `ArenaProof.ZeroPagesRefused` | proj-pregame/src/threads/malloc.c:101-104 | a request whose page count wraps to 0 gets a null pointer |
| `ArenaProof.CountsExact` | proj-pregame/src/threads/malloc.c:128-140 | free_cnt is the number of the arena's blocks on the free list, never all of them, and every other block is live |
| `ArenaProof.FreeListsOwned` | proj-pregame/src/threads/malloc.c:129-132 | every free block is a block of an arena still owned, of its list's size, on one list once |
| `ArenaProof.ReturnedPageForgotten` | proj-pregame/src/threads/malloc.c:215-224 | no block of a page given back remains on any free list or live |
| `ArenaProof.MallocAnswer` | proj-pregame/src/threads/malloc.c:79-142 | malloc() fails without effect or hands out one block that nobody held |
| `ArenaProof.FreeUndoesMalloc` | proj-pregame/src/threads/malloc.c:83-233 | freeing a block just allocated restores lists, order, counts and arenas exactly |
| `ArenaProof.NothingHeldNothingKept` | proj-pregame/src/threads/malloc.c:28-30 | when no block is held every page has been given back |
| `ArenaProof.ReallocCopies` | proj-pregame/src/threads/malloc.c:178-192 | the copy is of the smaller of the old block and the new size, so inside the old block, and inside the new one if and only if the request did not wrap or the old block fits one page |
| `ArenaProof.ReallocKeepsData` | proj-pregame/src/threads/malloc.c:178-192 | if the request does not wrap, every byte below both the old extent and the new size is found in the new block, and no other live block changes |
| `ArenaProof.ReallocOverrunExample` | proj-pregame/src/threads/malloc.c:178-192 | a run that reaches it: 8180 bytes are copied into a block of 4084 |
| `ArenaHeap.MallocInit` | proj-pregame/src/threads/malloc.c:68-79 | seven descriptors, 16 to 1024 bytes, each twice the one before |
| `ArenaHeap.Heap.Malloc` | proj-pregame/src/threads/malloc.c:83-142 | computes the specified state and answer |
| `ArenaHeap.Heap.CarveArena` | proj-pregame/src/threads/malloc.c:125-132 | all blocks of the new arena are appended in order |
| `ArenaHeap.Heap.Unlist` | proj-pregame/src/threads/malloc.c:219-222 | exactly the arena's blocks leave the free list, whose order is otherwise kept |
| `ArenaHeap.Heap.Free` | proj-pregame/src/threads/malloc.c:196-233 | computes the specified state |
| `ArenaHeap.Heap.Realloc` | proj-pregame/src/threads/malloc.c:178-192 | malloc(), copy of the smaller of the old extent and the new size, and free() in sequence; on failure nothing changes |
| `Inode.ByteToSector` | proj-pregame/src/filesys/inode.c:40-46 | a sector of the file for positions inside it, -1 past its end |
| `Inode.Transferred` | proj-pregame/src/filesys/inode.c:165-268 | max(0, min(size, length - offset)) bytes; without memory for a bounce buffer only the whole sectors among those, and none from inside a sector |
| `Inode.BlockDevice.ReadAt` | proj-pregame/src/filesys/inode.c:165-208 | returns that count and the corresponding slice of the flat file; the rest of the buffer is untouched |
| `Inode.BlockDevice.WriteAt` | proj-pregame/src/filesys/inode.c:215-268 | returns that count, 0 if writes are denied, and leaves the device with exactly that prefix of the buffer written |
| `Inode.BlockDevice.ZeroData` | proj-pregame/src/filesys/inode.c:77-83 | a new file reads as zeros and no other sector changes |
| `Inode.WriteIsSplice` | proj-pregame/src/filesys/inode.c:210-214 | the flat file becomes its old bytes with the written range replaced |
| `Inode.WriteLeavesRest` | proj-pregame/src/filesys/inode.c:249-257 | every byte of every sector outside the range is unchanged |
| `Inode.WriteLeavesOthers` | proj-pregame/src/filesys/inode.c:215-268 | files on other sectors are unchanged |
| `Inode.ReadAfterWrite` | proj-pregame/src/filesys/inode.c:162-268 | what is written is what is then read |
| `Inode.WrittenTwice` | proj-pregame/src/filesys/inode.c:223-264 | two adjacent writes are one |
| `Sectors.Scan` | proj-pregame/src/lib/kernel/bitmap.c:235-247 | the first run of clear bits, or none exists |
| `Sectors.Allocate` | proj-pregame/src/filesys/free-map.c:25-34 | succeeds exactly when a run exists and the map can be written; on failure the map is unchanged |
| `Sectors.SectorCount` | proj-pregame/src/filesys/inode.c:22-24 | the fewest sectors that hold the bytes, unless the 32-bit sum wraps around, and the count then |
| `Sectors.InitInv` | proj-pregame/src/filesys/filesys.c:80-87 | a formatted device, with the inodes and data of free map and root directory, satisfies the invariant |
| `Sectors.StepInv` | proj-pregame/src/filesys/inode.c:60-160 | create, open, reopen, remove and close keep sector ownership and the open-inode list consistent |
| `Sectors.OwnershipOverRuns` | proj-pregame/src/filesys/inode.c:60-160 | in every run from a formatted device no sector belongs to two inodes, and there is one in-memory inode per sector and per address |
| `SectorsLaws.OpenCountsReferences` | proj-pregame/src/filesys/inode.c:94-153 | in every run from a formatted device open_cnt is the number of references that the run handed out by opens and reopens and has not closed |
| `SectorsLaws.StepReferences` | proj-pregame/src/filesys/inode.c:94-160 | a step changes open_cnt exactly by a reference handed out or closed, and an inode that stays open is removed afterwards if and only if it was or the step removes it |
| `SectorsLaws.RemovedByRemove` | proj-pregame/src/filesys/inode.c:157-160 | over every run an inode becomes removed only by inode_remove() of it |
| `SectorsLaws.RemovedThenClosed` | proj-pregame/src/filesys/inode.c:135-160 | in a run that removes an open inode of f and then takes its references to none for the first time, f keeps all of its sectors until the last step, which clears them all and ends the file |
| `Sectors.ReleasedAtLastClose` | proj-pregame/src/filesys/inode.c:135-153 | a sector of an inode is released by the last close of the removed inode and by no other step |
| `Sectors.FileOverRuns` | proj-pregame/src/filesys/inode.c:135-160 | from any moment of any run at which f is a file: all of its sectors stay set until the last close of the removed inode, which clears them all; without such a step they stay set throughout |
| `Sectors.ReleasedOnce` | proj-pregame/src/filesys/inode.c:135-153 | that step is the only one |
| `Sectors.LostIsUnowned` | proj-pregame/src/filesys/free-map.c:25-41 | the sectors recorded as lost are exactly those that the free map marks and no inode owns |
| `Sectors.LosesIffOrphans` | proj-pregame/src/filesys/filesys.c:39-50 | a marked sector that no inode owns, and that was not so before, appears in a step if and only if the step is a creation that got all its sectors but could not add the name; such a sector stays so |
| `Sectors.OrphanExample` | proj-pregame/src/filesys/filesys.c:39-50 | such a creation on a formatted device of eight sectors |
| `SectorsLaws.CreatesIff` | proj-pregame/src/filesys/filesys.c:39-50 | a file comes into being if and only if every part succeeds and there are a clear sector and then a clear run for the data |
| `Sectors.MemAt` | proj-pregame/src/filesys/free-map.c:37-41 | the sectors of an open inode are marked, as free_map_release() asserts |
| `SectorsMachine.FileSystem.constructor` | proj-pregame/src/filesys/filesys.c:80-87 | the formatted device |
| `SectorsMachine.FileSystem.ScanMap` | proj-pregame/src/lib/kernel/bitmap.c:235-247 | computes the scan |
| `SectorsMachine.FileSystem.AllocateSectors` | proj-pregame/src/filesys/free-map.c:25-34 | computes the allocation |
| `SectorsMachine.FileSystem.ReleaseSectors` | proj-pregame/src/filesys/free-map.c:37-41 | clears exactly the given bits, which must be set |
| `SectorsMachine.FileSystem.Create` | proj-pregame/src/filesys/filesys.c:39-50 | adds one inode of the given length or none; a failure that loses nothing leaves the free map as it was |
| `SectorsMachine.FileSystem.OpenInode` | proj-pregame/src/filesys/inode.c:94-120 | returns the in-memory inode of the sector if there is one, otherwise makes it or fails |
| `SectorsMachine.FileSystem.ReopenInode` | proj-pregame/src/filesys/inode.c:123-127 | one more reference |
| `SectorsMachine.FileSystem.RemoveInode` | proj-pregame/src/filesys/inode.c:157-160 | the removal step: the inode is marked, and its sectors stay until the last close |
| `SectorsMachine.FileSystem.CloseInode` | proj-pregame/src/filesys/inode.c:135-153 | one reference less; at the last one the inode goes, and if removed its sectors |
| `PageDir.EntryRoundTrip` | proj-pregame/src/threads/pte.h:66-98 | entries give back page, permission and flags they were made from |
| `PageDir.NotPresentKeepsRest` | proj-pregame/src/userprog/pagedir.c:122-125 | clearing the present bit keeps the other bits |
| `PageDir.AddressSplits` | proj-pregame/src/threads/pte.h:31-35 | an address is its two indexes and its offset, and user addresses are those with directory index below 768 |
| `PageDir.EntryChanged` | proj-pregame/src/userprog/pagedir.c:96-100 | changing an entry changes the flat map at its page only |
| `PageDir.TableAdded` | proj-pregame/src/userprog/pagedir.c:60-70 | an empty table changes no mapping |
| `PageDir.AddressSpace.constructor` | proj-pregame/src/userprog/pagedir.c:15-20 | the kernel's entries and no user mapping |
| `PageDir.AddressSpace.LookupCreate` | proj-pregame/src/userprog/pagedir.c:50-75 | null exactly when a table is missing and cannot be had; mappings and kernel entries unchanged |
| `PageDir.AddressSpace.SetPage` | proj-pregame/src/userprog/pagedir.c:87-104 | adds exactly the given mapping; fails, without effect, exactly when a table cannot be had |
| `PageDir.AddressSpace.GetPage` | proj-pregame/src/userprog/pagedir.c:110-120 | the flat map's frame plus the offset, or null exactly when unmapped |
| `PageDir.AddressSpace.ClearPage` | proj-pregame/src/userprog/pagedir.c:126-137 | removes exactly the given mapping; every other entry and every other bit stays |
| `PageDir.AddressSpace.Destroy` | proj-pregame/src/userprog/pagedir.c:24-42 | frees, with multiplicity, each mapped frame, each page table and the directory |
| `PageDir.FreedOnceIffOwned` | proj-pregame/src/userprog/pagedir.c:22-42 | every page is freed at most once if and only if no frame is mapped twice, none is a table or the directory, and no table is the directory |
| `PageDir.SharedFrameExample` | proj-pregame/src/userprog/pagedir.c:36-38 | two user pages set to one frame: destroying frees a page twice |
| `PageDir.TableOnce` | proj-pregame/src/userprog/pagedir.c:31-40 | each page table is counted once |
| `PageDir.MappedToIsCardinality` | proj-pregame/src/userprog/pagedir.c:36-38 | the count of a frame is the number of user pages mapped to it |
| `Codec.GetPutU32` | hw-map-reduce-rs/src/codec/mod.rs:91 | reading a big-endian length gives what was written |
| `Codec.GetPutU64` | hw-map-reduce-rs/src/app/wc.rs:25-47 | the same for 64-bit counts |
| `Codec.U32IsBigEndian` | hw-map-reduce-rs/src/codec/mod.rs:91 | the four bytes written are the number in base 256, highest first |
| `Codec.U64IsBigEndian` | hw-map-reduce-rs/src/app/wc.rs:25-47 | the same for the eight bytes of a count |
| `Codec.DecodeEncode` | hw-map-reduce-rs/src/codec/mod.rs:57-145 | a reader yields exactly the packets that were sent, then ends |
| `Codec.EncodeDecode` | hw-map-reduce-rs/src/codec/mod.rs:134-145 | every buffer a reader gets through is the encoding of what it yields |
| `Codec.LengthDelimitedWriter.Send` | hw-map-reduce-rs/src/codec/mod.rs:88-93 | appends one packet, or panics without effect exactly on one longer than u32::MAX |
| `Codec.LengthDelimitedWriter.Finish` | hw-map-reduce-rs/src/codec/mod.rs:111-113 | the buffer decodes to what was sent |
| `Codec.LengthDelimitedReader.Next` | hw-map-reduce-rs/src/codec/mod.rs:136-144 | the first packet and the rest, the end, or a panic |
| `WordCount.WordsAreLetterRuns` | hw-map-reduce-rs/src/app/wc.rs:14-18 | splitting and dropping empty pieces gives the maximal runs of letters |
| `WordCount.KeysAreWords` | hw-map-reduce-rs/src/app/wc.rs:12-33 | a file yields keys if and only if it decodes, and they are the keys of its maximal letter runs, one each, in order |
| `WordCount.BucketReads` | hw-map-reduce-rs/src/worker/mod.rs:113-123 | reading back a stored bucket gives the pairs emitted for it |
| `WordCount.GatheredCounts` | hw-map-reduce-rs/src/worker/mod.rs:182-189 | the pairs that reach reduce task r carry the counts of the words that hash to r and no others |
| `WordCount.SubPermuted` | hw-map-reduce-rs/src/worker/mod.rs:126 | totals do not depend on how the sort orders equal keys |
| `WordCount.LeMeans` | hw-map-reduce-rs/src/worker/mod.rs:126 | the order of keys is lexicographic by bytes: the first difference decides, a proper prefix comes first |
| `WordCount.ReducedTotals` | hw-map-reduce-rs/src/worker/mod.rs:130-136 | grouping a sorted sequence yields each key once with its total |
| `WordCount.ReduceAnswers` | hw-map-reduce-rs/src/worker/mod.rs:126-136 | the reduced pairs of task r are the words that hash to r, each once, with their number of occurrences |
| `WordCount.AnswersAreCount` | hw-map-reduce-rs/src/worker/mod.rs:72-198 | outputs that each answer for their own words together hold every word that occurs exactly once, with its number of occurrences, and no other word |
| `Worker.WorkerState.Map` | hw-map-reduce-rs/src/worker/mod.rs:147-198 | stores for every reduce task the packets of its words; fails as not UTF-8 exactly if the file does not decode, and whenever it does not finish (a key too long, or words and no reduce tasks) nothing is stored |
| `Worker.MapEnds` | hw-map-reduce-rs/src/worker/mod.rs:147-198 | a file that decodes is mapped exactly if every key fits a packet and, if there are words, there is a reduce task |
| `Worker.WorkerState.GetData` | hw-map-reduce-rs/src/worker/mod.rs:309-318 | the stored buffer, if any |
| `Worker.MapAgain` | hw-map-reduce-rs/src/worker/mod.rs:191-195 | running a map task again changes nothing |
| `Worker.MapFaithful` | hw-map-reduce-rs/src/worker/mod.rs:147-198 | a map task keeps what is stored equal to the buckets of the files, and leaves other jobs alone |
| `Worker.ReadBuffer` | hw-map-reduce-rs/src/worker/mod.rs:113-123 | pushes all pairs of a buffer, or finds a key without a value, or panics |
| `Worker.SumValues` | hw-map-reduce-rs/src/app/wc.rs:35-49 | the sum of the counts, unless one is short or the sum exceeds 64 bits |
| `WordCount.SumMeans` | hw-map-reduce-rs/src/app/wc.rs:35-49 | the sum fails exactly if a value has fewer than eight bytes or the counts together exceed 64 bits; otherwise it is their sum |
| `Worker.ReduceGroups` | hw-map-reduce-rs/src/worker/mod.rs:128-138 | writes each group's key and sum |
| `Worker.Reduce` | hw-map-reduce-rs/src/worker/mod.rs:72-145 | retry on an unreachable worker, failure on an unpaired key, otherwise the encoded totals |
| `Worker.ReduceFails` | hw-map-reduce-rs/src/worker/mod.rs:90-123 | the first source that cannot be read decides: retry if it cannot be fetched, failure if its packets are odd in number, panic if they do not parse |
| `Worker.ReadingMeans` | hw-map-reduce-rs/src/worker/mod.rs:113-123 | a buffer is stuck if and only if it does not decode, and lacks a value if and only if it has an odd number of packets |
| `Worker.ReduceTaskAnswers` | hw-map-reduce-rs/src/worker/mod.rs:72-145 | given every file's bucket, the reduction succeeds and its output file reads back as the answer for its words |
| `Worker.JobAnswers` | hw-map-reduce-rs/src/worker/mod.rs:63-198 | whichever workers ran the map tasks and however often, every reduce task whose inputs can be fetched gives that answer |
| `Job.RunUpToDate` | hw-map-reduce-rs/src/worker/mod.rs:147-198 | over every run of map tasks, on any workers, in any order and number and mixed with other jobs, what a worker stores is the buckets of the files, all of them for the tasks it ran |
| `Job.JobIsSequentialCount` | hw-map-reduce-rs/src/worker/mod.rs:72-198 | the whole job: from empty workers, after any such run in which each map task has run on its recorded holder, every reduce task succeeds, its output is in key order, and the outputs together are the sequential count of the letter runs of the decoded files |
| `Ustar.StripHarmless` | proj-pregame/src/lib/ustar.c:51-64 | a stripped name is not empty, not "..", and does not begin with "/", "./" or "../" |
| `Ustar.StripFixed` | proj-pregame/src/lib/ustar.c:60-64 | stripping changes a name if and only if it is not already so; it is idempotent |
| `Ustar.SuffixCut` | proj-pregame/src/lib/ustar.c:60-64 | what is cut off a name is made of "/", "./" and "../" only, and the rest begins with none of them |
| `Ustar.SuffixUnique` | proj-pregame/src/lib/ustar.c:60-64 | there is only one such cut |
| `Ustar.StripAntisocialPrefixes` | proj-pregame/src/lib/ustar.c:60-64 | the loop computes the stripped name |
| `Ustar.FormatOctal` | proj-pregame/src/lib/stdio.c:456-528 | the octal digits, zero padded to the width |
| `Ustar.OctalRoundTrip` | proj-pregame/src/lib/ustar.c:116-140 | parsing a printed octal field gives the number, for all 32-bit numbers and widths |
| `Ustar.OctalWidths` | proj-pregame/src/lib/ustar.c:90-102 | sizes fit 11 digits and checksums 7 |
| `Ustar.ParseOctalField` | proj-pregame/src/lib/ustar.c:116-140 | the parsed value, or failure on overflow, bad characters, an empty or an unterminated field |
| `Ustar.ParseMeans` | proj-pregame/src/lib/ustar.c:116-140 | a field is accepted exactly if it begins with at least one octal digit, its digits end in a space or zero byte inside the field, and their base-8 value fits 32 bits; the result is that value |
| `Ustar.CalculateChksum` | proj-pregame/src/lib/ustar.c:34-49 | the sum of all bytes with the checksum field as spaces |
| `Ustar.SumMeans` | proj-pregame/src/lib/ustar.c:34-49 | that is the sum of the 512 bytes less those of the field plus eight spaces |
| `Ustar.SumIgnoresField` | proj-pregame/src/lib/ustar.c:41-46 | the checksum does not depend on the checksum field |
| `Ustar.MakeHeader` | proj-pregame/src/lib/ustar.c:73-105 | fills the buffer with the specified header, or leaves it alone if the stripped name is too long |
| `Ustar.MadeLayout` | proj-pregame/src/lib/ustar.c:87-102 | where name, size, type, magic and checksum stand in a made header, and that its checksum is its own |
| `Ustar.MadeOwner` | proj-pregame/src/lib/ustar.c:87-102 | mode 0644 or 0755, owner and group 0 named root, and the fixed modification time |
| `Ustar.MadeBlank` | proj-pregame/src/lib/ustar.c:87-102 | every byte between the fields and after the last is zero |
| `Ustar.MakeParse` | proj-pregame/src/lib/ustar.c:73-198 | parsing a made header yields the stripped name, type and size (0 for a directory); a negative size of a regular file is refused as too large |
| `Ustar.MakeFails` | proj-pregame/src/lib/ustar.c:80-85 | fails exactly for stripped names of more than 99 characters |
| `Ustar.ParseHeader` | proj-pregame/src/lib/ustar.c:157-198 | the checks in their order, and the entry |
| `Ustar.ParseAccepts` | proj-pregame/src/lib/ustar.c:157-198 | an entry is read if and only if every check passes, with what name, type and size; the end of the archive if and only if all bytes are zero |
| `Ustar.ParseRefuses` | proj-pregame/src/lib/ustar.c:157-198 | what each refusal says about the header |
| `Ustar.ParsedHarmless` | proj-pregame/src/lib/ustar.c:193-197 | whatever header is accepted, its name is harmless and its size fits an int |
| `Ustar.OneByteDetected` | proj-pregame/src/lib/ustar.c:177-180 | an accepted header with one byte outside the checksum field changed is not accepted |
| `HeapSort.FloatDown` | proj-pregame/src/lib/stdlib.c:84-103 | swapping with the larger child moves the hole of the heap down |
| `HeapSort.RootIsMax` | proj-pregame/src/lib/stdlib.c:120-128 | the first element of a heap is a maximum |
| `HeapSort.Heapify` | proj-pregame/src/lib/stdlib.c:82-104 | restores the heap from place i on, rearranging only the first cnt elements, in at most two comparisons a level |
| `HeapSort.LevelsLogarithmic` | proj-pregame/src/lib/stdlib.c:106-111 | a heap of n elements has at most 1 + lg n levels |
| `HeapSort.Sort` | proj-pregame/src/lib/stdlib.c:112-129 | a sorted permutation under every consistent comparison, in at most 3 n (1 + lg n) comparisons |
| `HeapSort.BinarySearch` | proj-pregame/src/lib/stdlib.c:159-178 | a match in a sorted array if and only if there is one |

## Left out

- List operations that only read or delegate: list_push_front, list_pop_front, list_pop_back, list_size, list_max, list_min and iteration; they would add only easy members.
- The list comparator is a function of the two elements' addresses; a comparator whose answers change while a list is being sorted is not modelled.
- The comparisons inside ASSERT are not counted in the bound of `List.Sort`.
- Sections that run under the guard lock of the readers-writers lock are single steps; the scheduler beneath it is modelled separately, and progress assumes that a thread that can run is scheduled again. The FIFO scheduler gives ready threads that (`ReadyRunsAgain`), but the two models are not composed.
- IntrusiveList.SpliceWithin: a `before` inside the moved segment, which list_splice accepts and which ties the segment into a ring that is no list; inplace_merge never passes one.
- SectorsMachine.FileSystem.RemoveInode: removal of the inodes of the free map and the root directory, which inode_remove accepts and which no directory entry names.
- Semaphore values, the readers-writers counters and the number of threads are unbounded numbers.
- thread_set_priority, update_priority and the lock functions of projects1-3, which are unfinished there; the effective_priority field and the element type in thread_priority_comparator are taken as the code evidently means them, since struct thread lacks the field and the local variables have the wrong type.
- Stack switching, interrupt enabling, thread page contents and tid allocation.
- The tick counter of the sleep queue stops short of 2^63 - 1, beyond which its increment is undefined in C; the sum in timer_sleep is taken to wrap.
- Signed overflow in sdiv64 and smod64, undefined in C, is taken to wrap.
- The contents of memory blocks: memset and calloc are not modelled, and memcpy only as the copy that realloc makes (`ReallocKeepsData`); each malloc and free runs under its descriptor lock and is one step.
- Inode.BlockDevice.ReadAt: a negative offset with a positive size, for which the code indexes its bounce buffer out of bounds or reads sectors before the file, and has no defined result.
- Inode.BlockDevice.WriteAt: the same.
- Directories, file positions, buffer cache and the on-disk image of the free map; deny_write_cnt is a parameter of the write.
- TLB invalidation, the accessed and dirty bits, and the kernel's own page tables.
- Remote calls, the coordinator, job scheduling and file creation of the MapReduce system; a panic in the reader or in the checked sum is a result of its own.
- The printf family beyond the unsigned octal conversion with a width and the 0 flag.
- Elements in sort and binary_search are array elements, not byte ranges; their size in bytes is not modelled.
- inode_create with a length above 2^31 - 512, whose sector count wraps in C: the model follows the wrapped count, under which nothing but the allocation's outcome changes.
