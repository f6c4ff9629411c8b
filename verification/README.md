# Pintos kernel: a verified model

This project models the hard parts of the Pintos teaching kernel (with priority
donation, the alarm clock and the advanced scheduler in place) in Dafny 4.11 and
proves properties of them. `dafny verify dfyconfig.toml` checks everything.

Where the kernel is a protocol between threads, one step of the model is one
stretch of code that runs with interrupts off, and the theorems are about every
state of every interleaving. Where it is a data structure or an operation that
updates memory, the model is a class with the same fields, updated by the same
loops, and each method is proved against a function whose own properties are
proved as lemmas. What the kernel cannot control (whether memory can be
allocated, whether a sector can be written) is a parameter.

- Locks, semaphores and priority donation: `Forest`, `Synch` (the transition
  system), `SemaProtocol` and `DonationProtocol` (what each step keeps),
  `SynchRuns` (every run), `SynchTheorems`, `DonationRuns` (priorities over runs),
  `SynchEffects` (what callers see of each step), `SynchHistory` (runs as
  histories), `SynchKernel` (the code in place).
- The thread state machine: `Scheduler`, `SchedulerKernel`, `RoundRobin` (the order
  in which ready threads run) and `ReadyOrder` (a donation to a queued thread).
- The advanced scheduler's fixed-point arithmetic: `Mlfqs`, `MlfqsRuns`,
  `MlfqsExact` (every value exactly), `MlfqsKernel`. The alarm clock: `Alarm`.
- Linked lists and the natural merge sort: `ListSpec` (values), `LinkedList`
  (pointers).
- 64-bit division from 32-bit DIVL: `Arithmetic`.
- Bitmap and allocator: `Bits`, `Bitmap`, `Malloc` (state and operations),
  `MallocProtocol` (invariant), `MallocTheorems`, `MallocChoice` (which block),
  `MallocKernel` (in place).
- File system: `Inode` (bytes over sectors), `Directory` (a bounded map over
  bytes), `FileSys`, `FileSysProtocol`, `FileSysTheorems`, `FileSysNames`,
  `FileSysCalls`, `FileSysKernel` (the life of files, names and sectors), and `Storage` (all of
  them on one device).
- Hash table: `Hash`. Archive headers: `Octal`, `Ustar`, `UstarFormat` (the ustar Interchange
  Format of the pax utility, POSIX.1-2001).
- `Prelude` and `Strings` hold shared names.

Findings where the code differs from what one would expect of it, each with the
exact condition:

- `thread_set_nice` overwrites the caller's priority also when priorities are
  donated. Every priority stays the maximum of base and donors exactly as long as
  the value it computes is that maximum: `DonationRuns.BalancedRuns`, with a run
  that breaks it in `DonationRuns.NiceBreaksMaximum`.
- `dir_add` takes a read that found no memory for the end of the directory, and can
  then overwrite an entry in use or enter a name twice; the comment in the source
  denies that such reads happen. `Directory.AddExact` and `FileSysNames.TidyRuns`
  say exactly when the directory is a map, `FileSysNames.OverwrittenName` shows a
  run in which a file is lost.
- `filesys_create` leaks the data sectors of the new file when `dir_add` fails:
  `FileSysTheorems.FailedCreate` says exactly when the free map is left as it was,
  `FileSysTheorems.LeakHistory` which sectors are leaked over a run, and
  `FileSysNames.DuplicateNameLeaks` reaches such a state.
- `malloc` returns a block smaller than asked for exactly when size plus header
  wraps around 32 bits: `MallocTheorems.ServedEnough`, `MallocTheorems.HugeRequestWraps`.
- The donation walk of `lock_acquire` does not end exactly when the holder already
  waits for the caller: `SynchTheorems.WalkEndsIffNoDeadlock`, and
  `SynchTheorems.DeadlockHangs` for a state where it does not.
- The ready list is sorted exactly as long as every priority change of a queued
  thread leaves it between its neighbours: `Scheduler.SortedRuns`. A donation can
  break it: `ReadyOrder.DonationUnsorts`.
- `umod64` is exact for all dividends exactly for divisors up to 2^32, `sdiv64`
  except for INT64_MIN / -1: `Arithmetic.Umod64Exact`, `Arithmetic.Sdiv64`.
- The comment on `free_map_close` says that it writes the free map; the code only
  closes the file, and the model follows the code.
- The branch of `inode_write_at` that zero-fills the bounce buffer is unreachable.

## Model

| member | source | states |
|---|---|---|
| `SynchTheorems.MutualExclusion` | pintos/src/threads/synch.c:89-309 | In every reachable state the value of a lock's semaphore plus the number of threads between its down and its up is 1, and a recorded holder is one of them |
| `SynchTheorems.AcquireReturns` | pintos/src/threads/synch.c:254-257 | Once lock_acquire is past its sema_down: no holder is recorded, the caller's waiting_lock is clear and its donate_elem is in no list |
| `SynchTheorems.NoLostWakeup` | pintos/src/threads/synch.c:89-161 | While anyone sleeps on a semaphore its value is at most the number of woken threads that have not yet looked at it again, whoever barges in |
| `SynchTheorems.DonationLinked` | pintos/src/threads/synch.c:235-257 | waiting_lock of d is l exactly when one donate_elem (l, d) is linked, once, in the list of l's holder, and in no other list |
| `DonationRuns.PriorityIsMaximum` | pintos/src/threads/synch.c:43-55 | In every run without MLFQS, each thread that thread_set_nice has not left upset has the maximum of its base priority and its donors' current priorities |
| `DonationRuns.PriorityReachesHolders` | pintos/src/threads/synch.c:243-252 | No thread runs below a thread that reaches it along waiting_lock and holder, unless thread_set_nice left a thread of that chain upset |
| `DonationRuns.PriorityDetermined` | pintos/src/threads/synch.c:243-252 | Where no thread is upset, base priorities and donor lists determine all priorities, whatever runs led there |
| `DonationRuns.StepKeepsBalance` | pintos/src/threads/thread.c:382-421 | From a state in which every priority is its maximum, a step without MLFQS leads to such a state exactly when it is not a thread_set_nice whose value differs from the caller's maximum |
| `DonationRuns.BalancedRuns` | pintos/src/threads/thread.c:382-421 | Every state of a run is of that kind exactly when every step meets that condition |
| `DonationRuns.RunBalance` | pintos/src/threads/synch.c:230-309 | In every run the threads off their maximum are among those thread_set_nice upset and no later donation walk, lock_release or thread_set_priority updated |
| `DonationRuns.NoneUpset` | pintos/src/threads/synch.c:230-309 | In a run that meets the condition no thread is ever upset |
| `DonationRuns.NiceKeepsBalance` | pintos/src/threads/thread.c:409-421 | thread_set_nice without MLFQS keeps every priority at its maximum exactly when the priority computed from nice alone is the caller's maximum |
| `DonationRuns.NiceBreaksMaximum` | pintos/src/threads/thread.c:409-421 | A run in which a lone thread of priority 31 sets nice 0 and gets priority 63, with no donor |
| `SynchTheorems.WalkEndsIffNoDeadlock` | pintos/src/threads/synch.c:243-251 | The donation walk ends exactly when the holder does not already wait, through any chain, for the caller |
| `SynchTheorems.DeadlockHangs` | pintos/src/threads/synch.c:243-251 | A reachable state in which two threads hold one lock each, one waits for the other's, and the other's lock_acquire has no finite walk |
| `SynchTheorems.Uncontended` | pintos/src/threads/synch.c:230-258 | An undisturbed lock_acquire of a free lock takes its semaphore, sets the holder and changes nothing else |
| `SynchTheorems.RankedWalk` | pintos/src/threads/synch.c:243-251 | With ranks growing along waits every walk ends, the locks above the current one being its measure |
| `SynchTheorems.RankStep` | pintos/src/threads/synch.c:230-309 | Acquiring in increasing rank keeps: a thread inside lock_acquire, donating or not, holds only locks below the one it acquires |
| `SynchTheorems.RankRun` | pintos/src/threads/synch.c:230-309 | That holds in every state of every rank-ordered run |
| `SynchTheorems.OrderedNeverHangs` | pintos/src/threads/synch.c:243-251 | In every rank-ordered run the walk of any further ordered acquire ends |
| `SynchTheorems.OrderedNeverDeadlocks` | pintos/src/threads/synch.c:89-309 | No state of a rank-ordered run has threads that await each other's locks in a circle, in any mode |
| `SynchTheorems.OrderedNeverStalls` | pintos/src/threads/synch.c:89-309 | In every state of a rank-ordered run in which a thread awaits a lock, some thread is about to test a free lock, or owns a lock and awaits none |
| `SynchTheorems.ExitedUnreferenced` | pintos/src/threads/thread.c:330-346 | An exited thread is on no waiters list, holds no lock and donates to nobody |
| `SynchEffects.WakesHighest` | pintos/src/threads/synch.c:143-161 | In every reachable state sema_up, alone or ending lock_release, with a sleeper: exactly one thread, of the greatest priority and the first of those in the list, goes from asleep to woken; the others sleep on in the same order; the value grows by one; nothing else changes |
| `SynchEffects.UpWithoutSleeper` | pintos/src/threads/synch.c:143-161 | Without a sleeper it only adds one to the value |
| `SynchEffects.DownTests` | pintos/src/threads/synch.c:89-104 | One test in sema_down: at value zero the caller falls asleep at the end of the list, otherwise it takes one unit and leaves the loop |
| `SynchEffects.TriesTake` | pintos/src/threads/synch.c:111-129 | sema_try_down and lock_try_acquire take one unit exactly when there is one and otherwise change nothing |
| `SynchEffects.SetPriorityStores` | pintos/src/threads/thread.c:382-397 | thread_set_priority (p) stores p as the caller's base, higher or lower than before, and the largest of p and its donors' priorities as its priority; no other base, waiting_lock, donor list or priority changes |
| `SynchEffects.AcquireLinks` | pintos/src/threads/synch.c:235-253 | lock_acquire of a held lock sets the caller's waiting_lock, puts its donation behind the leading donors of at least its priority in the holder's list, and changes priorities only along the walk |
| `SynchEffects.ReleaseClears` | pintos/src/threads/synch.c:284-305 | lock_release clears the holder and gives the caller the largest of its base and its remaining donors' priorities |
| `SynchEffects.PlainMoves` | pintos/src/threads/synch.c:254-257 | The end of lock_acquire records its caller as holder of the lock it took, and changes nothing else |
| `SynchHistory.BaseHistory` | pintos/src/threads/thread.c:382-397 | Over every run a thread's base priority is the one its last thread_set_priority, or its thread_create, was given |
| `SynchHistory.BaseInitial` | pintos/src/threads/thread.c:521-541 | Before any of these it is the one it started with |
| `SynchHistory.HolderHistory` | pintos/src/threads/synch.c:230-309 | Over every run t is the recorded holder of l exactly when t took l and nobody has begun to release l since |
| `SynchHistory.SleepersInOrder` | pintos/src/threads/synch.c:97-101 | Over every run each waiters list is in the order in which its threads fell asleep |
| `SynchHistory.LongestSleeperFirst` | pintos/src/threads/synch.c:143-161 | sema_up wakes the one that has slept longest among the sleepers of the greatest priority |
| `SynchHistory.CountLaw` | pintos/src/threads/synch.c:89-161 | Over every run, for every semaphore: its value plus the downs and tries that got through is the initial value plus the ups |
| `SynchRuns.StepInv` | pintos/src/threads/synch.c:89-309 | Each of the protocol's atomic steps, by any thread in any order, keeps the whole invariant |
| `SynchRuns.RunInv` | pintos/src/threads/synch.c:89-309 | The invariant holds in every state of every run |
| `SynchRuns.InitInv` | pintos/src/threads/synch.c:214-220 | It holds after initialisation |
| `SynchRuns.TestInv` | pintos/src/threads/synch.c:89-104 | The loop test of sema_down, blocking or decrementing, keeps the invariant |
| `SynchRuns.PostInv` | pintos/src/threads/synch.c:143-161 | sema_up keeps it |
| `SynchRuns.FinishReleaseInv` | pintos/src/threads/synch.c:308 | So does the sema_up that ends lock_release |
| `SynchRuns.TakeHolderInv` | pintos/src/threads/synch.c:254-257 | So does setting the holder, after the assertion |
| `SynchRuns.ReleasedInv` | pintos/src/threads/synch.c:284-305 | So does lock_release up to its sema_up |
| `SynchRuns.DonateInv` | pintos/src/threads/synch.c:235-253 | So does the donation of lock_acquire |
| `SynchRuns.RebasedInv` | pintos/src/threads/thread.c:382-397 | So does thread_set_priority |
| `SynchRuns.CreatedInv` | pintos/src/threads/thread.c:219-259 | So does thread_create |
| `SynchRuns.TryAcquireInv` | pintos/src/threads/synch.c:266-277 | So does lock_try_acquire called by a thread |
| `SynchRuns.HandlerTryInv` | pintos/src/threads/synch.c:260-277 | So does lock_try_acquire in an interrupt handler, wherever in the synchronisation code the interrupted thread is |
| `SynchRuns.OverwriteInv` | pintos/src/threads/thread.c:409-414 | thread_set_nice and the MLFQS recomputation, which overwrite a priority, keep everything but the balance of priorities |
| `SynchRuns.NotWaiting` | pintos/src/threads/synch.c:230-309 | While a lock's value is positive nobody donates for it |
| `SemaProtocol.Sleep` | pintos/src/threads/synch.c:97-101 | A down that finds value zero and blocks keeps sums and wake-up counts |
| `SemaProtocol.Enter` | pintos/src/threads/synch.c:102-103 | A down that passes makes its caller an owner and keeps them |
| `SemaProtocol.NoHolderYet` | pintos/src/threads/synch.c:255-256 | Whoever has the semaphore of a lock finds no holder |
| `SemaProtocol.TakeOnce` | pintos/src/threads/synch.c:273-276 | Taking a free lock and setting its holder at once keeps sums and wake-up counts, wherever the thread stands |
| `SemaProtocol.WokeKeeps` | pintos/src/threads/synch.c:143-161 | Waking a sleeper and incrementing keeps every other semaphore's counts |
| `SemaProtocol.Finish` | pintos/src/threads/synch.c:308 | Giving the lock up ends ownership and restores the sum |
| `DonationProtocol.MaxOverIsMax` | pintos/src/threads/synch.c:43-55 | The loop of donate_priority_update computes the maximum of base and donors |
| `DonationProtocol.WalkBalances` | pintos/src/threads/synch.c:243-251 | If at most t and the threads of a set are off their maximum, after the walk from t at most those of the set that the walk did not pass are |
| `DonationProtocol.BalanceUnique` | pintos/src/threads/synch.c:43-55 | On a forest of waits two balanced assignments of priorities are equal |
| `DonationProtocol.ChainRaises` | pintos/src/threads/synch.c:243-251 | Priorities never fall along a chain of waits into threads at their maximum |
| `DonationProtocol.DonateKeeps` | pintos/src/threads/synch.c:235-253 | Linking a donation whose walk ends keeps lists, waiting_lock and acyclicity |
| `DonationProtocol.ReleaseKeeps` | pintos/src/threads/synch.c:288-305 | lock_release drops exactly the donations for the lock and keeps them |
| `DonationProtocol.DonateBalances` | pintos/src/threads/synch.c:235-253 | lock_acquire's donation puts every thread of its walk at its maximum and takes none off it |
| `DonationProtocol.ReleaseBalances` | pintos/src/threads/synch.c:288-305 | lock_release puts its caller at its maximum and takes no thread off it |
| `DonationProtocol.RebaseBalances` | pintos/src/threads/thread.c:382-389 | So does thread_set_priority |
| `DonationProtocol.OverwriteBalances` | pintos/src/threads/thread.c:409-414 | Overwriting the priority of a thread that waits for no lock leaves every other thread as it was, and that thread at its maximum exactly when the value is the maximum |
| `DonationProtocol.HoldKeeps` | pintos/src/threads/synch.c:256 | Setting the holder of a free lock creates no wait |
| `DonationProtocol.UnlinkBooks` | pintos/src/threads/synch.c:289-302 | After the loop of lock_release every list again holds exactly the live donations |
| `Forest.NewEdgeWalk` | pintos/src/threads/synch.c:243-251 | Adding the wait a -> b, the walk from b ends exactly when b did not reach a |
| `Forest.AddEdge` | pintos/src/threads/synch.c:243-251 | If that walk ends the larger graph is again a forest |
| `Forest.WalkUnique` | pintos/src/threads/synch.c:243-251 | A walk is determined by its start |
| `Forest.SubForest` | pintos/src/threads/synch.c:289-302 | Removing waits leaves a forest a forest |
| `SynchKernel.Kernel.DonatePriorityUpdate` | pintos/src/threads/synch.c:43-55 | The in-place loop assigns exactly the specified maximum |
| `SynchKernel.Kernel.InsertOrdered` | pintos/src/threads/synch.c:242 | The ordered insertion puts the donation before the first donor of lower priority |
| `SynchKernel.Kernel.LockAcquireDonate` | pintos/src/threads/synch.c:230-253 | lock_acquire up to sema_down takes the Acquire step, and terminates if the holder does not wait for the caller |
| `SynchKernel.Kernel.Walk` | pintos/src/threads/synch.c:243-251 | The while loop computes the walk's settled priorities |
| `SynchKernel.Kernel.LinkAndWalk` | pintos/src/threads/synch.c:236-252 | Linking and walking is the donation step |
| `SynchKernel.Kernel.SemaDownTest` | pintos/src/threads/synch.c:89-104 | One loop test of sema_down, in any state the protocol can reach, takes the Test step and blocks exactly when the value is zero |
| `SynchKernel.Kernel.SetHolder` | pintos/src/threads/synch.c:254-257 | The assertion holds and the holder is set |
| `SynchKernel.Kernel.LockTryAcquire` | pintos/src/threads/synch.c:266-277 | lock_try_acquire succeeds exactly when the value is positive |
| `SynchKernel.Kernel.LockTryAcquireInHandler` | pintos/src/threads/synch.c:260-277 | In a handler it takes the HandlerTry step, for the interrupted thread, and succeeds exactly when that thread then holds the lock |
| `SynchKernel.Kernel.SetNice` | pintos/src/threads/thread.c:409-414 | thread_set_nice overwrites the caller's priority, in either mode |
| `SynchKernel.Kernel.LockReleaseUndonate` | pintos/src/threads/synch.c:284-307 | The release loop unlinks exactly the donations for the lock, clears their waiting_lock and recomputes the priority |
| `SynchKernel.Kernel.Unlink` | pintos/src/threads/synch.c:289-302 | The unlinking loop equals the specified removal |
| `SynchKernel.Kernel.SemaUp` | pintos/src/threads/synch.c:143-161 | The loop finds the first waiter of the greatest priority; that one is unblocked and leaves the list, the value grows by one |
| `SynchKernel.Kernel.LockReleaseUp` | pintos/src/threads/synch.c:308 | The final sema_up is the FinishRelease step |
| `SynchKernel.Kernel.SetPriority` | pintos/src/threads/thread.c:382-389 | Takes the SetPriority step: the base becomes the argument, the priority the largest of it and the donors' priorities; nothing under MLFQS |
| `Scheduler.ThreadStates` | pintos/src/threads/thread.h:77-82 | Exactly one thread runs; a non-idle thread is READY exactly when it is in the ready list, once; a queued elem is in no other list; idle is never queued once registered |
| `Scheduler.NeverStuck` | pintos/src/threads/thread.c:579-654 | In every reachable state every enabled action that calls schedule finds a thread to switch to, never the one exiting |
| `Scheduler.CallsScheduleSafely` | pintos/src/threads/thread.c:640-654 | At every call of schedule the assertions of the source hold |
| `Scheduler.ScheduleFinds` | pintos/src/threads/thread.c:579-586 | next_thread_to_run returns a thread that is ready or is idle |
| `Scheduler.ScheduleInv` | pintos/src/threads/thread.c:604-654 | schedule with thread_schedule_tail keeps the invariant and frees only a dying thread |
| `Scheduler.StepInv` | pintos/src/threads/thread.c:163-654 | Every action keeps the invariant |
| `Scheduler.RunInv` | pintos/src/threads/thread.c:163-654 | The invariant holds in every state of every run |
| `Scheduler.BootInv` | pintos/src/threads/thread.c:163-174 | It holds at thread_start |
| `Scheduler.UnblockInv` | pintos/src/threads/thread.c:284-294 | thread_unblock finds its thread blocked and keeps the invariant |
| `Scheduler.InsertPosition` | pintos/src/threads/thread.c:290-291 | The ready list insertion goes behind every thread of at least the same priority and before every other |
| `Scheduler.InsertSorted` | pintos/src/threads/thread.c:290-291 | It keeps a sorted ready list sorted |
| `Scheduler.StepSorted` | pintos/src/threads/thread.c:579-586 | A step from a sorted ready list leaves it sorted exactly when it is not a priority change that takes a queued thread out from between its neighbours |
| `Scheduler.ChangedSorted` | pintos/src/threads/synch.c:54 | A priority change in a sorted ready list leaves it sorted exactly when both neighbours of the thread allow the new value |
| `Scheduler.SortedRuns` | pintos/src/threads/thread.c:163-654 | The ready list is sorted in every state of a run exactly when every step of the run meets that condition |
| `Scheduler.HighestRuns` | pintos/src/threads/thread.c:579-586 | In such a run every schedule takes a thread of the highest priority among the ready ones, and the others stay queued |
| `Scheduler.ScheduleTakesHighest` | pintos/src/threads/thread.c:579-586 | On a sorted list schedule takes a thread of the highest priority among the ready ones |
| `ReadyOrder.DonationUnsorts` | pintos/src/threads/synch.c:43-55 | A run after which a running thread's lock_acquire, in a reachable state of the locks with the same priorities, raises a queued thread above its predecessor; the list, sorted before, is not sorted after |
| `ReadyOrder.MainDonates` | pintos/src/threads/synch.c:235-253 | lock_acquire by a thread of priority 31 raises the queued holder, of priority 20, to 31 and changes no other priority |
| `RoundRobin.FirstComeFirstRun` | pintos/src/threads/thread.c:284-362 | In a run that keeps queued threads in place: when a thread joins the ready list, by thread_yield or thread_unblock, every thread then ready of at least its priority runs before it does |
| `RoundRobin.JoinsInPlace` | pintos/src/threads/thread.c:284-362 | A thread that joins a sorted ready list goes behind every ready thread of at least its priority and before every other |
| `RoundRobin.AheadStep` | pintos/src/threads/thread.c:579-654 | Whoever is ahead of another in the ready list stays so until it runs, whatever happens |
| `RoundRobin.YieldKeepsProcessor` | pintos/src/threads/thread.c:350-362 | thread_yield keeps the processor exactly when every ready thread has a lower priority |
| `RoundRobin.StatusAfter` | pintos/src/threads/thread.c:264-362 | The status of every thread after every action |
| `RoundRobin.QueuesAfter` | pintos/src/threads/thread.c:264-362 | The wait queues, the sleepers and the stored priorities after every action |
| `RoundRobin.GivesUp` | pintos/src/threads/thread.c:264-346 | A thread that blocks, sleeps or exits gives up the processor |
| `SchedulerKernel.Cpu.InsertOrdered` | pintos/src/threads/thread.c:290-291 | The in-place insertion equals the specified one |
| `SchedulerKernel.Cpu.ThreadUnblock` | pintos/src/threads/thread.c:284-294 | thread_unblock takes the specified step |
| `SchedulerKernel.Cpu.DoSchedule` | pintos/src/threads/thread.c:604-654 | schedule takes the specified step, given the state its callers leave |
| `SchedulerKernel.Cpu.ThreadYield` | pintos/src/threads/thread.c:350-363 | thread_yield takes the Yield transition |
| `SchedulerKernel.Cpu.BlockOnQueue` | pintos/src/threads/thread.c:267-274 | Queueing and thread_block take the Block transition |
| `SchedulerKernel.Cpu.WakeFromQueue` | pintos/src/threads/thread.c:284-294 | Removing a waiter and unblocking take the Wake transition |
| `SchedulerKernel.Cpu.ThreadExit` | pintos/src/threads/thread.c:330-346 | thread_exit takes the Exit transition |
| `ListSpec.SortCorrect` | pintos/src/lib/kernel/list.c:401-440 | The result of list_sort is sorted, a permutation and stable |
| `ListSpec.SortIsInsertAll` | pintos/src/lib/kernel/list.c:401-459 | It equals inserting the elements one by one with list_insert_ordered |
| `ListSpec.SortedUnique` | pintos/src/lib/kernel/list.c:401-440 | There is only one sorted, stable rearrangement |
| `ListSpec.PassHalves` | pintos/src/lib/kernel/list.c:401-440 | A pass puts out half as many runs, rounded up, and its counter is exact |
| `ListSpec.PassStable` | pintos/src/lib/kernel/list.c:401-440 | A pass keeps equivalent elements in order |
| `ListSpec.PassMultiset` | pintos/src/lib/kernel/list.c:401-440 | A pass loses and duplicates nothing |
| `ListSpec.MergeSorted` | pintos/src/lib/kernel/list.c:374-399 | Merging two sorted runs gives a sorted run |
| `ListSpec.MergeStable` | pintos/src/lib/kernel/list.c:374-399 | Merging is stable, the first run going first on ties |
| `ListSpec.FirstRun` | pintos/src/lib/kernel/list.c:352-372 | find_end_of_run finds the longest nondecreasing prefix |
| `ListSpec.RunsSorted` | pintos/src/lib/kernel/list.c:401-440 | At most one run means sorted, which ends the loop |
| `ListSpec.InsertCorrect` | pintos/src/lib/kernel/list.c:442-459 | list_insert_ordered keeps order, adds exactly x and puts it last among its equivalents |
| `LinkedList.ListInsert` | pintos/src/lib/kernel/list.c:165-178 | Links one node in before another; both directions stay consistent |
| `LinkedList.ListRemove` | pintos/src/lib/kernel/list.c:248-255 | Unlinks one node and returns its successor |
| `LinkedList.ListSplice` | pintos/src/lib/kernel/list.c:180-204 | Moves a block of nodes to before a node outside it, both directions consistent |
| `LinkedList.FindEndOfRun` | pintos/src/lib/kernel/list.c:352-372 | Returns the end of the first run |
| `LinkedList.InplaceMerge` | pintos/src/lib/kernel/list.c:374-399 | Splices the second run into the first: the nodes become exactly the merge |
| `LinkedList.MergePair` | pintos/src/lib/kernel/list.c:421-435 | One iteration of a pass merges exactly the next two runs |
| `LinkedList.ListSort` | pintos/src/lib/kernel/list.c:401-440 | Rewrites pointers in place until the list is sorted, a permutation and stable; terminates because runs halve |
| `LinkedList.ListReverse` | pintos/src/lib/kernel/list.c:324-337 | The nodes become the reverse sequence |
| `LinkedList.ListMin` | pintos/src/lib/kernel/list.c:507-524 | Returns the first of the least elements, or the tail |
| `LinkedList.MergeTakesSecond` | pintos/src/lib/kernel/list.c:388-394 | Splicing the head of the second run is one step of the merge |
| `LinkedList.List.constructor` | pintos/src/lib/kernel/list.c:59-68 | An empty list of two sentinels |
| `LinkedList.List.PushBack` | pintos/src/lib/kernel/list.c:214-220 | Appends one element |
| `LinkedList.List.PushFront` | pintos/src/lib/kernel/list.c:206-212 | Prepends one element |
| `LinkedList.List.Remove` | pintos/src/lib/kernel/list.c:248-255 | Removes one element and no other |
| `LinkedList.List.PopFront` | pintos/src/lib/kernel/list.c:257-265 | Removes and returns the front |
| `LinkedList.List.FindGreater` | pintos/src/lib/kernel/list.c:449-456 | Stops at the first element that the new one is less than |
| `LinkedList.List.InsertOrdered` | pintos/src/lib/kernel/list.c:442-459 | Inserts exactly as specified |
| `LinkedList.List.SortPass` | pintos/src/lib/kernel/list.c:414-437 | One pass of list_sort, with its run count |
| `Arithmetic.Udiv64` | pintos/src/lib/arithmetic.c:77-127 | The quotient is n / d for every 64-bit n and nonzero d, and no DIVL traps |
| `Arithmetic.Nlz` | pintos/src/lib/arithmetic.c:39-73 | The number of leading zeros: the normalised word has its top bit set |
| `Arithmetic.NlzUnique` | pintos/src/lib/arithmetic.c:39-73 | That bound determines the count |
| `Arithmetic.NarrowDivision` | pintos/src/lib/arithmetic.c:80-112 | Divisors below 2^32: schoolbook division with the no-trap bound |
| `Arithmetic.WideDivision` | pintos/src/lib/arithmetic.c:113-126 | Other divisors: the shift fits, DIVL does not trap, and the comparison picks the quotient |
| `Arithmetic.EstimateError` | pintos/src/lib/arithmetic.c:113-126 | The estimate is the quotient or one above it |
| `Arithmetic.EstimateTrapFree` | pintos/src/lib/arithmetic.c:113-126 | The DIVL of the wide branch cannot trap |
| `Arithmetic.TrialSubtraction` | pintos/src/lib/arithmetic.c:119-126 | The trial subtraction does not wrap and decides between the two candidates |
| `Arithmetic.Umod64` | pintos/src/lib/arithmetic.c:131-135 | Returns the remainder truncated to 32 bits, as its type demands |
| `Arithmetic.Umod64Exact` | pintos/src/lib/arithmetic.c:131-135 | The truncation is harmless for all dividends exactly when d is at most 2^32 |
| `Arithmetic.Sdiv64` | pintos/src/lib/arithmetic.c:137-146 | Truncated signed quotient, exact except for INT64_MIN / -1, where it wraps |
| `Alarm.SleepsUntil` | pintos/src/devices/timer.c:108-119 | In every run a thread that calls timer_sleep(n) at tick s is listed in exactly the later states before tick max(s+n, s+1) |
| `Alarm.WokenExactly` | pintos/src/devices/timer.c:186-198 | It is unblocked by exactly the interrupt that reaches that tick |
| `Alarm.WokenInOrder` | pintos/src/devices/timer.c:189-198 | One interrupt wakes by wake-up time and, for equal times, in call order |
| `Alarm.EarlyExitIsFullScan` | pintos/src/devices/timer.c:189-194 | Stopping at the first sleeper not due equals scanning the whole list |
| `Alarm.InsertKeeps` | pintos/src/lib/kernel/list.c:442-459 | Insertion by wake-up time keeps the list ordered by time and call, and adds exactly the sleeper |
| `Alarm.RunInv` | pintos/src/devices/timer.c:108-198 | The sleep list is ordered in every state of every run |
| `Alarm.Timer.TimerSleep` | pintos/src/devices/timer.c:108-119 | The in-place insertion is the Sleep event |
| `Alarm.Timer.TimerInterrupt` | pintos/src/devices/timer.c:186-198 | The in-place wake loop is the Tick event and unblocks exactly the specified sleepers |
| `MlfqsRuns.RunInv` | pintos/src/threads/thread.c:121-159 | Over every run with at most n ready threads and niceness in -20..20: load in [0, n], recent_cpu in [-(40n+20), 240n+20+ticks of the second], priorities in 0..63 |
| `MlfqsRuns.LoadTracksExact` | pintos/src/threads/thread.c:145-151 | After any time 0 <= 16384 * exact load - load_avg <= 59 against the real recurrence |
| `MlfqsRuns.NextInv` | pintos/src/devices/timer.c:199-209 | Each interrupt, nice change, creation and exit keeps those ranges |
| `MlfqsExact.PriorityExactly` | pintos/src/threads/thread.c:121-133 | The priority is 63 * 2^14 - recent / 4 - 2 * nice * 2^14, with recent / 4 rounded towards zero, divided by 2^14 rounded down, 0 below and 63 from 64 * 2^14 on |
| `MlfqsExact.PriorityUnique` | pintos/src/threads/thread.c:121-133 | No other number meets that description |
| `MlfqsExact.TickExactly` | pintos/src/devices/timer.c:185-212 | Every timer interrupt of every run: the running thread is credited one tick; every 100th tick the load average is renewed and recent_cpu decays under the new one; every fourth tick priorities follow from the new recent_cpu; all as exact integer inequalities |
| `MlfqsExact.RankedRuns` | pintos/src/devices/timer.c:207-208 | After every fourth tick of every run each thread but idle has the exact priority of its own recent_cpu and niceness |
| `MlfqsExact.RecentExactly` | pintos/src/threads/thread.c:136-142 | The decay of recent_cpu, each quotient rounded towards zero |
| `MlfqsExact.LoadExactly` | pintos/src/threads/thread.c:145-151 | The load average, rounded towards zero |
| `MlfqsExact.OtherExactly` | pintos/src/threads/thread.c:409-421 | thread_set_nice stores niceness and the exact priority; a new thread inherits; nothing else changes |
| `Mlfqs.LoadBounded` | pintos/src/threads/thread.c:145-151 | The load average stays within the number of ready threads |
| `Mlfqs.CoeffBounded` | pintos/src/threads/thread.c:140 | The decay coefficient is at most 2n / (2n + 1) |
| `Mlfqs.RecentBounded` | pintos/src/threads/thread.c:136-142 | One decay takes 120(2n+1) down to 240n + 20, so the interval is invariant |
| `Mlfqs.LoadError` | pintos/src/threads/thread.c:150 | One truncated update keeps the error within 59 units |
| `Mlfqs.RecentError` | pintos/src/threads/fixed-point.h:36-42 | One decay is within 1 + abs(recent) / F of the exact value |
| `Mlfqs.PriorityError` | pintos/src/threads/thread.c:125-127 | Before clamping the priority is within 1 + 1/F of 63 - recent/4 - 2 nice |
| `Mlfqs.PriorityAntitone` | pintos/src/threads/thread.c:121-133 | More CPU time or niceness never raises the priority, which stays in 0..63 |
| `MlfqsKernel.RecentFits` | pintos/src/threads/thread.c:136-142 | With at most 545 ready threads every 32- and 64-bit intermediate fits |
| `MlfqsKernel.Machine.PriorityCalc` | pintos/src/threads/thread.c:121-133 | Computes exactly the priority of recent_cpu and niceness, without overflow, and leaves the idle thread alone |
| `MlfqsKernel.Machine.RecentCpuCalc` | pintos/src/threads/thread.c:136-142 | Computes the specified decay without overflow |
| `MlfqsKernel.Machine.RecentCpuIncre` | pintos/src/threads/thread.c:153-159 | Credits one tick without overflow |
| `MlfqsKernel.Machine.LoadAvgCalc` | pintos/src/threads/thread.c:145-151 | Computes the specified load without overflow |
| `MlfqsKernel.Machine.AgeEveryThread` | pintos/src/threads/thread.c:367-378 | thread_foreach decays every non-idle thread, once |
| `MlfqsKernel.Machine.RankEveryThread` | pintos/src/threads/thread.c:367-378 | thread_foreach ranks every non-idle thread, once |
| `MlfqsKernel.Machine.ThreadSetNice` | pintos/src/threads/thread.c:409-414 | Sets niceness and recomputes the priority |
| `MlfqsKernel.Machine.TimerInterrupt` | pintos/src/devices/timer.c:199-209 | The interrupt takes the Tick step, at the right cadence, and keeps all ranges |
| `Bitmap.ScanIsFirst` | pintos/src/lib/kernel/bitmap.c:290-310 | Scan finds the first group of equal bits at or after start, and None exactly when there is none |
| `Bitmap.LowestIsScan` | pintos/src/lib/kernel/bitmap.c:295-312 | A scan for clear bits finds a position exactly when it is the lowest with that many clear bits |
| `Bitmap.FillBack` | pintos/src/lib/kernel/bitmap.c:312-326 | Setting a flipped group back restores the bitmap |
| `Bitmap.OperateBit` | pintos/src/lib/kernel/bitmap.c:155-194 | OR, AND-NOT and XOR with a bit's mask change that bit of the word and no other |
| `Bitmap.BitArray.constructor` | pintos/src/lib/kernel/bitmap.c:78-94 | All bits false |
| `Bitmap.BitArray.Test` | pintos/src/lib/kernel/bitmap.c:197-203 | Reads the bit |
| `Bitmap.BitArray.Mark` | pintos/src/lib/kernel/bitmap.c:156-166 | Sets that bit and no other |
| `Bitmap.BitArray.Reset` | pintos/src/lib/kernel/bitmap.c:169-179 | Clears that bit and no other |
| `Bitmap.BitArray.Flip` | pintos/src/lib/kernel/bitmap.c:184-194 | Toggles that bit and no other |
| `Bitmap.BitArray.SetMultiple` | pintos/src/lib/kernel/bitmap.c:217-228 | Sets exactly the range |
| `Bitmap.BitArray.Count` | pintos/src/lib/kernel/bitmap.c:232-246 | Counts the bits of the range equal to value |
| `Bitmap.BitArray.Contains` | pintos/src/lib/kernel/bitmap.c:250-263 | Whether the range has a bit equal to value |
| `Bitmap.BitArray.ScanBits` | pintos/src/lib/kernel/bitmap.c:295-310 | Equals the first-fit search |
| `Bitmap.BitArray.ScanAndFlip` | pintos/src/lib/kernel/bitmap.c:319-326 | First fit, then flips exactly the group found |
| `Bits.BitwiseBit` | pintos/src/lib/kernel/bitmap.c:163 | A result bit depends on the operands' bits of that number only |
| `Bits.AndPow` | pintos/src/lib/kernel/bitmap.c:202 | AND with a mask is nonzero exactly when the bit is set |
| `MallocTheorems.RunInv` | pintos/src/threads/malloc.c:89-264 | After any sequence of malloc, free and other page allocations: free_cnt equals the arena's blocks on its free list, each arena has a block in use, every block is free or live, bitmap and arenas agree |
| `MallocTheorems.LiveBlocksDisjoint` | pintos/src/threads/malloc.c:89-154 | No two live blocks overlap |
| `MallocTheorems.BlockWithin` | pintos/src/threads/malloc.c:106-120 | A live block lies in its arena's pages behind the header and is as large as asked for, unless size + 12 reaches 2^32 |
| `MallocTheorems.AllFreed` | pintos/src/threads/malloc.c:219-264 | When everything is freed no arena is left, all free lists are empty and only others' pages are marked |
| `MallocTheorems.NoIdleArena` | pintos/src/threads/malloc.c:240-254 | Every arena holds a live block |
| `MallocTheorems.FreeUndoesMalloc` | pintos/src/threads/malloc.c:89-264 | Freeing the block just allocated restores bitmap, arenas, counts and the order of every free list |
| `MallocTheorems.FailsExactly` | pintos/src/threads/malloc.c:96-141 | malloc fails exactly for size 0 and when the pages it needs are not free |
| `MallocTheorems.HugeRequestWraps` | pintos/src/threads/malloc.c:109 | On every heap with a free page a request of 2^32 - 8 bytes is served, with less than it asked for |
| `MallocTheorems.ServedEnough` | pintos/src/threads/malloc.c:90-146 | A block that malloc returns is as big as asked for exactly when size plus header does not wrap around |
| `MallocChoice.TakesFirst` | pintos/src/threads/malloc.c:148-152 | malloc takes the first block of the free list of the smallest class that fits, and counts it off its arena |
| `MallocChoice.TakesFreshPage` | pintos/src/threads/malloc.c:123-146 | With that list empty it takes the lowest free page, returns the block behind the header and lists the others by address |
| `MallocChoice.TakesPages` | pintos/src/threads/malloc.c:105-119 | A request above 1024 bytes gets the lowest run of enough free pages |
| `MallocChoice.PagesExactly` | pintos/src/threads/malloc.c:109 | Enough is the least number that holds size and header, computed in 32 bits, and none when the rounding wraps |
| `MallocChoice.FreesSmall` | pintos/src/threads/malloc.c:219-256 | free puts a small block at the front of its list, or, when no other block of the arena is in use, gives the page back and takes all its blocks off the list |
| `MallocChoice.FreesBig` | pintos/src/threads/malloc.c:257-262 | free of a big block gives exactly its pages back |
| `MallocChoice.FreedIsNext` | pintos/src/threads/malloc.c:236-242 | The block freed last is what the next request of its class gets, while its arena is in use |
| `MallocChoice.ClassIs` | pintos/src/threads/malloc.c:98-103 | The class is the smallest of 16, 32, ... 1024 bytes that fits |
| `MallocTheorems.NextInv` | pintos/src/threads/malloc.c:89-264 | Every call keeps the allocator's invariant |
| `MallocProtocol.MallocInv` | pintos/src/threads/malloc.c:89-154 | malloc keeps the invariant, hands out only a block nobody holds, and changes nothing when it fails |
| `MallocProtocol.FreeInv` | pintos/src/threads/malloc.c:219-264 | free keeps it for every live block and removes exactly that block from the live ones |
| `MallocProtocol.PageCountEnough` | pintos/src/threads/malloc.c:109 | The page count covers size and header exactly when size + 12 does not wrap |
| `MallocProtocol.AddrInside` | pintos/src/threads/malloc.c:286-294 | arena_to_block addresses lie in the arena's page, behind the header |
| `MallocProtocol.AddrApart` | pintos/src/threads/malloc.c:286-294 | Blocks of one arena do not overlap |
| `MallocProtocol.StockedInv` | pintos/src/threads/malloc.c:126-145 | A new arena's blocks go on the free list; only its own arena may be wholly free |
| `MallocProtocol.PopInv` | pintos/src/threads/malloc.c:148-151 | Taking the first free block restores the invariant |
| `MallocProtocol.ReleaseInv` | pintos/src/threads/malloc.c:241-254 | Giving up a wholly free arena keeps it |
| `MallocProtocol.PushInv` | pintos/src/threads/malloc.c:237-240 | Pushing a freed block keeps it |
| `MallocKernel.InitDescs` | pintos/src/threads/malloc.c:72-85 | The doubling loop sets up the seven descriptors, 16 to 1024 bytes |
| `MallocKernel.FindDesc` | pintos/src/threads/malloc.c:101-103 | Finds the smallest descriptor that fits |
| `MallocKernel.UnlinkBlocks` | pintos/src/threads/malloc.c:247-251 | The loop removes all the arena's blocks and nothing else |
| `MallocKernel.SameRoom` | pintos/src/threads/malloc.c:178-186 | An allocation does not change the size of other live blocks |
| `MallocKernel.Allocator.constructor` | pintos/src/threads/malloc.c:72-85 | No arenas and empty free lists |
| `MallocKernel.Allocator.GetPages` | pintos/src/threads/palloc.c:70-101 | First-fit group of free pages, marked used, or nothing changed |
| `MallocKernel.Allocator.MallocLarge` | pintos/src/threads/malloc.c:104-120 | The big-block path |
| `MallocKernel.Allocator.Restock` | pintos/src/threads/malloc.c:126-145 | The refill loop lists exactly the new arena's blocks |
| `MallocKernel.Allocator.TakeFirst` | pintos/src/threads/malloc.c:148-151 | Takes the first free block and counts down |
| `MallocKernel.Allocator.Allocate` | pintos/src/threads/malloc.c:89-154 | malloc as specified, and its promises |
| `MallocKernel.Allocator.FreeBlock` | pintos/src/threads/malloc.c:228-262 | The in-place effect of free |
| `MallocKernel.Allocator.Deallocate` | pintos/src/threads/malloc.c:219-264 | free as specified, null ignored |
| `MallocKernel.Allocator.Reallocate` | pintos/src/threads/malloc.c:195-214 | Copies the smaller of both sizes, frees the old block only on success, frees on size 0 |
| `MallocKernel.Allocator.BlockRoom` | pintos/src/threads/malloc.c:178-186 | The usable size of a block in use: it stays inside the arena and covers the request unless size plus header wrapped around |
| `Inode.ReadIsContent` | pintos/src/filesys/inode.c:200-250 | A read fills a prefix of the buffer with the file's bytes and leaves the rest |
| `Inode.MovedExactly` | pintos/src/filesys/inode.c:202-317 | A byte of a request is moved exactly when it lies in the request and the file; without bounce memory, exactly when the request starts at a sector and the byte's whole sector lies in both |
| `Inode.ContentAt` | pintos/src/filesys/inode.c:46-55 | Byte k of a file is byte k % 512 of the sector k / 512 behind its start |
| `Inode.WriteIsSplice` | pintos/src/filesys/inode.c:257-318 | A write changes the file like an array |
| `Inode.WriteElsewhere` | pintos/src/filesys/inode.c:257-318 | It leaves every file in other sectors alone |
| `Inode.WriteStaysInside` | pintos/src/filesys/inode.c:257-318 | No byte of the device outside the file changes |
| `Inode.ReadInPieces` | pintos/src/filesys/file.c:69-74 | Two reads, the second from where the first ended, return together the bytes and the count of one read of both sizes |
| `Inode.ReadBack` | pintos/src/filesys/inode.c:200-318 | A read returns what a write at the same place stored |
| `Inode.OpenFile.Read` | pintos/src/filesys/file.c:69-74 | Reads from the position and moves it by what was read |
| `Inode.OpenFile.Write` | pintos/src/filesys/file.c:95-100 | Writes at the position and moves it by what was written |
| `Inode.MovedStep` | pintos/src/filesys/inode.c:209-241 | One round moves one chunk and leaves the rest of the request |
| `Inode.SectorPart` | pintos/src/filesys/inode.c:46-54 | The sector and offset of a position hold the file's bytes there |
| `Inode.Device.ReadChunk` | pintos/src/filesys/inode.c:222-240 | A full sector directly or part of one through the bounce buffer |
| `Inode.Device.ReadAt` | pintos/src/filesys/inode.c:200-250 | Reads exactly the overlap of request and file; without bounce memory only leading whole sectors |
| `Inode.Device.WriteChunk` | pintos/src/filesys/inode.c:283-310 | Writes exactly the chunk; the zero-filled bounce buffer is unreachable |
| `Inode.Device.WriteAt` | pintos/src/filesys/inode.c:257-318 | Replaces exactly the overlap on the device, nothing while writes are denied |
| `Directory.DecodeEncode` | pintos/src/filesys/directory.c:172-174 | What dir_add stores is what lookup reads, whatever bytes the slot held |
| `Directory.DecodeLayout` | pintos/src/filesys/directory.c:17-22 | The bytes of an entry: sector low byte first, name up to its zero byte, flag |
| `Directory.EncodeLayout` | pintos/src/filesys/directory.c:172-174 | The bytes dir_add stores, and those it leaves |
| `Directory.SlotWritten` | pintos/src/filesys/directory.c:175 | Writing a slot changes that entry and no other, also across a sector border |
| `Directory.TailWritten` | pintos/src/filesys/directory.c:165-175 | Bytes behind the last whole entry do not matter |
| `Directory.AddSpec` | pintos/src/filesys/directory.c:142-179 | An entry stored in a free slot under a new name maps that name and no other, and keeps names unique |
| `Directory.RemoveSpec` | pintos/src/filesys/directory.c:185-216 | Removing unmaps that name and no other |
| `Directory.AddExact` | pintos/src/filesys/directory.c:142-179 | A successful dir_add keeps names unique and changes no other name exactly when no other slot has the name and the slot written was free or had it |
| `Directory.AddWithMemory` | pintos/src/filesys/directory.c:160-175 | If every read finds memory, success means a new name in a free slot |
| `Directory.ShortReadOverwrites` | pintos/src/filesys/directory.c:163-175 | For every directory whose first slot is in use, a first read without memory and a write with it make dir_add of a new name succeed and erase that slot's name |
| `Directory.AddToMap` | pintos/src/filesys/directory.c:142-179 | It is insertion into the finite map |
| `Directory.RemoveFromMap` | pintos/src/filesys/directory.c:185-216 | dir_remove is deletion from it |
| `Directory.RoomIff` | pintos/src/filesys/directory.c:165-168 | A slot is free exactly while the map has fewer names than slots |
| `Directory.ReadAllOnce` | pintos/src/filesys/directory.c:222-236 | Repeated readdir returns exactly the names in use, each once |
| `Directory.FindIs` | pintos/src/filesys/directory.c:91-112 | lookup finds an entry exactly if the name is in use |
| `Directory.LookupExactly` | pintos/src/filesys/directory.c:91-112 | lookup returns a slot exactly when it is the first under the name and was read |
| `Directory.SlotExactly` | pintos/src/filesys/directory.c:165-168 | The slot search stops at i exactly when all before were read and are in use, and i is free, unreadable or the end |
| `Directory.Dir.constructor` | pintos/src/filesys/directory.c:34-50 | A directory positioned at its start |
| `Directory.Dir.ReadEntry` | pintos/src/filesys/directory.c:102-103 | Reads slot i exactly if it exists and the bounce buffer finds memory |
| `Directory.Dir.WriteEntry` | pintos/src/filesys/directory.c:175 | Writes slot i exactly if it exists and the bounce buffer finds memory, and nothing outside the directory file |
| `Directory.Dir.LookupSlot` | pintos/src/filesys/directory.c:91-112 | The scanning loop equals the first match before the first read without memory |
| `Directory.Dir.FindFreeSlot` | pintos/src/filesys/directory.c:165-168 | The scanning loop stops at the first free slot, or at the first read without memory, or at the end |
| `Directory.Dir.Add` | pintos/src/filesys/directory.c:142-179 | Succeeds exactly for a good name that lookup did not find, a slot inside the file and memory for the write, and then stores that entry there; otherwise no entry changes |
| `Directory.Dir.Remove` | pintos/src/filesys/directory.c:185-216 | Erases exactly the entry found and returns its inode, or, without name, inode or memory for the write, changes no entry |
| `Directory.Dir.ReadDir` | pintos/src/filesys/directory.c:222-236 | Returns the next name in use and moves behind it, or stops at the end or the first read without memory |
| `FileSysTheorems.RunInv` | pintos/src/filesys/filesys.c:45-103 | After format, every run keeps: sectors owned by one inode and marked, entries of different files, no entry for a removed file, open and deny counts exact |
| `FileSysTheorems.FormatInv` | pintos/src/filesys/filesys.c:95-103 | A formatted volume satisfies the invariant |
| `FileSysTheorems.SectorsAccounted` | pintos/src/filesys/free-map.c:27-50 | In every reachable state no sector belongs to two files, and the free map marks exactly the sectors of files and the leaked ones |
| `FileSysTheorems.DenyCount` | pintos/src/filesys/inode.c:322-338 | Writes are denied exactly while some open file denies them, and the assertion on the count holds |
| `FileSysTheorems.ReleasedExactly` | pintos/src/filesys/inode.c:163-186 | An inode goes away exactly at the last close after removal, or when removed while not open |
| `FileSysTheorems.ReleasedSectorsFree` | pintos/src/filesys/inode.c:176-181 | Its inode and data sectors, marked until then, are all free afterwards |
| `FileSysTheorems.OpenFileKept` | pintos/src/filesys/inode.c:163-186 | Any step but its own close leaves an open file its extent |
| `FileSysTheorems.KeptWhileOpen` | pintos/src/filesys/inode.c:163-195 | Over a run the extent of an open file does not change, removed or not |
| `FileSysTheorems.SuccessfulCreate` | pintos/src/filesys/filesys.c:45-59 | A creation that finds sectors and whose dir_add succeeds enters the file with its length and sectors that were free |
| `FileSysTheorems.FailedCreate` | pintos/src/filesys/filesys.c:49-55 | A failed creation changes no file, and leaves the free map unchanged exactly unless data sectors were found and dir_add then failed, for whatever reason |
| `FileSysTheorems.LeakStep` | pintos/src/filesys/filesys.c:45-91 | A step leaks a sector exactly when it is a creation that found it for data and then failed; what is leaked stays leaked |
| `FileSysTheorems.LeakHistory` | pintos/src/filesys/filesys.c:45-91 | In every run a sector is leaked exactly when some earlier creation found it for its data and then failed |
| `FileSysNames.DuplicateNameLeaks` | pintos/src/filesys/filesys.c:49-55 | A reachable state, two files into a fresh volume, in which creating an existing name leaks a sector |
| `FileSysNames.LostExactly` | pintos/src/filesys/directory.c:163-175 | A file loses its entry without being removed exactly when a creation writes over that entry; it stays lost |
| `FileSysNames.StepTidy` | pintos/src/filesys/directory.c:142-179 | From a directory with unique names and no lost file, a step leads to such a directory exactly when a successful creation writes a free slot under a name no slot has |
| `FileSysNames.TidyRuns` | pintos/src/filesys/directory.c:142-179 | All states of a run are of that kind exactly when all its steps meet that condition |
| `FileSysNames.MapStep` | pintos/src/filesys/filesys.c:45-91 | Then the directory is a map: creation adds its name, removal takes its name out, no other call changes it |
| `FileSysNames.MemoryIsClean` | pintos/src/filesys/directory.c:160-175 | A creation whose reads of entries all find memory meets the condition |
| `FileSysNames.OverwrittenName` | pintos/src/filesys/directory.c:163-175 | A reachable state in which a creation whose first slot read finds no memory erases another file's name and loses its sectors |
| `FileSysTheorems.CreateThenRemove` | pintos/src/filesys/filesys.c:45-91 | Removing a file just created in a free slot under a new name restores the free map, the owner of every sector and the meaning of every name |
| `FileSysProtocol.NextInv` | pintos/src/filesys/filesys.c:45-91 | Each operation, with each of its failures, keeps the invariant |
| `FileSysProtocol.CreateInv` | pintos/src/filesys/filesys.c:45-59 | Creation keeps it |
| `FileSysProtocol.RemoveInv` | pintos/src/filesys/directory.c:185-216 | Removal keeps it |
| `FileSysProtocol.CloseFileInv` | pintos/src/filesys/file.c:46-54 | Closing keeps it |
| `FileSysProtocol.CloseInv` | pintos/src/filesys/inode.c:163-186 | inode_close counts down, forgets or releases as the counts demand |
| `FileSysProtocol.CountedClose` | pintos/src/filesys/inode.c:170 | Closing keeps open_cnt equal to the number of open files |
| `FileSysProtocol.CountedDeny` | pintos/src/filesys/file.c:119-141 | deny_write_cnt counts the files that deny |
| `FileSysProtocol.OwnRelease` | pintos/src/filesys/inode.c:178-180 | Releasing an inode frees exactly its sectors |
| `FileSysProtocol.OwnNew` | pintos/src/filesys/inode.c:86-88 | A new inode owns two disjoint free groups |
| `FileSysKernel.Volume.constructor` | pintos/src/filesys/free-map.c:13-20 | Inodes 0 and 1, nothing else |
| `FileSysKernel.Volume.FreeMapAllocate` | pintos/src/filesys/free-map.c:27-41 | First fit, rolled back if the map cannot be written |
| `FileSysKernel.Volume.FreeMapRelease` | pintos/src/filesys/free-map.c:44-50 | Clears exactly the range |
| `FileSysKernel.Volume.InodeOpen` | pintos/src/filesys/inode.c:111-142 | The search of the open list: counts up or pushes a new inode |
| `FileSysKernel.Volume.InodeClose` | pintos/src/filesys/inode.c:163-186 | Counts down, unlinks at zero, releases if removed |
| `FileSysKernel.Volume.FilesysCreate` | pintos/src/filesys/filesys.c:45-59 | Creation with each failure path, entry reads and the entry write included; true exactly when sectors were found and dir_add succeeded |
| `FileSysKernel.Volume.EnterFile` | pintos/src/filesys/filesys.c:49-55 | dir_add, and the partial release when it fails |
| `FileSysKernel.Volume.LookupName` | pintos/src/filesys/directory.c:91-112 | The loop of lookup finds the first match before the first read without memory |
| `FileSysKernel.Volume.DirAdd` | pintos/src/filesys/directory.c:142-179 | The checks, the slot search and the write of dir_add |
| `FileSysKernel.Volume.FilesysOpen` | pintos/src/filesys/filesys.c:66-77 | Opens the inode of the first readable slot under the name, with the close on failure; a failed call changes nothing |
| `FileSysKernel.Volume.FileClose` | pintos/src/filesys/file.c:46-54 | Allows writes, then closes the inode |
| `FileSysKernel.Volume.FileAllowWriteTo` | pintos/src/filesys/file.c:133-141 | Undoes the file's own denial |
| `FileSysKernel.Volume.FileDenyWrite` | pintos/src/filesys/file.c:119-127 | Denies once per file |
| `FileSysKernel.Volume.FilesysRemove` | pintos/src/filesys/filesys.c:83-91 | Erases the entry found; the inode goes now or at the last close; without memory for the write nothing changes |
| `FileSysKernel.Volume.EraseAndClose` | pintos/src/filesys/directory.c:203-214 | Marks the inode removed and closes it |
| `FileSysKernel.Volume.CloseAgain` | pintos/src/filesys/file.c:28-33 | A failed file_open, or a dir_remove that cannot write the entry, leaves everything as it was |
| `FileSysCalls.OpensByName` | pintos/src/filesys/filesys.c:66-77 | In a directory that is a map, with memory for its reads, filesys_open gives a file on the inode the name stands for, or none; no other handle or table entry changes |
| `FileSysCalls.OpensFirstMatch` | pintos/src/filesys/filesys.c:66-77 | In any directory it opens the inode of the first readable slot under the name, exactly if there is one and memory |
| `FileSysCalls.ReopensSame` | pintos/src/filesys/file.c:38-42 | file_reopen opens the same inode once more |
| `FileSysCalls.NameStays` | pintos/src/filesys/filesys.c:45-91 | A name keeps standing for its file through every clean step that does not remove it |
| `FileSysCalls.DenyExactly` | pintos/src/filesys/file.c:119-127 | file_deny_write makes the file deny and counts it once |
| `FileSysCalls.AllowExactly` | pintos/src/filesys/file.c:133-141 | file_allow_write takes that file's denial back and no other |
| `FileSysCalls.CloseExactly` | pintos/src/filesys/file.c:46-54 | file_close forgets that file, its denial, and with the last file the inode |
| `FileSysCalls.RemovesFirstMatch` | pintos/src/filesys/directory.c:185-216 | filesys_remove erases exactly the first readable slot under the name; its inode is marked if open and gone if not |
| `FileSysCalls.FindsLowest` | pintos/src/filesys/filesys.c:49-52 | A creation takes the lowest free sector and the lowest run of as many more as hold the length |
| `FileSysCalls.CreatesExactly` | pintos/src/filesys/filesys.c:45-59 | A successful creation adds that inode, that entry and those marks, and nothing else |
| `FileSysCalls.SavedExactly` | pintos/src/filesys/free-map.c:27-50 | The free map on disk is current exactly when the last of a call's writes of it succeeded |
| `Storage.DiskRunInv` | pintos/src/filesys/inode.c:72-106 | In every state of every run from a formatted device the stored inodes are those in use and the root directory's bytes decode to the entries |
| `Storage.WriteTouchesOnlyItsFile` | pintos/src/filesys/inode.c:259-317 | A write through an open file changes no other file's bytes, no inode sector and no directory entry |
| `Storage.CallKeepsFile` | pintos/src/filesys/filesys.c:45-91 | No create, open, close, deny, allow or remove changes the inode or the bytes of a file that it keeps |
| `Storage.BytesKept` | pintos/src/filesys/inode.c:259-317 | Over every run, while a file exists and nobody writes to it, its bytes and its extent stay the same |
| `Storage.NewFileZeros` | pintos/src/filesys/inode.c:86-100 | A created file reads as zeros |
| `Storage.UnwrittenReadsZero` | pintos/src/filesys/inode.c:86-100 | Over every run a created file reads as zeros until somebody writes to it, whatever its sectors held before |
| `Storage.OpensWhatWasCreated` | pintos/src/filesys/filesys.c:45-77 | Over every run that keeps the directory a map: a file created under a name and opened by it before any removal is the created file, with its extent, and its bytes are zeros with all writes to it laid over them in order |
| `Storage.ContentHistory` | pintos/src/filesys/inode.c:259-317 | Over every run the bytes of a file are those it had at some time with all later writes to it laid over them in order |
| `Storage.WriteOverlays` | pintos/src/filesys/inode.c:259-317 | A write lays exactly the bytes it moves over its file, none while writes are denied |
| `Storage.NameHistory` | pintos/src/filesys/filesys.c:45-91 | Over every such run a name stands for its file until it is removed |
| `Storage.InodeLayout` | pintos/src/filesys/inode.c:15-21 | The bytes of an inode sector: start, length and magic low byte first, then zeros |
| `Storage.InodeRoundTrip` | pintos/src/filesys/inode.c:83-92 | The inode that inode_open reads is the one inode_create wrote |
| `Storage.InodeCreateBlocks` | pintos/src/filesys/inode.c:92-100 | inode_create's block writes store the inode, zero its data sectors and touch no other sector |
| `Storage.CreateOnDevice` | pintos/src/filesys/filesys.c:49-53 | inode_create and dir_add on the device have together the effect that the runs above allow a creation, and succeed exactly when the creation does |
| `Storage.RemoveOnDevice` | pintos/src/filesys/directory.c:185-216 | dir_remove on the device has the effect that the runs above allow a removal, and succeeds exactly when it erases an entry |
| `Bits.AndMask` | pintos/src/lib/kernel/hash.c:305-310 | hash & (2^k - 1) is hash % 2^k |
| `Bits.PowerTest` | pintos/src/lib/kernel/hash.c:328-340 | is_power_of_2 is right |
| `Bits.TopSurvives` | pintos/src/lib/kernel/hash.c:328-333 | Turning off the lowest bit keeps the highest while another is left |
| `Bits.FloorPow2` | pintos/src/lib/kernel/hash.c:371-375 | The loop finds the largest power of two not above n |
| `Hash.FoundInBucket` | pintos/src/lib/kernel/hash.c:305-326 | Searching one bucket decides membership in the whole table |
| `Hash.PushBucket` | pintos/src/lib/kernel/hash.c:416-421 | Pushing adds exactly the element, in its bucket |
| `Hash.RemoveBucket` | pintos/src/lib/kernel/hash.c:424-429 | Removing takes exactly the element |
| `Hash.FlatIsAll` | pintos/src/lib/kernel/hash.c:199-235 | The iteration order contains each element exactly once |
| `Hash.Table.constructor` | pintos/src/lib/kernel/hash.c:24-42 | Four empty buckets |
| `Hash.Table.FindBucket` | pintos/src/lib/kernel/hash.c:305-310 | Selects the bucket of the hash value |
| `Hash.Table.FindElem` | pintos/src/lib/kernel/hash.c:314-326 | Finds an equal element of the bucket if there is one |
| `Hash.Table.Find` | pintos/src/lib/kernel/hash.c:131-135 | Returns an equal element exactly if the table has one |
| `Hash.Table.Insert` | pintos/src/lib/kernel/hash.c:98-110 | Adds exactly the new element unless an equal one is there; keeps the table valid |
| `Hash.Table.Replace` | pintos/src/lib/kernel/hash.c:114-127 | Exchanges the equal element, or adds |
| `Hash.Table.Delete` | pintos/src/lib/kernel/hash.c:144-154 | Takes out exactly the equal element |
| `Hash.Table.Rehash` | pintos/src/lib/kernel/hash.c:351-413 | Loses and duplicates nothing, with or without memory; the bucket count is the largest power of two not above half the elements, at least 4 |
| `Hash.Table.MoveAll` | pintos/src/lib/kernel/hash.c:397-410 | The moving loops carry every element over |
| `Hash.Table.MoveBucket` | pintos/src/lib/kernel/hash.c:403-409 | Moves one old bucket |
| `Hash.Cursor.constructor` | pintos/src/lib/kernel/hash.c:199-208 | What remains is the whole table |
| `Hash.Cursor.Next` | pintos/src/lib/kernel/hash.c:218-235 | Returns the next remaining element and skips empty buckets |
| `Ustar.RoundTrip` | pintos/src/lib/ustar.c:83-227 | Parsing a made header yields the stripped name, the type and the size, 0 for a directory |
| `Ustar.ParseCompose` | pintos/src/lib/ustar.c:83-227 | Exactly that for any 32-bit size field: above INT_MAX a regular file is too large |
| `Ustar.OneByteNoticed` | pintos/src/lib/ustar.c:182-227 | Changing one byte outside the checksum field of a good header makes parsing fail |
| `Ustar.ChecksumFieldChange` | pintos/src/lib/ustar.c:201-204 | A change inside that field goes unnoticed exactly if it still stands for the same number |
| `Ustar.StripSafe` | pintos/src/lib/ustar.c:65-73 | A stripped name is not empty, not absolute, does not start with "./" or "../" and is not "..", is a suffix of the input or ".", and stays as it is when stripped again |
| `Ustar.StripPrefixes` | pintos/src/lib/ustar.c:65-73 | The loop equals the specification |
| `Ustar.OtherFields` | pintos/src/lib/ustar.c:100-115 | Permissions, owner, group, time and names read back as the constants of the source |
| `Ustar.ChecksumIsPlain` | pintos/src/lib/ustar.c:45-52 | The checksum is the plain sum of all 512 bytes with the eight of its own field counted as spaces (32) |
| `UstarFormat.ComposedBytes` | pintos/src/lib/ustar.c:83-117 | Every field of a composed header at its offset, with its characters; the number in bytes 148 to 155 is the plain sum |
| `UstarFormat.AcceptsExactly` | pintos/src/lib/ustar.c:179-228 | A header is accepted exactly when magic, version, checksum, name, type and size are right, and what is returned are those |
| `UstarFormat.RejectsFirst` | pintos/src/lib/ustar.c:179-228 | Each failure is reported exactly when its check is the first to fail |
| `UstarFormat.ParsesExactly` | pintos/src/lib/ustar.c:127-160 | An octal field is read as v exactly when it holds digits for v, below 2^32, and a space or zero byte behind them |
| `UstarFormat.DigitsValue` | pintos/src/lib/stdio.c:469-547 | %0<w>o writes w characters '0' to '7' that stand for the value |
| `UstarFormat.StripsPrefixes` | pintos/src/lib/ustar.c:65-73 | A leading "/", "./" or "../" does not change the stripped name |
| `UstarFormat.StripsNothingElse` | pintos/src/lib/ustar.c:65-73 | A name without one is left alone, except that the empty name and ".." become "." |
| `UstarFormat.ZeroBlock` | pintos/src/lib/ustar.c:45-52 | The checksum of a block of zeros is 256 |
| `Ustar.SumChanges` | pintos/src/lib/ustar.c:36-54 | One byte changes the checksum by its difference |
| `Ustar.SumIgnoresField` | pintos/src/lib/ustar.c:45-52 | The checksum does not depend on its own field |
| `Ustar.CalculateChksum` | pintos/src/lib/ustar.c:36-54 | The loop computes the plain sum of the header's bytes with its own field counted as spaces |
| `Ustar.MakeHeader` | pintos/src/lib/ustar.c:83-118 | Composes the header, failing exactly for a stripped name above 99 bytes |
| `Ustar.ParseHeader` | pintos/src/lib/ustar.c:182-227 | The checks in the order of the source |
| `Ustar.IsAllZeros` | pintos/src/lib/ustar.c:166-173 | Whether all bytes are zero |
| `Octal.OctalRoundTrip` | pintos/src/lib/ustar.c:129-162 | Parsing w octal digits of a 32-bit value gives the value |
| `Octal.ParseDigits` | pintos/src/lib/ustar.c:129-162 | The accumulator never trips the overflow test on such digits |
| `Octal.ParseOctalField` | pintos/src/lib/ustar.c:129-162 | The loop equals the specification, with all failures |
| `Octal.FormatOctal` | pintos/src/lib/stdio.c:469-547 | Reversed digits, padded with zeros: exactly the w octal digits |

## Left out

- SynchKernel.Kernel.LockAcquireDonate: requires that the holder does not wait for the caller, because otherwise the loop of the source does not end.
- LinkedList.ListSplice: the moved block and its destination are in one list, as list_sort uses it; moving between two lists is not modelled.
- MallocKernel.Allocator.Reallocate: the copied bytes are not modelled, only their number; block contents are no part of the heap model.
- MlfqsRuns.RunInv: takes the bound on ready threads and niceness in -20..20 as what callers owe; thread_set_nice does not clamp.
- MlfqsKernel.Machine.ThreadSetNice: requires niceness in -20..20, the range for which the 32-bit arithmetic is proved not to overflow.
- Bitmap.BitArray.constructor: the failure of bitmap_create for lack of memory, after which there is no bitmap to speak of.
- Hash.Table.constructor: the failure of hash_init for lack of memory, after which there is no table to speak of.
- Directory.Dir.Add: does not promise unique names, because the source does not keep them when a read finds no memory; Directory.AddExact gives the exact condition.
- FileSysTheorems.RunInv: does not promise that every file has a name or is removed, for the same reason; FileSysNames.LostExactly and FileSysNames.TidyRuns say when it is so.
- FileSysKernel.Volume.FilesysCreate: each file-system call is one atomic step, since the source leaves locking to its callers.
- Storage.CreateOnDevice: the writes of the free map file are not part of it; Storage lets every call write to that file's sectors.
- Ustar.MakeHeader: builds the header as a sequence of fields instead of filling the caller's buffer in place.
- Alarm.Timer.TimerSleep: 64-bit overflow of the wake-up tick.
- Condition variables, whose comparator assumes more than cond_wait ensures.
- Threads that exit while holding a lock, and runs after a deadlock.
- thread_get_recent_cpu, whose multiplication by 100 leaves 32 bits for moderate values, and thread_get_load_avg.
- smod64 and the assembly entry points of 64-bit division.
- calloc, and the per-descriptor locks of malloc: each call is one atomic step.
- The user pool, which is a second instance of the same page allocator, and zeroing and poisoning of pages, since page contents are no part of the heap model.
- Bitmap input and output and the layout of the free map file; the model only tracks whether its last write succeeded.
- hash_clear, hash_destroy and hash_apply, the FNV hash functions, and the linking of bucket lists, which are sequences here.
- The prefix field of ustar archives, which the parser rejects, and the other conversions of printf.
- Time slices, interrupt entry, context switching and page freeing inside thread_schedule_tail beyond removing the thread.
- Device drivers, boot code, interrupt and page-table management, user processes and system calls: hardware access or stubs.
- The generic sort and search of stdlib.c, string.c, random.c and intq.c: library code that no modelled part of the kernel depends on for its state.
