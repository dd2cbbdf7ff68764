# A model of the Pintos kernel in Dafny

Pintos is a teaching operating system for the 80x86. This project models the parts of it that carry its hardest
promises and proves those promises, for every input, every run or every reachable state.

Each part has a specification on values, where the properties are proved, and, where the C code changes state in place,
classes and methods with the code's own loops, each proved to do what the specification says. Lists, bitmaps, the hash
table's bucket array, the read buffer and the archive header are changed in place on the heap; other mutable state is
fields of a class.

| files | what they model |
|---|---|
| `KernelList`, `MergeOrder`, `StableOrder`, `Lists` | the doubly linked list and its natural merge sort |
| `Division64`, `IntegerDivision`, `Power2`, `Bits` | 64-bit division from a 32-bit divide, and bits of numbers |
| `FixedPoint`, `LoadAverage`, `RecentCpu`, `Mlfqs`, `MlfqsRuns`, `MlfqsFormulas` | the feedback-queue scheduler and its 17.14 arithmetic |
| `Sjf`, `KernelSjf` | the shortest-job-first scheduler and its estimates |
| `Scheduler`, `SchedulerRuns`, `SemaphoreOrder`, `RoundRobin`, `KernelThreads`, `Threads` | threads, ready list, semaphores, round robin |
| `Monitor`, `MonitorCalls`, `KernelLocks` | locks and condition variables, every interleaving |
| `Timer`, `TimerSleep` | sleeping threads and the timer interrupt |
| `Bitmaps`, `PageAllocator`, `BlockLayout`, `BlockHeap`, `HeapRuns`, `KernelMalloc`, `Vaddr` | pages and malloc |
| `HashBuckets`, `HashTable` | the self-resizing hash table |
| `InodeIO`, `DirectoryFile`, `FileSystem`, `FileOps`, `FileCalls`, `FileNames`, `KernelFiles`, `Bytes`, `Options` | file contents, directories as bytes, and files as sectors |
| `PageTable`, `Segments`, `LoadRoom`, `Loader` | page tables and ELF loading |
| `Octal`, `Ustar` | archive headers |

How the model stands to the code:

- Concurrency is a state machine whose atomic steps are the regions that run with interrupts off; interrupts, and the
  steps of other threads, fall anywhere between them. The machine also lets an interrupt fall between a thread's being
  switched in and its re-check of a semaphore, which the processor does not.
- Whether memory can be had, whether the free map could be written and which pages other code takes are parameters.
- Integers are unbounded; where the C code's 32 or 64 bits matter the reduction is written out.

Where the code and its comments disagree the model follows the code:

- `malloc.c` speaks of blocks up to 2 kB; the loop in `malloc_init` stops at 1 kB.
- `thread_tick` says priorities are recalculated every fourth second and statistics refreshed every second; both are
  skipped when the ready list is empty at that tick. `recent_cpu` is bounded for every bound on the ticks charged between
  refreshes (`CpuBoundedRun`) and unbounded without one (`CpuUnboundedWhenSecondsAreMissed`).
- `malloc` is to return a block of at least the size asked for; it does exactly where `MallocGives` says. `calloc` is to
  make sure that the product fits; it does exactly where `CallocPromiseIff` says.
- `dir_add` assumes that a short read means the end of the directory. Directory reads may come up short for want of a
  bounce buffer anywhere in this model. What is said of sectors holds regardless; that names stay apart holds exactly as
  long as the scans are harmless (`HarmlessIff`).
- A `filesys_create` that fails is to leave nothing behind; the data's sectors stay marked exactly where `CreateLeaksIff`
  says.
- `sdiv64`, `umod64` and `smod64` return what their comments say exactly where their contracts say.

## Model

| member | source | states |
|---|---|---|
| KernelList.Insert | pintos/src/lib/kernel/list.c:171-181 | linking a node in front of another makes the chain the old one with the node at that place, with both directions of links agreeing |
| KernelList.Remove | pintos/src/lib/kernel/list.c:251-258 | unlinking a node leaves the chain without it and returns its successor |
| KernelList.Splice | pintos/src/lib/kernel/list.c:186-207 | a run of nodes moved before another node gives the chain with that run moved; nothing else changes place |
| KernelList.FindEndOfRun | pintos/src/lib/kernel/list.c:360-375 | the run returned is non-decreasing and maximal |
| KernelList.InplaceMerge | pintos/src/lib/kernel/list.c:382-402 | two adjacent sorted runs become one sorted run of the same nodes, equal elements keeping their order |
| KernelList.MergePass | pintos/src/lib/kernel/list.c:417-440 | one pass merges natural runs in pairs: it keeps the nodes and the order of equal elements, and reports half the runs, rounding up |
| KernelList.SortChain | pintos/src/lib/kernel/list.c:407-443 | passes repeat until one run is left, and stop: the chain is then the stable sort of the one it started as |
| KernelList.List.constructor | pintos/src/lib/kernel/list.c:60-68 | an initialised list is well formed and empty |
| KernelList.List.Empty | pintos/src/lib/kernel/list.c:312-316 | true exactly for the list without nodes |
| KernelList.List.PushFront | pintos/src/lib/kernel/list.c:211-215 | the node becomes the first of the same nodes |
| KernelList.List.PushBack | pintos/src/lib/kernel/list.c:219-223 | the node becomes the last of the same nodes |
| KernelList.List.PopFront | pintos/src/lib/kernel/list.c:262-268 | the first node leaves; the others keep their order |
| KernelList.List.InsertOrdered | pintos/src/lib/kernel/list.c:448-462 | the list becomes the ordered insertion of the node: in front of the first element it is less than, behind its equals |
| KernelList.List.Sort | pintos/src/lib/kernel/list.c:407-443 | for every list and strict weak order the nodes become their stable sort, in a number of passes logarithmic in the descents at the start |
| MergeOrder.MergeStateMove | pintos/src/lib/kernel/list.c:394-401 | moving the second run's head in front of a larger first-run element keeps the merge invariant |
| MergeOrder.PassStateDone | pintos/src/lib/kernel/list.c:415-440 | a pass whose runs all found a partner has put out half as many, rounding up, and leaves fewer descents than that; same nodes, ties in order |
| MergeOrder.PassStateOddRun | pintos/src/lib/kernel/list.c:431-433 | likewise when the last run has no partner, before it is counted |
| MergeOrder.PassesStep | pintos/src/lib/kernel/list.c:412-441 | each pass at least halves the runs, so the loop ends; a second pass or later had that power of two of descents to start from |
| StableOrder.StableSortUnique | pintos/src/lib/kernel/list.c:404-443 | a list is the stable sort of another exactly when it has the same elements, in order, ties in their original order: the meaning of list_sort fixed without naming the algorithm |
| StableOrder.StableSortHead | pintos/src/lib/kernel/list.c:404-443 | the head of a stable sort is least, and first among its equals |
| StableOrder.InsertOrderedIncreasing | pintos/src/lib/kernel/list.c:445-462 | ordered insertion keeps a list ordered, ties first come first served |
| Division64.Divl | pintos/src/lib/arithmetic.c:25-37 | the 32-bit divide instruction, whose precondition is that the quotient fits; every call in this model meets it |
| Division64.Nlz | pintos/src/lib/arithmetic.c:41-73 | the number of leading zero bits: shifting by it puts the top bit in place |
| Division64.ShortDivision | pintos/src/lib/arithmetic.c:80-112 | the two-step schoolbook division for divisors below 2^32 is exact and its divides do not trap |
| Division64.WideEstimate | pintos/src/lib/arithmetic.c:115-125 | for larger divisors the divide does not trap, the normalised estimate is exact or one too large, and the comparison tells which |
| Division64.UDiv64 | pintos/src/lib/arithmetic.c:77-127 | floor(n/d) for all 64-bit n and nonzero d |
| Division64.SDiv64 | pintos/src/lib/arithmetic.c:139-146 | the quotient truncated toward zero, exactly when the operands are not -2^63 and -1 |
| Division64.UMod64 | pintos/src/lib/arithmetic.c:131-135 | the remainder, exactly when it fits the 32-bit return type |
| Division64.SMod64 | pintos/src/lib/arithmetic.c:150-154 | the signed remainder, exactly when it fits the 32-bit return type |
| FixedPoint.ConversionRoundTrip | pintos/src/threads/fixedpoint.h:28-50 | an integer survives conversion to fixed point and back, truncating or rounding |
| FixedPoint.RoundToNearest | pintos/src/threads/fixedpoint.h:39-50 | rounding is to the nearest integer, halves away from zero |
| LoadAverage.LoadBounded | pintos/src/threads/thread.c:813-823 | with at most N ready threads at every refresh, load_avg stays in [0, N*2^14] |
| LoadAverage.LoadClimbs | pintos/src/threads/thread.c:813-823 | under a constant load of n threads the average climbs by at least one unit a refresh until it is within 118 units of n |
| LoadAverage.LoadNeverOverflowsIff | pintos/src/threads/thread.c:813-823 | no run with at most n ready threads overflows a 32-bit step, if and only if n <= 2221 |
| LoadAverage.LoadLag | pintos/src/threads/thread.c:813-823 | the truncated average never exceeds the exact rational recurrence and lags it by at most 118 units of 2^-14 |
| RecentCpu.DecayBelowOne | pintos/src/threads/thread.c:800-810 | the decay factor is in [0, 1) for every load |
| RecentCpu.DecayAtMost | pintos/src/threads/thread.c:800-810 | with at most N ready threads the decay factor is at most 2N/(2N+1) |
| RecentCpu.NextCpuBounded | pintos/src/threads/thread.c:800-810 | from within the bounds for at most N ready threads and c charged ticks, for any N and c, a refresh lands within the bounds, without overflow for N <= 545 and c <= 100 |
| Mlfqs.Scheduler.RefreshLoadAvg | pintos/src/threads/thread.c:813-823 | load_avg becomes the next load for the present ready queue |
| Mlfqs.Scheduler.RefreshCpu | pintos/src/threads/thread.c:800-810 | one thread's recent_cpu is decayed and its nice added; the idle thread is left alone |
| Mlfqs.Scheduler.ForeachRefreshCpu | pintos/src/threads/thread.c:444-457 | the loop over all_list does so for every thread |
| Mlfqs.Scheduler.RefreshPriorityThread | pintos/src/threads/thread.c:783-797 | one thread's priority becomes what its nice and recent_cpu give, which `PriorityIs` fixes |
| Mlfqs.Scheduler.RefreshPriority | pintos/src/threads/thread.c:765-781 | the running thread and every queued thread but the initial one get new priorities |
| Mlfqs.Scheduler.ThreadTick | pintos/src/threads/thread.c:170-223 | a tick does what the policy says, in its order: refresh, charge, reprioritise and sort, preempt |
| Mlfqs.TickKeepsValid | pintos/src/threads/thread.c:170-223 | a tick keeps the queue's and the running thread's places |
| Mlfqs.PreemptionPicksBest | pintos/src/threads/thread.c:217-221 | a quantum preemption runs a thread with priority at least that of the preempted thread and of everything queued, first queued among equals; later wake-ups cannot pass it |
| MlfqsFormulas.PriorityIs | pintos/src/threads/thread.c:783-797 | the priority is at least k exactly when recent_cpu is below a bound that falls by four for each step of k and by eight for each step of nice: the formula for every nice and recent_cpu |
| MlfqsFormulas.PriorityNear | pintos/src/threads/thread.c:783-797 | 63 and 0 exactly at the two ends; in between, recent_cpu is within half a step, two units, of the value that the real formula gives that priority |
| MlfqsFormulas.PriorityFalls | pintos/src/threads/thread.c:783-797 | a higher nice or a higher recent_cpu never gives a higher priority |
| MlfqsFormulas.PriorityAtRest | pintos/src/threads/thread.c:783-797 | with no recent_cpu the priority is 63 less twice nice, and 63 for nice at most 0 |
| MlfqsFormulas.NextCpuIs | pintos/src/threads/thread.c:800-810 | apart from nice, which is added, a refresh multiplies recent_cpu by 2*load/(2*load+1) toward zero, short of the exact product by less than one unit plus 1/2^14 of recent_cpu |
| MlfqsFormulas.TickIs | pintos/src/threads/thread.c:170-223 | a tick with threads waiting, thread by thread: load_avg first, recent_cpu from the new load_avg, the charge, priorities from the new recent_cpu, and exactly when a yield is asked for |
| MlfqsFormulas.QueueAfterTick | pintos/src/threads/thread.c:189-221 | the queue is the priority order of what it was, exactly on the ticks that change priorities or ask for a yield |
| MlfqsFormulas.SettingsTakeEffect | pintos/src/threads/thread.c:460-485 | setting nice takes effect at once; setting a priority does not, whatever it is |
| MlfqsFormulas.SliceInEveryRun | pintos/src/threads/thread.c:217-221 | in every run thread_ticks counts the ticks with threads waiting since the last switch, so no yield is asked for before the time slice is used up |
| MlfqsRuns.CpuBoundedRun | pintos/src/threads/thread.c:181-187 | over every run with at most N ready threads and at most c ticks charged between refreshes, whatever N and c, recent_cpu stays in [-(40N+20), (2c+40)N+20+charged]; no overflow for N <= 545 and c <= 100 |
| MlfqsRuns.StepSound | pintos/src/threads/thread.c:424-440 | ticks, yields, blocks, wake-ups, creations, exits and changes of nice or priority keep the queue and the running thread sound |
| MlfqsRuns.BusyRunsAreRefreshed | pintos/src/threads/thread.c:172-187 | if some thread is ready at every second boundary, at most 100 ticks are charged between refreshes |
| MlfqsRuns.CpuUnboundedWhenSecondsAreMissed | pintos/src/threads/thread.c:172-187 | with no such c there is no bound: runs of blocks, wake-ups and ticks in which nobody is ready when a second is up drive recent_cpu past any value, since the tick returns before the refresh and later ticks still charge |
| Sjf.NewEstimateIs | pintos/src/threads/thread.c:933-955 | the new estimate is the mean of the old one and the latest run, or the latest run when there was no estimate |
| KernelSjf.Scheduler.GetTotalExec | pintos/src/threads/thread.c:870-882 | the estimate of a thread's name, found or registered: one record per name |
| KernelSjf.Scheduler.InitThread | pintos/src/threads/thread.c:613-614 | a new thread joins all_list with its name's estimate, and becomes its name's record if there was none |
| KernelSjf.Scheduler.ThreadTick | pintos/src/threads/thread.c:159-160 | the tick is charged to the running thread only, and the records stay consistent |
| KernelSjf.Scheduler.ForeachGetTotalExec | pintos/src/threads/thread.c:884-887 | every live thread takes over its name's estimate |
| KernelSjf.Scheduler.CalcNewTotalExec | pintos/src/threads/thread.c:933-955 | the running thread's total_exec becomes the new estimate |
| KernelSjf.Scheduler.ThreadExit | pintos/src/threads/thread.c:383-420 | the call, on the lists, is the machine's exit: new estimate, everyone refreshed, queue sorted, first thread chosen |
| KernelSjf.Scheduler.constructor | pintos/src/threads/thread.c:105-140 | thread_init and thread_start give the machine's first state, in which the invariant holds |
| KernelSjf.Scheduler.ThreadCreate | pintos/src/threads/thread.c:255-308 | a created thread starts from its name's estimate, and the records stay consistent |
| KernelSjf.Scheduler.ThreadUnblock | pintos/src/threads/thread.c:332-346 | a woken thread queues last |
| KernelSjf.Scheduler.ThreadBlock | pintos/src/threads/thread.c:314-323 | the head of the queue runs, or the idle thread |
| KernelSjf.Scheduler.ThreadYield | pintos/src/threads/thread.c:424-440 | the running thread queues last, unless idle, and the head runs |
| Sjf.NextKeeps | pintos/src/threads/thread.c:383-440 | every step keeps one record per name, every live thread's total_exec equal to its record's, and the queue in order |
| Sjf.RecordsInEveryRun | pintos/src/threads/thread.c:870-887 | in every reachable state all_all_list has at most one record per name and every live thread's total_exec is its name's record's |
| Sjf.ExitPicksShortest | pintos/src/threads/thread.c:402-418 | in every reachable state an exit runs a queued thread with least total_exec, first queued among equals, or the idle thread when none is queued |
| Sjf.ExitEstimates | pintos/src/threads/thread.c:402-418 | an exit changes a name's estimate exactly when the exiting thread is the one that holds the name's record |
| Sjf.TicksCounted | pintos/src/threads/thread.c:159-160 | in every run a thread's curr_exec goes up by exactly the ticks that found it running |
| Sjf.ExitLearnsTicks | pintos/src/threads/thread.c:383-420 | when a thread that is its name's record exits, the name's estimate is averaged with the ticks the thread ran since its creation |
| Sjf.StepQueue | pintos/src/threads/thread.c:314-440 | between exits the ready list is first come, first served |
| SchedulerRuns.NextKeeps | pintos/src/threads/thread.c:314-346 | every step keeps the list and status discipline, so the assertions in thread_unblock and schedule hold |
| SchedulerRuns.ReachableDisciplined | pintos/src/threads/thread.c:642-722 | in every reachable state one thread runs, a non-idle thread is READY iff it is on ready_list, once, no thread is on two lists, and the idle thread is on none |
| SchedulerRuns.WakeupPending | pintos/src/threads/synch.c:60-121 | whenever a semaphore is positive and threads wait on it, a woken thread that has yet to re-check is ready or running: no wakeup is lost, even when another thread takes the unit first |
| SchedulerRuns.WokenCoverValue | pintos/src/threads/synch.c:60-121 | in every reachable state with threads waiting, the threads woken but not yet re-checked number at least the value |
| SchedulerRuns.SemaphoreConserves | pintos/src/threads/synch.c:60-121 | in every interleaving, value plus completed downs equals initial value plus ups |
| SemaphoreOrder.FirstComeFirstServed | pintos/src/threads/synch.c:60-121 | in every interleaving a semaphore's waiters are woken in the order in which they queued, one for each up |
| SemaphoreOrder.InitializedSemaphore | pintos/src/threads/synch.c:44-121 | from sema_init on, the value is the initial one plus ups less completed downs, and the waiters are those that queued and were not woken yet, in order |
| RoundRobin.StepProgress | pintos/src/threads/thread.c:162-168 | each step pays its ticks out of a waiting thread's credit, or gives it the processor |
| RoundRobin.WaitingBound | pintos/src/threads/thread.c:162-168 | in every run, the thread at index i of ready_list runs within 7*(i+1) ticks |
| RoundRobin.QuantumKept | pintos/src/threads/thread.c:162-168 | a tick takes the processor from the running thread exactly when it is the last of its quantum; then the first in the queue runs and the old thread goes last |
| RoundRobin.TicksCounted | pintos/src/threads/thread.c:162-168 | in every run a thread's ticks are those it has run, modulo the quantum |
| RoundRobin.CreatedTicks | pintos/src/threads/thread.c:255-308 | a created thread has the whole of its first quantum |
| KernelThreads.Kernel.NextThreadToRun | pintos/src/threads/thread.c:642-649 | the head of ready_list, or the idle thread |
| KernelThreads.Kernel.Schedule | pintos/src/threads/thread.c:708-722 | the next thread becomes the running one |
| KernelThreads.Kernel.ThreadBlock | pintos/src/threads/thread.c:314-323 | the running thread sleeps and another runs, as the state machine says |
| KernelThreads.Kernel.ThreadUnblock | pintos/src/threads/thread.c:332-346 | a blocked thread joins the end of ready_list |
| KernelThreads.Kernel.ThreadYield | pintos/src/threads/thread.c:424-440 | the running thread queues last, unless idle, and the head runs |
| KernelThreads.Kernel.ThreadExit | pintos/src/threads/thread.c:383-420 | the running thread dies and another runs |
| KernelThreads.Kernel.SemaDownTurn | pintos/src/threads/synch.c:60-75 | one turn of sema_down's loop, entered or re-checked after a wake-up |
| KernelThreads.Kernel.SemaTryDown | pintos/src/threads/synch.c:83-102 | takes a unit if there is one |
| KernelThreads.Kernel.SemaUp | pintos/src/threads/synch.c:108-121 | wakes the first waiter and adds a unit |
| KernelThreads.Kernel.ThreadTick | pintos/src/threads/thread.c:162-168 | round robin's tick: yield on return when the quantum is up |
| KernelThreads.Kernel.Interrupt | pintos/src/threads/interrupt.c:344-389 | a timer interrupt with its wake-ups, and the yield on return |
| Monitor.NextKeeps | pintos/src/threads/synch.c:192-338 | every step of every thread keeps the lock's and the condition variables' invariant |
| Monitor.MutualExclusion | pintos/src/threads/synch.c:192-236 | in every run the lock's value plus the threads between passing its sema_down and finishing its sema_up is one, also while holder is null; holder names the thread that holds it |
| Monitor.HolderKnown | pintos/src/threads/synch.c:239-247 | holder names exactly the thread that holds the lock |
| Monitor.AssertionsHold | pintos/src/threads/synch.c:192-338 | the assertions on who holds the lock, in lock_acquire, lock_try_acquire, lock_release and the cond functions, hold at every move |
| Monitor.LockWakeupPending | pintos/src/threads/synch.c:192-236 | in every run, whenever the lock is free and threads are blocked on it, a thread woken on it has yet to re-check and will take it |
| MonitorCalls.TurnTakesLock | pintos/src/threads/synch.c:192-220 | a turn of lock_acquire or lock_try_acquire takes the lock exactly when nobody is inside it; otherwise lock_try_acquire changes nothing and the others block last in line |
| MonitorCalls.LockInOrder | pintos/src/threads/synch.c:192-236 | in every run the lock's waiters are woken in the order in which they blocked |
| Monitor.WaitReturnsHolding | pintos/src/threads/synch.c:287-304 | cond_wait returns only with the lock held |
| Monitor.SignalNotLost | pintos/src/threads/synch.c:311-322 | a signalled waiter's next turn takes it out of its sleep |
| Monitor.SignalBeforeSleep | pintos/src/threads/synch.c:287-322 | a signal that lands between cond_wait's lock_release and its sema_down wakes that waiter |
| Monitor.TargetAsleep | pintos/src/threads/synch.c:311-322 | the waiter record a signaller uses belongs to a thread still in cond_wait |
| Monitor.FirstInFirstOut | pintos/src/threads/synch.c:287-338 | waiters are signalled in the order they queued, by cond_signal and cond_broadcast alike |
| MonitorCalls.BroadcastStep | pintos/src/threads/synch.c:330-338 | each move of a broadcast goes on with it or ends it with no thread queued, one move nearer its end |
| MonitorCalls.BroadcastWakesAll | pintos/src/threads/synch.c:330-338 | when cond_broadcast returns, whatever other threads did meanwhile, every thread that was queued when it began is off the queue and past its sleep or about to be with its next turn |
| KernelLocks.Synch.LockDownTurn | pintos/src/threads/synch.c:192-201 | one turn of lock_acquire's sema_down is the machine's step |
| KernelLocks.Synch.LockTryDown | pintos/src/threads/synch.c:209-222 | takes the lock's unit if there is one, and tells whether it did |
| KernelLocks.Synch.SetHolder | pintos/src/threads/synch.c:192-201 | lock_acquire records its holder |
| KernelLocks.Synch.ClearHolder | pintos/src/threads/synch.c:228-236 | lock_release clears the holder first |
| KernelLocks.Synch.UpLock | pintos/src/threads/synch.c:228-236 | and then ups the semaphore |
| KernelLocks.Synch.CondEnqueue | pintos/src/threads/synch.c:287-304 | cond_wait queues its waiter record last |
| KernelLocks.Synch.CondSleepTurn | pintos/src/threads/synch.c:287-304 | one turn of cond_wait's sema_down |
| KernelLocks.Synch.CondPop | pintos/src/threads/synch.c:311-338 | cond_signal and each round of cond_broadcast take the first record |
| KernelLocks.Synch.CondUp | pintos/src/threads/synch.c:311-338 | and up its semaphore; a broadcast then goes on, a signal is over |
| Timer.TickIs | pintos/src/devices/timer.c:177-192 | a tick ups exactly the listed sleepers whose time has come, once each, and removes them |
| Timer.NothingDueAfterTick | pintos/src/devices/timer.c:177-192 | nothing left on wait_list is due |
| Timer.SleepersInEveryRun | pintos/src/devices/timer.c:93-104 | in every run wait_list is sorted with first-come ties, a sleeper is on it exactly until the first tick after its insertion that reaches its time, and a tick between insertion and sema_down loses nothing |
| TimerSleep.SleepsAsAsked | pintos/src/devices/timer.c:93-104 | in every run a call of timer_sleep (k) at tick n keeps the wakeup time n + k while it lasts, and the thread is listed exactly until the first tick after its insertion that reaches n + k |
| TimerSleep.SleepsLongEnough | pintos/src/devices/timer.c:93-104 | so it returns after at least k ticks |
| TimerSleep.SleepsNoLonger | pintos/src/devices/timer.c:176-191 | and while listed, the next tick wakes it exactly when that tick reaches n + k; it then returns when it next runs |
| Timer.Device.SetWakeup | pintos/src/devices/timer.c:93-104 | the wakeup time becomes the present tick plus the ticks asked for, before the thread is listed; a negative sleep changes nothing |
| Timer.Device.InsertSleeper | pintos/src/devices/timer.c:93-104 | ordered insertion into wait_list |
| Timer.Device.TimerInterrupt | pintos/src/devices/timer.c:177-192 | the handler's loop does what the tick says |
| Bitmaps.MarkWord | pintos/src/lib/kernel/bitmap.c:158-168 | or-ing in the mask sets one bit and no other |
| Bitmaps.ResetWord | pintos/src/lib/kernel/bitmap.c:171-183 | and-ing with the complement clears one bit and no other |
| Bitmaps.FlipWord | pintos/src/lib/kernel/bitmap.c:186-196 | xor-ing flips one bit and no other |
| Bitmaps.Bitmap.constructor | pintos/src/lib/kernel/bitmap.c:78-94 | a new bitmap is all false |
| Bitmaps.Bitmap.Mark | pintos/src/lib/kernel/bitmap.c:157-168 | the array of booleans with one set |
| Bitmaps.Bitmap.Reset | pintos/src/lib/kernel/bitmap.c:170-183 | the array of booleans with one cleared |
| Bitmaps.Bitmap.Flip | pintos/src/lib/kernel/bitmap.c:185-196 | the array of booleans with one inverted |
| Bitmaps.Bitmap.Test | pintos/src/lib/kernel/bitmap.c:198-204 | the boolean at the index |
| Bitmaps.Bitmap.SetMultiple | pintos/src/lib/kernel/bitmap.c:218-229 | a range set to one value |
| Bitmaps.Bitmap.Contains | pintos/src/lib/kernel/bitmap.c:251-264 | whether the value occurs in the range |
| Bitmaps.Bitmap.Scan | pintos/src/lib/kernel/bitmap.c:296-312 | the lowest index where the group fits, or none |
| Bitmaps.Bitmap.ScanAndFlip | pintos/src/lib/kernel/bitmap.c:320-327 | that group, flipped |
| PageAllocator.PoolsApart | pintos/src/threads/palloc.c:45-62 | the two pools share no page, stay inside free memory, and leave room for their bitmaps in front |
| PageAllocator.Pool.constructor | pintos/src/threads/palloc.c:153-171 | a new pool has every page free |
| PageAllocator.Pool.GetMultiple | pintos/src/threads/palloc.c:70-107 | the first run of free pages, marked; nothing for no pages or no room |
| PageAllocator.Pool.FreeMultiple | pintos/src/threads/palloc.c:117-142 | pages in use are free again; the assertion holds |
| PageAllocator.GetThenFree | pintos/src/threads/palloc.c:70-142 | freeing what was just obtained restores the bitmap |
| BlockLayout.MallocInit | pintos/src/threads/malloc.c:71-85 | seven descriptors, of 16 to 1024 bytes, each with more than one block to an arena |
| BlockLayout.AddrIsBlock | pintos/src/threads/malloc.c:266-294 | block_to_arena inverts arena_to_block |
| BlockLayout.BlockIsAddr | pintos/src/threads/malloc.c:266-294 | every address block_to_arena accepts is one arena_to_block gives |
| BlockLayout.BlocksApart | pintos/src/threads/malloc.c:284-294 | blocks of an arena do not overlap |
| BlockLayout.PageCntEnough | pintos/src/threads/malloc.c:109-110 | the pages counted for a big block hold it exactly when adding the header does not wrap: sizes up to 2^32 - 12 |
| BlockLayout.PageCntZero | pintos/src/threads/malloc.c:109-112 | exactly the requests whose page count wraps to nothing, and so fail |
| BlockLayout.CallocExact | pintos/src/threads/malloc.c:158-167 | calloc asks for the whole product exactly when it fits in 32 bits and its factors are both zero or neither |
| BlockLayout.CallocPromiseIff | pintos/src/threads/malloc.c:158-167 | calloc refuses a product that does not fit exactly when it wraps to less than a factor; so it keeps its promise exactly then or when the product fits |
| BlockLayout.CallocWraps | pintos/src/threads/malloc.c:165-167 | a product that wraps and is not refused |
| BlockHeap.MallocKeeps | pintos/src/threads/malloc.c:89-154 | malloc keeps every arena, free list, free count and live block in order, and no arena wholly free |
| BlockHeap.FreeKeeps | pintos/src/threads/malloc.c:218-264 | so does free |
| BlockHeap.AllFree | pintos/src/threads/malloc.c:242-252 | when free_cnt reaches blocks_per_arena it equals it, every block of the arena is on the free list, and none is live |
| HeapRuns.LiveApart | pintos/src/threads/malloc.c:89-154 | two live blocks never overlap |
| HeapRuns.ExtentInside | pintos/src/threads/malloc.c:89-154 | a live block lies inside its arena, after the header |
| HeapRuns.MallocGives | pintos/src/threads/malloc.c:89-154 | the block is new, the others keep their extents, and it is large enough exactly for requests up to 2^32 - 12 bytes |
| HeapRuns.MallocSmallIff | pintos/src/threads/malloc.c:96-154 | a request of up to 1024 bytes succeeds exactly when the smallest block size that holds it has a block on its list or some page is free; the block has that size, and is the first of the list or of a page that was free |
| HeapRuns.MallocBigIff | pintos/src/threads/malloc.c:100-119 | a larger request succeeds exactly when its page count does not wrap to 0 and that many consecutive pages are free; these become the block |
| HeapRuns.SmallestExists | pintos/src/threads/malloc.c:71-105 | the requests up to 1024 bytes are those that some block size holds, and the smallest such size is unique |
| HeapRuns.FreeUndoesMalloc | pintos/src/threads/malloc.c:89-264 | freeing the block just obtained restores the page map, the arenas and the free lists exactly |
| HeapRuns.AllReturned | pintos/src/threads/malloc.c:241-253 | with nothing live, malloc holds no page |
| HeapRuns.NextKeeps | pintos/src/threads/malloc.c:89-264 | every call keeps the heap in order, also while other code takes and returns pages |
| HeapRuns.RunFits | pintos/src/threads/malloc.c:89-264 | over every run of requests up to 2^32 - 12 bytes, every live block holds what was asked for |
| HeapRuns.RunConserves | pintos/src/threads/malloc.c:89-264 | a run from nothing live to nothing live ends in the state it began in, page bitmap included |
| KernelMalloc.Allocator.Malloc | pintos/src/threads/malloc.c:89-154 | the call, on the pool and the lists, is the specified one; `MallocSmallIff` and `MallocBigIff` say when it succeeds |
| KernelMalloc.Allocator.AddArena | pintos/src/threads/malloc.c:136-146 | the loop appends every block of a new arena |
| KernelMalloc.Allocator.RemoveBlocks | pintos/src/threads/malloc.c:244-251 | each block the loop unlinks is on the free list |
| KernelMalloc.Allocator.Free | pintos/src/threads/malloc.c:218-264 | the call, on the pool and the lists, is the specified one |
| HashBuckets.BucketInside | pintos/src/lib/kernel/hash.c:304-310 | masking with a power of two less one is the remainder, so the bucket exists |
| HashBuckets.FindInBucket | pintos/src/lib/kernel/hash.c:312-326 | an element equal to another is in that one's bucket or nowhere |
| HashBuckets.TurnOff | pintos/src/lib/kernel/hash.c:328-340 | clearing the lowest bit keeps the highest until it is the only one |
| HashBuckets.BestCountLoad | pintos/src/lib/kernel/hash.c:364-372 | the chosen count is a power of two, at least four, with fewer than four elements a bucket and, above four buckets, at least two |
| HashBuckets.FlattenIs | pintos/src/lib/kernel/hash.c:199-235 | the buckets in order list each element of the table once |
| HashTable.Table.constructor | pintos/src/lib/kernel/hash.c:24-42 | a new table is the empty set |
| HashTable.Table.Find | pintos/src/lib/kernel/hash.c:131-135 | the element equal to the argument, if the set has one |
| HashTable.Table.Insert | pintos/src/lib/kernel/hash.c:98-110 | inserts unless an equal element is there, which is returned, whether or not the resize gets memory |
| HashTable.Table.Replace | pintos/src/lib/kernel/hash.c:114-127 | the new element takes the equal one's place |
| HashTable.Table.Delete | pintos/src/lib/kernel/hash.c:144-154 | the equal element leaves the set |
| HashTable.Table.NewBucketCnt | pintos/src/lib/kernel/hash.c:364-372 | the loop computes the largest power of two up to the wanted count |
| HashTable.Table.Rehash | pintos/src/lib/kernel/hash.c:351-413 | resizing keeps the set, puts every element in its own new bucket, and without memory changes nothing |
| HashTable.Table.Perform | pintos/src/lib/kernel/hash.c:98-154 | any sequence of operations, whatever memory each finds, answers and ends as the abstract set does |
| HashTable.Iterator.Next | pintos/src/lib/kernel/hash.c:218-235 | the next element of the flattened buckets, or null at the end |
| HashTable.Visit | pintos/src/lib/kernel/hash.c:182-235 | the iteration idiom visits each element exactly once |
| InodeIO.Device.ReadAt | pintos/src/filesys/inode.c:200-250 | max(0, min(size, length - offset)) bytes, exactly that slice of the file, reach the buffer; without a bounce buffer, the whole sectors at the start of it |
| InodeIO.Device.WriteAt | pintos/src/filesys/inode.c:257-318 | the same count is written, exactly that slice of the file changes, and every other byte on disk, slack included, is unchanged; nothing when writes are denied |
| InodeIO.Device.WriteChunk | pintos/src/filesys/inode.c:284-308 | a partial chunk always has data around it in its sector: the zero-fill branch is unreachable |
| InodeIO.ChunkBytes | pintos/src/filesys/inode.c:46-54 | a chunk is consecutive bytes of the sector byte_to_sector names |
| InodeIO.ReadBack | pintos/src/filesys/inode.c:200-318 | what was written is what is next read |
| InodeIO.Device.ZeroData | pintos/src/filesys/inode.c:93-100 | a new file is all zeros, and no other sector changes |
| FileOps.NextKeeps | pintos/src/filesys/filesys.c:45-91 | create, open, reopen, remove and close, with memory, free-map writes and directory reads failing anywhere, keep: no sector in two files, all files' sectors marked, inode sectors unique, sound open counts |
| FileOps.CloseAllowed | pintos/src/filesys/inode.c:163-186 | the assertions in inode_close's two releases always hold |
| FileOps.CreateKeeps | pintos/src/filesys/filesys.c:45-59 | creation keeps the invariant on every success and failure path, also when a short read makes dir_add overwrite or repeat an entry |
| FileNames.CreateFinds | pintos/src/filesys/filesys.c:45-59 | a created file is in a slot under its name, with its length, in sectors no file had; the name leads to it exactly when no earlier slot has the name, as after harmless scans |
| FileNames.RemoveForgets | pintos/src/filesys/directory.c:184-216 | the first slot seen with the name is erased and no other; where names are apart the name is then not found |
| FileCalls.OpenIs | pintos/src/filesys/filesys.c:66-77 | the file opened is that of the first slot seen with the name, exactly when there is one and directory, inode and file structure can be had; its count goes up by one and nothing else changes, and a failed call changes nothing |
| FileCalls.ReopenIs | pintos/src/filesys/file.c:36-42 | reopening adds one to the open count if a file structure can be had, and changes nothing else |
| FileCalls.RemoveIs | pintos/src/filesys/filesys.c:83-91 | a remove succeeds exactly when a slot seen has the name and directory, inode and entry write can be had; an open file stays, marked removed, and one that is not open gives up exactly its sectors at once |
| FileCalls.CreateIff | pintos/src/filesys/filesys.c:45-59 | a create succeeds exactly when the root directory, a sector, the memory, a run of sectors beside it and a slot for the name can be had |
| FileCalls.CreateIs | pintos/src/filesys/filesys.c:45-59 | it takes the lowest free sector for the inode and a free run for the data, marks exactly those, and fills one slot |
| FileCalls.CreateLeaksIff | pintos/src/filesys/filesys.c:45-59 | a create that fails leaves the free map as it was exactly when it fails before dir_add or the file has no data |
| FileCalls.FormatIs | pintos/src/filesys/filesys.c:93-103 | a device can be formatted exactly when it has room for the two inodes, the map and the directory; these sectors come first, all others are free and the 16 slots empty |
| FileCalls.CountsInEveryRun | pintos/src/filesys/inode.c:111-186 | in every run a file's open count is what it was plus the opens and reopens that gave it less its closes, and it is on the list of open inodes exactly while that is positive |
| FileOps.OpenStays | pintos/src/filesys/inode.c:163-195 | an open file keeps its inode and sectors through every step but its own last close, removed or not |
| FileOps.SectorsKeptWhileOpen | pintos/src/filesys/inode.c:163-195 | and so through every run during which it stays open |
| FileOps.LastCloseFrees | pintos/src/filesys/inode.c:163-186 | the last close of a removed file frees exactly its sectors; of a file that still has a name, none |
| FileOps.FormatOk | pintos/src/filesys/filesys.c:93-103 | a formatted device satisfies the invariant |
| FileNames.HarmlessIff | pintos/src/filesys/directory.c:141-179 | when directory reads come up short for want of a bounce buffer, dir_add keeps all entries and names apart exactly when it refuses the name or cannot write, or the directory is full and seen to be, or the name is new and the scan reaches the first free slot |
| FileNames.ShortReadOverwrites | pintos/src/filesys/directory.c:159-175 | a short read that makes dir_add overwrite another file's entry |
| FileNames.ShortReadDoubles | pintos/src/filesys/directory.c:155-157 | a short read that makes dir_add add a name that is already there |
| FileNames.FullScansHarmless | pintos/src/filesys/directory.c:141-179 | with every read served dir_add is harmless |
| FileNames.CreateTidyIff | pintos/src/filesys/filesys.c:45-59 | a create keeps names apart and every entry exactly when it fails or its scans were harmless |
| FileNames.NamesInEveryRun | pintos/src/filesys/filesys.c:45-91 | in every run whose dir_adds scan harmlessly, names stay apart and no open file loses its name but by remove |
| FileNames.FormatTidy | pintos/src/filesys/filesys.c:93-103 | a formatted device starts such a run |
| FileSystem.LookupSeen | pintos/src/filesys/directory.c:91-112 | a scan cut short finds the name exactly when its slot is seen |
| FileSystem.FreeSlotSeen | pintos/src/filesys/directory.c:159-169 | a scan cut short finds the first free slot, or stops where it is cut |
| FileOps.WriteTouchesOneFile | pintos/src/filesys/inode.c:257-318 | a write to one live file changes no byte of another's contents and not its inode's sector |
| KernelFiles.Files.FreeMapAllocate | pintos/src/filesys/free-map.c:27-41 | a run of free sectors marked, and unmarked again when the map cannot be written |
| KernelFiles.Files.FreeMapRelease | pintos/src/filesys/free-map.c:44-50 | sectors in use are free again; the assertion holds |
| KernelFiles.Files.LookupName | pintos/src/filesys/directory.c:91-112 | the first slot in use with the name, among those that could be read |
| KernelFiles.Files.DirAdd | pintos/src/filesys/directory.c:141-179 | a valid name not seen takes the first slot seen to be free, or the one where the scan was cut short; anything else fails and changes nothing |
| KernelFiles.Files.OpenInodeAt | pintos/src/filesys/inode.c:111-151 | the list of open inodes never has a sector twice: an open inode is counted up, another is added |
| KernelFiles.Files.CloseInodeAt | pintos/src/filesys/inode.c:163-186 | the last opener takes it off the list and, if removed, releases its sectors |
| KernelFiles.Files.CreateFile | pintos/src/filesys/filesys.c:45-59 | the call is the specified one, the root directory opened and closed around it leaving no trace |
| KernelFiles.Files.OpenFile | pintos/src/filesys/filesys.c:66-77 | likewise; `OpenIs` says which file is opened and when |
| KernelFiles.Files.RemoveFile | pintos/src/filesys/filesys.c:83-91 | likewise |
| DirectoryFile.NamedDecodes | pintos/src/filesys/directory.c:16-22 | an entry written by dir_add decodes to the name, the sector and in use, whatever bytes it replaced |
| DirectoryFile.SlotWritten | pintos/src/filesys/directory.c:171-175 | writing one 20-byte entry changes that slot of the directory and no other |
| DirectoryFile.EntryMoved | pintos/src/filesys/directory.c:101-102 | an entry is read or written whole exactly when it lies in the directory and the bounce buffer can be had |
| DirectoryFile.Directory.LookupEntry | pintos/src/filesys/directory.c:91-112 | scanning the bytes finds the first slot in use with the name, among those that could be read |
| DirectoryFile.Directory.AddEntry | pintos/src/filesys/directory.c:141-179 | on the bytes of the directory, dir_add does what it does to slots, for any number of slots its scans could read |
| DirectoryFile.Directory.EraseEntry | pintos/src/filesys/directory.c:204-207 | the entry is marked not in use and no other slot changes |
| PageTable.PdeIs | pintos/src/threads/pte.h:70-81 | a directory entry is present, points to its table, and decodes to it |
| PageTable.PteIs | pintos/src/threads/pte.h:83-104 | a user page entry is present, carries the write flag, and decodes to its frame |
| PageTable.PteWritten | pintos/src/userprog/pagedir.c:98-119 | writing a page's entry through the two levels changes the mapping of that page and of no other |
| PageTable.TableAdded | pintos/src/userprog/pagedir.c:66-85 | a new page table changes no mapping |
| Segments.ValidateIff | pintos/src/userprog/process.c:325-366 | validate_segment's wrapping tests accept exactly the segments that lie above page zero and below PHYS_BASE, are not empty, have matching page offsets, a file part no longer than the whole, and an offset that is not past the end of the file |
| Segments.SegmentIs | pintos/src/userprog/process.c:271-297 | for an accepted header load_segment's assertions hold, and its arguments describe the page-rounded segment inside user space, writable exactly when the header's flag says so |
| Loader.Process.constructor | pintos/src/userprog/pagedir.c:16-23 | a new page directory maps no user address |
| Loader.Process.GetPage | pintos/src/userprog/pagedir.c:125-137 | the physical address a user address is mapped to, if it is |
| Loader.Process.SetPage | pintos/src/userprog/pagedir.c:98-119 | one page more is mapped, to its frame's bytes, exactly when its table is there or a page for one can be had; on failure nothing changes |
| Loader.Process.ClearPage | pintos/src/userprog/pagedir.c:143-157 | one page less is mapped; nothing else changes |
| Loader.Process.InstallPage | pintos/src/userprog/process.c:456-465 | maps a page exactly where nothing was mapped and its table is there or can be had |
| Loader.Process.LoadSegment | pintos/src/userprog/process.c:382-425 | the pages loaded so far hold the file's bytes and then zeros where nothing was mapped, nothing else changes, and on success that is the whole segment; it succeeds exactly when the pools have a page for each page and each missing table, nothing was mapped there and the file can be read |
| Loader.Process.LoadHeader | pintos/src/userprog/process.c:271-297 | for every header, no assertion fires and no existing mapping changes; on success each address of the page-rounded segment sees the file's bytes and then zeros; it succeeds exactly when the header is valid and those pages, tables and bytes can be had |
| Octal.FormatOctal | pintos/src/lib/stdio.c:469-547 | the zero-padded octal conversion writes the digits of the value |
| Octal.ParseOctalField | pintos/src/lib/ustar.c:129-162 | the loop is the recursive parse, overflow and terminator included |
| Octal.ParseDigits | pintos/src/lib/ustar.c:129-162 | printed octal digits are parsed back to the value |
| Octal.ParseIs | pintos/src/lib/ustar.c:119-166 | the fields accepted are exactly one or more octal digits ended by a space or a null byte whose value fits an unsigned long, and that is the value |
| Ustar.StripPrefixes | pintos/src/lib/ustar.c:65-73 | the loop is the recursive strip |
| Ustar.StripDrops | pintos/src/lib/ustar.c:56-73 | stripping drops a run of "/", "./" and "../" and nothing else; an empty rest or ".." becomes "." |
| Ustar.StripIdempotent | pintos/src/lib/ustar.c:65-73 | stripping twice is stripping once |
| Ustar.CalculateChksum | pintos/src/lib/ustar.c:36-54 | the sum of the header's bytes, its own field counted as spaces |
| Ustar.ChecksumBlank | pintos/src/lib/ustar.c:36-54 | the checksum does not depend on its own field |
| Ustar.ChecksumIs | pintos/src/lib/ustar.c:36-54 | the checksum is the sum of the bytes outside its field, plus 256 |
| Ustar.CorruptionDetected | pintos/src/lib/ustar.c:181-227 | a header with any one byte changed outside the checksum field is rejected |
| Ustar.MakeHeader | pintos/src/lib/ustar.c:82-118 | the buffer becomes the specified header, or is left alone when the stripped name is longer than 99 bytes |
| Ustar.Parse | pintos/src/lib/ustar.c:181-227 | the parse, error by error |
| Ustar.RoundTrip | pintos/src/lib/ustar.c:82-227 | for every name whose stripped form has at most 99 bytes, either type and every size, parsing the made header gives the stripped name, the type and the size: zero for a directory, and for a regular file exactly when the size is not negative |
| Ustar.MadeRest | pintos/src/lib/ustar.c:98-117 | the fields the parser does not look at: mode 0644 or 0755 by type, owners, time, and zeros |
| Ustar.ParsedNameSafe | pintos/src/lib/ustar.c:223-226 | no parsed name is empty, ".." or starts with "/", "./" or "../" |

## Left out

- Device drivers, boot code, interrupt stubs, the context switch's assembly and the descriptor tables: a context switch is a change of the running thread, a block device an array of sectors.
- The interrupt queue (`intq.c`), random numbers, string functions and the C library beyond the conversions ustar uses: easier members.
- Printing, and the wait-time statistics that `thread_exit` prints.
- Priority donation and priority-ordered semaphores, which this code does not implement.
- System calls, exceptions, process start and wait, the stack page and argument passing.
- pagedir_destroy, the accessed and dirty bits and the flush of the translation buffer: the tables are the mapping.
- realloc, and what memory blocks contain: malloc is modelled by addresses and sizes only.
- Partial locking in `palloc_free_multiple`: calls to the page allocator and to malloc are taken one at a time.
- Overlapping file system calls: the file system does no locking of its own, so its calls are taken one at a time.
- The bytes of on-disk inodes and the free map's copy on disk: inodes and the map are values. Names that fill a directory entry without a null byte, which nothing writes.
- Offsets below zero in `inode_read_at` and `inode_write_at`.
- Octal.FormatOctal: only values that fit the width, which is how ustar uses the conversion.
- KernelFiles.Files.CreateFile: file sizes are unbounded integers; rounding one up to sectors near 2^31 overflows an `int` in C.
- KernelThreads.Kernel.ThreadExit: a dying thread's page is not freed; it stays known as dying.
- HashTable.Table.constructor: hash_init's failure for want of memory, after which there is no table.
