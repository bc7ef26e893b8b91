# jimirOS kernel: models and proofs

A Dafny model of the stateful core of the jimirOS i386 kernel, with proofs about whole runs of it. Each
component is modelled twice and the two are tied together: as functions on values that say what one
operation does to the whole state, and as the imperative code itself (classes over arrays, in-place loops)
proved to compute exactly those functions. The theorems are about the functions, so they hold of the code.

| component | source | values and theorems | code |
|---|---|---|---|
| kernel threads | `kernel/sched/sched.c` | `KernelScheduler`, `KernelSchedulerRuns` | `KernelSchedulerCode` |
| user processes | `kernel/proc/process.c`, `kernel/proc/proc.c`, `kernel/sched/htas.c`, the fork case of `kernel/proc/syscall.c` | `Processes`, `ProcessRuns`, `ProcessFairness`, `ProcessBooks` | `ProcessCode` |
| scheduler simulation | `kernel/sched/htas_benchmark.c` | `Simulation`, `SimulationTicks`, `SimulationAccounting`, `SimulationLatency`, `SimulationPlans`, `SimulationDynamic` | `SimulationCode` |
| text console | `kernel/arch/i386/tty.c` | `TerminalModel`, `TerminalPaper` | `TerminalCode` |
| physical frames | `kernel/mm/pmm.c` | `Frames`, `FrameBudget` | `FramesCode` |
| page tables | `kernel/mm/vmm.c` | `Paging`, `PagingRuns`, `TableReach` | `PagingCode` |
| kernel heap | `kernel/mm/heap.c` | `HeapCode` | `HeapCode` |
| address-space teardown | `kernel/proc/process.c`, `kernel/arch/i386/boot.S`, `kernel/arch/i386/linker.ld` | `Teardown`, `SameSpace`, `ProgramMemory`, `BootDirectory` | `TeardownCode` |
| program loading | `kernel/fs/elf.c` | `UserMemory`, `ElfImage`, `ElfFormat` | `ElfCode` |
| ext2 and its start | `kernel/fs/ext2.c`, `kernel/fs/fs.c` | `Ext2`, `Ext2Files`, `Ext2Sessions`, `Ext2Root`, `Ext2Mount`, `Ext2Format` | `Ext2Code`, `Ext2RootCode`, `Ext2MountCode` |
| numbers | `kernel/core/stdio.c`, `kernel/core/shell.c` | `Numbers` | `Numbers` |

`Basics` holds fixed-width numbers and little-endian fields. `dafny verify dfyconfig.toml` checks everything.

## Main results

- Every READY kernel thread of slots 1..15 runs within 32*p + 57 ticks, in every run of ticks, yields,
  thread creations and priority changes of other waiting threads. Slot 0 is excluded, with a proof that it
  never runs again; so are priority changes of the running thread, with a proof that they defeat any bound.
  Among peers a thread of priority 0 to 3 keeps the processor for exactly 4, 6, 10, 18 ticks.
- A timer interrupt is invisible to every user process exactly when the interrupted one was running, the
  policy prefers a READY one to it, or its saved registers are the frame's. Round-robin dispatches a READY
  process within as many interrupts as its cyclic distance. Both hold on the states that launches, forks,
  interrupts, exits and destructions reach from the start, and reachable witnesses are given.
- In the scheduler simulation LOW_LAT is never late under HTAS and exactly one tick late at worst under
  round-robin, for every duration from two ticks on. All statistics obey their accounting identities and are
  what the plans of the run say, tick by tick; HTAS's context switches and penalties are known in closed form.
- The console shows a window of an unbounded log after every session.
- Page-table operations refine a map from slots to frames, with directory aliases; no frame is handed out
  twice over any run. A page has exactly the rights asked for, both levels together, and no other loses any.
- A program image read through the page walk is the one its ELF file describes, its entry included; what a
  writer of ELF files puts down, the loader reads back.
- The code uses physical addresses of tables as pointers. Over every run that finds the tables if and only if
  no operation rewrites an entry through which the directory, a table or a frame that can become one is
  reached; each operation has its exact condition.
- Loading and `kmalloc` succeed exactly when memory suffices: a count of clear frames against pages and
  missing tables, and of clear low frames against the last table. A failed load leaves exactly the longest
  prefix of its pages that fits.
- Loading a program and tearing it down returns the allocator to where it was exactly when no page was loaded
  twice and no table of a managed frame was already there in a slot that the load or the directory opens to
  the user. On the boot directory that fails, because the stack lies where the supervisor has a table. The
  directory survives exactly when the kernel half shares no table given away, and on a surviving directory the
  same pages, each loaded once, return in full the second time.
- ext2 files are flat byte sequences under reads, writes and both backends, also piece by piece over an open
  file; the cache is coherent; the listing agrees with lookup; the copied disk mounts as the module did; the
  on-disk structures read back as written.

## Where the code and its promises differ

The model follows the code; each of these is stated by a lemma.

- `process_schedule` sets a current process RUNNING again even when it has exited, if the policy prefers nobody
  to it (`kernel/sched/htas.c:344-346` returns the current one): `ProcessRuns.ExitedProcessRevives`, with a
  run that gets there in `ProcessFairness.ExitWitness`. Reaching it takes a caller of `process_exit`, which the
  tree does not have: the exit system call (`kernel/proc/syscall.c:39-57`) returns to the kernel instead.
- That return destroys the process that was launched, whoever called it. A forked child that exits is left
  RUNNING, and the next launch makes two: `ProcessFairness.LaunchKeepsInv` and `LeftoverChild`.
- `free_user_address_space` gives a supervisor table away once a user page has been mapped in its slot, and
  the first program's stack does that to the boot directory: `BootDirectory.BootTableLost`. A program with a
  page in slot 0 would take the table that the kernel half uses: `BootDirectory.BootBreaks` and
  `BootBreaksAtZero`.
- `vmm.c` finds a table only while its frame is translated to itself. The first page of the kernel heap and
  that of a user stack end that for a frame that can still become a table, since both lie behind boot tables:
  `BootDirectory.BootHides` and `HeapAndStackHide`.
- `fs_init` prints that it continues from the module image when the copy to disk failed. On a disk of at
  least 2048 bytes the failed disk mount has already set the block size to 0, so nothing is mounted:
  `Ext2MountCode.StartsMounted`, with an input in `UnmountedWitness`.
- `reserve_region` rounds up in 32 bits and reserves nothing for a region that ends above 2^32 - 4096:
  `Frames.ReservesExactly`.
- `terminal_scroll_line` increments the display offset, so exactly the writes that scroll the screen leave the
  view one line above the bottom: `TerminalPaper.FeedLeavesViewBack`.
- Values from 2^31 up printed with `%u` carry a minus sign, which `parse_u32` refuses:
  `Numbers.DecimalRoundTrip`.
- The check in the active branch of `free_user_address_space` whether user mappings remain never finds any,
  so the table is always released, supervisor pages included: `TeardownCode.SweptClean`; what that spares is
  stated by `Teardown.StaysWellFormed`.
- The load inference of the DYNAMIC policy never takes effect: `SimulationDynamic.InferenceNeverFires`.
- `kmalloc` returns a pointer and moves its end even when no frame was left to map, and it maps nothing for a
  need of 2^31 bytes or more; the contract of `HeapCode.Heap.Kmalloc` says of each block exactly when it is
  backed, and `HeapCode.BackedExactly` what that means for the translation.
- The header comment of `kernel/fs/ext2.c` calls the driver read-only; it writes, and the writes are modelled.

## Model

| member | source | states |
|---|---|---|
| `KernelScheduler.Scan` | kernel/sched/sched.c:168-184 | the scan yields the READY slot of slots 1..n-1 that comes before every other one (priority, then longest wait, then lowest slot), and -1 exactly when none is READY |
| `KernelScheduler.SelectNext` | kernel/sched/sched.c:168-184 | the same over the whole table |
| `KernelScheduler.SelectionUnique` | kernel/sched/sched.c:168-184 | that description has at most one solution |
| `KernelScheduler.FirstUnused` | kernel/sched/sched.c:69-70 | the lowest unused slot, or -1 exactly when every slot is taken |
| `KernelSchedulerCode.Scheduler.SchedInit` | kernel/sched/sched.c:58-66 | afterwards only slot 0 is in use, RUNNING at batch priority with a full slice |
| `KernelSchedulerCode.Scheduler.RefillSlice` | kernel/sched/sched.c:153-156 | the slice becomes 4, 6, 10 or 18 by the priority; an index outside the table changes nothing |
| `KernelSchedulerCode.Scheduler.ApplyAging` | kernel/sched/sched.c:158-166 | the in-place loop computes the aged table |
| `KernelSchedulerCode.Scheduler.FindNext` | kernel/sched/sched.c:168-184 | the scan loop returns the selection |
| `KernelSchedulerCode.Scheduler.SchedYield` | kernel/sched/sched.c:107-120 | the whole new table and current index after a yield |
| `KernelSchedulerCode.Scheduler.SchedTick` | kernel/sched/sched.c:122-140 | the whole new state after a timer tick, including the preemption decision |
| `KernelSchedulerCode.Scheduler.KthreadCreate` | kernel/sched/sched.c:68-84 | a new thread appears READY in the lowest free slot, or nothing changes and -1 is returned |
| `KernelSchedulerCode.Scheduler.SchedSetPriority` | kernel/sched/sched.c:86-94 | which arguments are accepted; the thread then has that priority, no wait and a slice of 4, 6, 10 or 18, and no other changes |
| `KernelSchedulerRuns.YieldKeepsInv` | kernel/sched/sched.c:107-120 | a yield keeps: one RUNNING thread which is current, slice within its quantum, all waits within their bounds |
| `KernelSchedulerRuns.AgingIdle` | kernel/sched/sched.c:158-166 | while every READY thread above priority 0 has waited less than 32 ticks, aging changes nothing, so only ticks age |
| `KernelSchedulerRuns.ChargedThread` | kernel/sched/sched.c:124-130 | in a tick a READY thread waits one tick more, or has reached 32 and moves up one level with its wait reset |
| `KernelSchedulerRuns.TickKeepsInv` | kernel/sched/sched.c:122-140 | a tick keeps the same invariant |
| `KernelSchedulerRuns.TickCases` | kernel/sched/sched.c:129-139 | the second round of aging and the second selection inside the yield of a tick change nothing: a tick dispatches the thread first selected, refills, or just charges |
| `KernelSchedulerRuns.CreateKeepsInv` | kernel/sched/sched.c:68-84 | creating a thread keeps the same invariant |
| `KernelSchedulerRuns.ReprioritiseKeepsInv` | kernel/sched/sched.c:86-94 | so does a change of the priority of a waiting thread |
| `KernelSchedulerRuns.ThreadsStart` | kernel/sched/sched.c:58-84 | in numbers: slot 0 starts RUNNING at priority 3 with a slice of 18; a new thread gets the lowest free slot, READY at priority 1 with no wait |
| `KernelSchedulerRuns.SelectsFirst` | kernel/sched/sched.c:168-184 | the selection spelled out over slots 1..15, and empty exactly when none is READY |
| `KernelSchedulerRuns.DispatchShrinksAhead` | kernel/sched/sched.c:107-120 | every dispatch removes at least one thread from those ahead of a waiting real-time thread, and adds none |
| `KernelSchedulerRuns.AheadCard` | kernel/sched/sched.c:168-184 | at most 14 threads can be ahead of a waiting one, 13 while a numbered thread runs |
| `KernelSchedulerRuns.RemainingBound` | kernel/sched/sched.c:10 | what lies ahead of a thread amounts to at most 57 ticks |
| `KernelSchedulerRuns.SliceIsExact` | kernel/sched/sched.c:122-156 | exact slices: a thread of priority p, dispatched while all READY threads have priority p too and none above 0 ages meanwhile, keeps the processor for fewer than 4, 6, 10, 18 ticks (p = 0..3) and loses it at exactly that tick |
| `KernelSchedulerRuns.ReachableSafe` | kernel/sched/sched.c:58-140 | in every state reachable by ticks, yields, creations and priority changes of waiting threads: exactly one RUNNING thread, equal to current, slice between 1 and its quantum, waits above priority 0 below 32, all waits below 57 so the 16-bit counter never wraps |
| `KernelSchedulerRuns.StepPatience` | kernel/sched/sched.c:107-166 | a READY thread is dispatched, or loses exactly one unit of its remaining patience per tick and none otherwise |
| `KernelSchedulerRuns.PatienceOverRun` | kernel/sched/sched.c:107-166 | over a run in which a thread is never dispatched the ticks are fewer than its patience |
| `KernelSchedulerRuns.BoundedStarvation` | kernel/sched/sched.c:122-184 | in every run a READY thread of slots 1..15 with priority p is RUNNING within 32*p + 57 ticks, whatever other waiting threads are created or given other priorities |
| `KernelSchedulerRuns.BootstrapNeverResumes` | kernel/sched/sched.c:172 | slot 0 is outside that bound: once preempted it is READY for ever and never dispatched |
| `KernelSchedulerRuns.FavouriteKeepsProcessor` | kernel/sched/sched.c:86-94 | with priority changes of the running thread among the events no bound holds: setting it to real-time before each tick keeps it running for any number of ticks |
| `Processes.FindFrom` | kernel/proc/process.c:119-126 | the first slot in use under the pid; -1 only when no slot is |
| `ProcessCode.ProcessManager.constructor` | kernel/proc/process.c:93-98 | the empty table: no current process, first pid 1, round-robin |
| `ProcessCode.ProcessManager.ProcessFind` | kernel/proc/process.c:119-126 | the search loop returns the slot in use under the pid |
| `ProcessCode.ProcessManager.ProcessCurrent` | kernel/proc/process.c:128-132 | the slot of the current pid, none when it is negative |
| `ProcessCode.ProcessManager.ProcessCreate` | kernel/proc/process.c:100-117 | the whole new table after a creation, with the pid counter advanced only on success |
| `ProcessCode.ProcessManager.BaselineSelectNext` | kernel/sched/htas.c:242-286 | the chosen slot and the new cursor |
| `ProcessCode.ProcessManager.HtasSelectNext` | kernel/sched/htas.c:288-327 | the scan loop computes the highest-priority choice |
| `ProcessCode.ProcessManager.AgeOthers` | kernel/sched/htas.c:350-368 | every READY process with a profile except the chosen one ages |
| `ProcessCode.ProcessManager.PickNextProcess` | kernel/sched/htas.c:329-373 | selection, statistics and aging of one pick |
| `ProcessCode.ProcessManager.RecordSwitchTo` | kernel/sched/htas.c:375-409 | counters, the aging reset and the next CPU |
| `ProcessCode.ProcessManager.ProcessSchedule` | kernel/proc/process.c:307-372 | the whole new kernel state and the frame returned into |
| `ProcessCode.ProcessManager.ProcessFork` | kernel/proc/process.c:168-210 | the whole new state after a fork, with every failure path |
| `ProcessCode.ProcessManager.ForkCall` | kernel/proc/syscall.c:124-150 | register capture, fork, and the result in eax |
| `ProcessCode.ProcessManager.ProcessExit` | kernel/proc/process.c:212-234 | the zombie and the woken parent |
| `ProcessCode.ProcessManager.LaunchUser` | kernel/proc/proc.c:52-75 | the whole new state when a program is launched: a new process RUNNING and current, or -1 |
| `ProcessCode.ProcessManager.ProcessDestroy` | kernel/proc/process.c:153-166 | the slot found under the pid becomes unused, every other one stays |
| `ProcessRuns.ScanFirst` | kernel/sched/htas.c:267-277 | the scan returns the first runnable slot in cyclic order other than the excluded one, and -1 exactly when there is none |
| `ProcessRuns.PickKeeps` | kernel/sched/htas.c:329-373 | a selection changes no state, pid or saved register, and its result is runnable or the current process |
| `ProcessRuns.HtasPicksBest` | kernel/sched/htas.c:288-327 | the HTAS choice has the highest priority among the runnable processes allowed on the CPU, lowest slot among equals, and is empty exactly when there is none |
| `ProcessRuns.ScheduleKeepsInv` | kernel/proc/process.c:307-372 | pids stay unique and issued, and only the current process can be RUNNING |
| `ProcessRuns.SwitchIsTransparent` | kernel/proc/process.c:307-372 | if the interrupted process was RUNNING or another is picked, every process keeps its thirteen live registers, exactly the picked one is RUNNING and current, in its own address space, and the rest of the interrupt frame stays |
| `ProcessRuns.PickedOrSame` | kernel/proc/process.c:340-343 | the same equivalence in terms of the scheduler's choice |
| `ProcessRuns.PickedInstead` | kernel/sched/htas.c:242-327 | another process is picked instead of one that is not running if and only if the table holds a READY one that the policy prefers: any under round-robin, an allowed one that outranks it under HTAS |
| `ProcessRuns.TransparencyCondition` | kernel/proc/process.c:307-372 | for every frame, the registers of all processes are kept if and only if the current process was RUNNING, or the policy prefers a READY process to it, or its saved registers equal the frame's |
| `ProcessRuns.ExitedProcessRevives` | kernel/sched/htas.c:344-346 | an exited process is set RUNNING again if and only if the policy prefers no READY process to it |
| `ProcessRuns.CreateKeepsInv` | kernel/proc/process.c:100-117 | creation keeps the invariant |
| `ProcessRuns.CreatedIsFound` | kernel/proc/process.c:100-126 | a process just created is found again under its pid, in the slot that was free |
| `ProcessRuns.ForkSplits` | kernel/proc/syscall.c:124-150 | the child has a new pid and the parent's registers with eax = 0; the parent sees the child's pid or -1; nobody else changes |
| `ProcessFairness.StepKeepsInv` | kernel/proc/process.c:100-372 | interrupts, creations, forks, exits, destructions, and launches while nobody is RUNNING all keep the invariant |
| `ProcessFairness.LaunchStarts` | kernel/proc/proc.c:52-75 | a launched program gets the first free slot, a new pid, its entry point and stack, and is current; all other slots stay |
| `ProcessFairness.LaunchKeepsInv` | kernel/proc/proc.c:73-75 | a launch keeps the invariant if and only if no slot is free or no process is RUNNING |
| `ProcessFairness.DestroyKeeps` | kernel/proc/process.c:153-166 | destroying a process keeps the invariant and touches no other process |
| `ProcessFairness.ReachableSound` | kernel/proc/proc.c:43-93 | every state reached from the start by such events is sound |
| `ProcessFairness.ForkWaits` | kernel/proc/syscall.c:124-150 | a reachable state with a READY process beside the running one: launch, then fork |
| `ProcessFairness.ExitWitness` | kernel/proc/process.c:212-234 | a reachable state whose exited process the next interrupt sets RUNNING: launch, then exit |
| `ProcessFairness.LeftoverChild` | kernel/proc/syscall.c:39-57 | a reachable state in which a launch makes two RUNNING processes: the program forks, its child is switched to, and the child's exit destroys the parent |
| `ProcessFairness.StepDistance` | kernel/sched/htas.c:265-277 | unless it or the current process is destroyed or a program launched, a waiting process is dispatched, or its cyclic distance from the current one shrinks with every interrupt and grows with nothing else |
| `ProcessFairness.DistanceOverRun` | kernel/sched/htas.c:242-286 | over a run without its dispatch the interrupts are fewer than the distance |
| `ProcessFairness.RoundRobinIsFair` | kernel/sched/htas.c:242-286 | a READY process at cyclic distance d (at most 31) is RUNNING at some moment within d interrupts, whatever is created, forked, exits or is destroyed meanwhile |
| `ProcessBooks.CreateGives` | kernel/proc/process.c:100-117 | a new process takes the lowest free slot and the next pid, READY and otherwise blank; with no free slot nothing changes |
| `ProcessBooks.ForkGives` | kernel/proc/process.c:168-210 | the whole record of a forked child: the registers with 0 in eax, the directory, the break, the segments; and the captured parent |
| `ProcessBooks.ExitGives` | kernel/proc/process.c:212-234 | an exit leaves a zombie with the code, and the parent READY exactly if it was blocked; nothing else changes |
| `ProcessBooks.CursorFollowsChoice` | kernel/sched/htas.c:275-285 | round-robin goes on behind the slot that it chose last |
| `ProcessBooks.HtasChooses` | kernel/sched/htas.c:288-327 | the HTAS choice in numbers: affinity as bits 1, 2, 4, 8 of the mask, rank as the boosts and 5 on the own node |
| `ProcessBooks.PassedOverAges` | kernel/sched/htas.c:350-368 | over any run of interrupts that pass a READY process over, its wait counts them, and from the hundred and first on its rank is raised by 5 |
| `ProcessBooks.TimerBooks` | kernel/sched/htas.c:329-409 | what one interrupt adds to the statistics: a tick, and for a switch 10 microseconds and 100 or 40 units by the kind of core, and the next CPU |
| `ProcessBooks.SwitchResets` | kernel/sched/htas.c:382-395 | a switch counts for the intent of the process switched to and no other, and ends its aging |
| `ProcessBooks.QuietBooks` | kernel/proc/process.c:100-234 | events other than interrupts leave the statistics alone |
| `ProcessBooks.RunBooks` | kernel/sched/htas.c:375-409 | over every run the CPU, the times and the power are determined by the number of switches, which is at most the number of interrupts |
| `ProcessBooks.InitialBooks` | kernel/sched/htas.c:17-23 | and at the start the figures fit |
| `Simulation.BestIsBest` | kernel/sched/htas_benchmark.c:187-232 | the scoring scan returns the highest score above -1000 among ready, unselected simulated processes, lowest index among equals |
| `Simulation.RoundRobinIsNext` | kernel/sched/htas_benchmark.c:172-184 | the round-robin scan returns the first ready, unselected one in cyclic order |
| `SimulationTicks.AssignMarks` | kernel/sched/htas_benchmark.c:414-425 | the selection loop marks exactly the members of the plan, each ready, none twice |
| `SimulationTicks.TickTask` | kernel/sched/htas_benchmark.c:409-433 | one tick acts on each simulated process as its own preparation, at most one processor tick, and its own closing step |
| `SimulationTicks.PlanIsExclusive` | kernel/sched/htas_benchmark.c:414-425 | under every policy nothing runs on two CPUs in one tick, and only released work runs |
| `SimulationAccounting.TickBalances` | kernel/sched/htas_benchmark.c:409-433 | every tick keeps the books balanced |
| `SimulationAccounting.Accounting` | kernel/sched/htas_benchmark.c:292-442 | the balance holds for every duration and policy |
| `SimulationAccounting.AccountingIdentities` | kernel/sched/htas_benchmark.c:292-442 | P-core plus E-core time equals the sum of runtimes and of per-intent runtimes; switches and NUMA penalties equal their sums; power is 100 per tick plus 90 per P-core and 50 per E-core millisecond |
| `SimulationPlans.StatsOfPlans` | kernel/sched/htas_benchmark.c:324-348 | for every policy and duration, read off the plans alone: context switches are the dispatches of another task than the last one on that CPU, idle ticks apart; penalties are the dispatches away from the own node; times are those on either kind of core |
| `SimulationPlans.IntentsOfPlans` | kernel/sched/htas_benchmark.c:324-341 | the same per intent |
| `SimulationPlans.TaskOfPlans` | kernel/sched/htas_benchmark.c:310-348 | the same per simulated process; and its node has been learnt exactly if it has run there |
| `SimulationPlans.TickSamples` | kernel/sched/htas_benchmark.c:350-357 | a tick adds a latency sample exactly when LOW_LAT is dispatched with both its ticks of work ahead, and its delay |
| `SimulationPlans.SamplesOfPlans` | kernel/sched/htas_benchmark.c:350-364 | the samples are every other dispatch of LOW_LAT, and their sum is at most their number times the worst |
| `SimulationPlans.HtasPenalties` | kernel/sched/htas_benchmark.c:187-232 | the exact penalties under HTAS for every duration: one on each tick without LOW_LAT |
| `SimulationPlans.HtasSwitches` | kernel/sched/htas_benchmark.c:324-329 | the exact number of context switches under HTAS for every duration, in closed form (4, 6, 8 after one, two, three ticks) |
| `SimulationPlans.WaitingRaises` | kernel/sched/htas_benchmark.c:370-401 | a ready simulated process that is not dispatched waits a tick more, past 100 its score is raised by 5, and a dispatch ends both |
| `SimulationLatency.HtasPlanWins` | kernel/sched/htas_benchmark.c:187-232 | the periodic plan wins the competition of scores on every CPU at every tick |
| `SimulationLatency.HtasAssigns` | kernel/sched/htas_benchmark.c:414-425 | under HTAS the assignment of every tick is the periodic plan |
| `SimulationLatency.HtasReachable` | kernel/sched/htas_benchmark.c:403-442 | the exact schedule of all eight simulated processes (last dispatch, waiting, ages) holds after every duration |
| `SimulationLatency.HtasNeverLate` | kernel/sched/htas_benchmark.c:350-357 | for every duration LOW_LAT runs on CPU 0 whenever it has work, and its recorded worst jitter is 0 |
| `SimulationLatency.BaselineDispatches` | kernel/sched/htas_benchmark.c:172-184 | under round-robin a tick without background work dispatches everything that is ready |
| `SimulationLatency.BaselineReachable` | kernel/sched/htas_benchmark.c:403-442 | LOW_LAT has missed at most one tick, after every duration |
| `SimulationLatency.BaselineOneTickLate` | kernel/sched/htas_benchmark.c:350-357 | the worst jitter under round-robin is exactly 1000 microseconds for every duration from 2 ticks on, and 0 before; on ticks without background work LOW_LAT runs as soon as it has work |
| `SimulationDynamic.InferenceNeverFires` | kernel/sched/htas_benchmark.c:251-257 | the load counter is 0 at every selection, so the DYNAMIC score never takes the performance branch; the score in numbers |
| `SimulationDynamic.HtasScores` | kernel/sched/htas_benchmark.c:202-222 | the HTAS score of every simulated process on every CPU at every tick, in numbers |
| `SimulationCode.SimContext.constructor` | kernel/sched/htas_benchmark.c:80-138 | the initial state of the eight simulated processes |
| `SimulationCode.SimContext.PrepareTick` | kernel/sched/htas_benchmark.c:140-169 | the in-place loop prepares every entry |
| `SimulationCode.SimContext.SelectRoundRobin` | kernel/sched/htas_benchmark.c:172-184 | choice, cursor and mark |
| `SimulationCode.SimContext.SelectByScore` | kernel/sched/htas_benchmark.c:187-289 | choice and mark of the HTAS and DYNAMIC scans |
| `SimulationCode.SimContext.UpdateStats` | kernel/sched/htas_benchmark.c:292-368 | the whole effect of one CPU's tick on statistics and entry |
| `SimulationCode.SimContext.FinalizeTick` | kernel/sched/htas_benchmark.c:370-401 | the in-place loop closes the tick for every entry |
| `SimulationCode.SimContext.AssignCpus` | kernel/sched/htas_benchmark.c:414-425 | the plan for the four CPUs |
| `SimulationCode.SimContext.RunTick` | kernel/sched/htas_benchmark.c:409-433 | one iteration of the main loop |
| `SimulationCode.SimulateWorkload` | kernel/sched/htas_benchmark.c:403-442 | the reported figures of a whole run: switches and penalties as counted over the plans, and under HTAS exactly; jitter 0 under HTAS, at most 1000 under round-robin; the average as the whole quotient, at most the worst; the power formula |
| `SimulationCode.AverageIs` | kernel/sched/htas_benchmark.c:436-441 | the average is the whole part of the quotient, 0 without samples, and at most a bound of all samples |
| `TerminalCode.Console.constructor` | kernel/arch/i386/tty.c:45-60 | a blank screen, shown |
| `TerminalCode.Console.PushLine` | kernel/arch/i386/tty.c:81-87 | the ring holds the last 256 lines of the log after one more is pushed |
| `TerminalCode.Console.BaseIndex` | kernel/arch/i386/tty.c:89-94 | the ring slot of the oldest retained line |
| `TerminalCode.Console.Render` | kernel/arch/i386/tty.c:96-123 | every display row shows the window selected by the offset |
| `TerminalCode.Console.PutEntryAt` | kernel/arch/i386/tty.c:69-75 | one cell changes; the display keeps up exactly when the view is not scrolled, the cell is out of view, or nothing changed |
| `TerminalCode.Console.ScrollLineUp` | kernel/arch/i386/tty.c:125-143 | the top line joins the log, a blank one appears, the display follows |
| `TerminalCode.Console.WriteChar` | kernel/arch/i386/tty.c:145-185 | the new document, cursor and view for every byte, with the display equal to the window |
| `TerminalCode.Console.Clear` | kernel/arch/i386/tty.c:196-209 | an empty log, a blank screen, the cursor home |
| `TerminalCode.Console.Scroll` | kernel/arch/i386/tty.c:211-229 | the view moves within the retained lines, and the display shows it |
| `TerminalCode.Console.ScrollBottom` | kernel/arch/i386/tty.c:231-234 | the view returns to the bottom |
| `TerminalCode.EntryShown` | kernel/arch/i386/tty.c:69-75 | when one cell is written the display still shows the window if and only if the view is at the bottom, the cell is scrolled out of view, or it already held that entry |
| `TerminalPaper.PutCharTypes` | kernel/arch/i386/tty.c:145-185 | refinement: a character does to log and screen what typing it does to one endless strip of paper |
| `TerminalPaper.ScrollFeeds` | kernel/arch/i386/tty.c:125-143 | scrolling a line loses no line of the strip |
| `TerminalPaper.WindowOnPaper` | kernel/arch/i386/tty.c:96-123 | every display row is the corresponding row of the strip |
| `TerminalPaper.SessionIsPaper` | kernel/arch/i386/tty.c:145-234 | after any session of writes, scrolls, color changes and clears the document is the strip, the offset is within the retained lines, the cursor on the screen, and every display row a row of the strip |
| `TerminalPaper.FeedLeavesViewBack` | kernel/arch/i386/tty.c:136-141 | a write ends at the bottom if and only if it did not scroll the screen; otherwise the view is one line back, showing the screen as it was and not the new last row |
| `TerminalPaper.ViewAtBottom` | kernel/arch/i386/tty.c:145-234 | exactly which operations end with the view at the bottom |
| `TerminalPaper.ScrollMoves` | kernel/arch/i386/tty.c:211-229 | a scroll moves the view by its amount, cut at the bottom and at the retained lines |
| `TerminalPaper.CursorMoves` | kernel/arch/i386/tty.c:145-185 | where each character leaves the cursor, counted in cells, and exactly which ones feed a line |
| `TerminalPaper.CellParts` | kernel/arch/i386/tty.c:65-75 | a written cell holds character and color, no other changes, and a backspace blanks it |
| `TerminalPaper.BlankCells` | kernel/arch/i386/tty.c:125-209 | a cleared console and a fresh line consist of spaces in the color; clearing empties the log and puts cursor and view home |
| `Frames.FirstClear` | kernel/mm/pmm.c:97-99 | the lowest clear frame below the limit, or -1 exactly when there is none |
| `Frames.AllocSound` | kernel/mm/pmm.c:96-114 | an allocation hands out a clear frame below the limit, never frame 0, keeps the count exact, and fails only when all are taken |
| `Frames.FreeSound` | kernel/mm/pmm.c:116-120 | releasing keeps the count exact |
| `Frames.AllocFreeRoundTrip` | kernel/mm/pmm.c:96-120 | freeing the frame just allocated restores the state |
| `Frames.ReservesTouched` | kernel/mm/pmm.c:23-31 | up to 2^32 - 4096 the marked frames are those that the region touches |
| `Frames.ReservesNothing` | kernel/mm/pmm.c:26 | a region ending above 2^32 - 4096 marks nothing, because the rounding wraps |
| `Frames.ReservesExactly` | kernel/mm/pmm.c:23-31 | the marked frames are the touched ones if and only if the region ends at or below 2^32 - 4096 or starts above the managed memory |
| `Frames.MmapReservationsAre` | kernel/mm/pmm.c:59-70 | the map's reservations are the non-available entries, cut to 32 bits |
| `Frames.TotalIs` | kernel/mm/pmm.c:39-58 | the frames managed: the highest end in the memory map, or without one the upper memory and a megabyte, cut at 256 MiB |
| `Frames.ReserveAllMarks` | kernel/mm/pmm.c:59-86 | after a list of reservations a frame is marked exactly when it was before or one of them covers it |
| `Frames.InitExact` | kernel/mm/pmm.c:33-91 | after boot the count is exact, frame 0 is taken, and with regions in range a frame is clear exactly when no reserved, kernel, module or non-available region touches it |
| `FramesCode.SetBit` | kernel/mm/pmm.c:19-21 | setting a bit of the bitmap sets that bit alone |
| `FramesCode.ClearBit` | kernel/mm/pmm.c:20-21 | clearing a bit clears that bit alone |
| `FramesCode.FrameAllocator.Set` | kernel/mm/pmm.c:19 | one frame's bit is set, all others stay |
| `FramesCode.FrameAllocator.Clear` | kernel/mm/pmm.c:20 | one frame's bit is cleared, all others stay |
| `FramesCode.FrameAllocator.ReserveRegion` | kernel/mm/pmm.c:23-31 | the bitmap and the counter after a reservation |
| `FramesCode.FrameAllocator.PmmInit` | kernel/mm/pmm.c:33-91 | the bitmap and the counter after boot |
| `FramesCode.FrameAllocator.PmmAllocFrame` | kernel/mm/pmm.c:96-101 | the lowest clear frame and the new state |
| `FramesCode.FrameAllocator.PmmAllocFrameBelow` | kernel/mm/pmm.c:103-114 | the same below a limit |
| `FramesCode.FrameAllocator.PmmFreeFrame` | kernel/mm/pmm.c:116-120 | the frame's flag is cleared and counted, once |
| `Paging.LowFlags` | kernel/mm/vmm.c:49 | frame and flags of an entry can be read back from the word |
| `Paging.EntryParts` | kernel/mm/vmm.c:29 | a new entry is present, names its frame and has exactly the rights asked for |
| `Paging.WidenedParts` | kernel/mm/vmm.c:32-37 | widening a directory entry keeps its frame and presence and adds exactly the rights asked for |
| `Paging.GetTableKeeps` | kernel/mm/vmm.c:18-39 | finding or creating a table changes no translation and keeps the tables sound |
| `Paging.FreshTableKeeps` | kernel/mm/vmm.c:21-31 | the path that allocates and clears a table changes no translation |
| `Paging.MapFails` | kernel/mm/vmm.c:44-47 | over arbitrary tables a map fails exactly when the entry is absent with no frame below 16 MiB clear, or present and naming frame 0 |
| `Paging.MapTranslates` | kernel/mm/vmm.c:44-53 | after a successful map the page's slot translates to the frame with the rights asked for, and another address changes exactly when it shares table and index, directory aliases included |
| `Paging.MapDirectoryRights` | kernel/mm/vmm.c:18-39 | after a successful map the directory entry is writable, and open to the user, exactly if asked for or so before; all other entries are as they were |
| `Paging.MapRights` | kernel/mm/vmm.c:44-53 | the rights of every address after a map, both levels together |
| `Paging.MapGrants` | kernel/mm/vmm.c:44-53 | the mapped address has exactly the rights asked for, and no address outside its slot loses any |
| `Paging.UnmapTranslates` | kernel/mm/vmm.c:55-65 | unmapping empties exactly that slot |
| `Paging.MapUnmapRoundTrip` | kernel/mm/vmm.c:44-65 | unmapping undoes the mapping of an empty slot, for every address |
| `Paging.ResolveAfterMap` | kernel/mm/vmm.c:67-77 | resolving gives the mapped frame plus the offset, and the old answer outside the slot |
| `PagingCode.Mmu.ClearTable` | kernel/mm/vmm.c:28 | the clearing loop zeroes one frame |
| `PagingCode.Mmu.GetPt` | kernel/mm/vmm.c:18-39 | the table found or created, with the whole new state |
| `PagingCode.Mmu.VmmMap` | kernel/mm/vmm.c:44-53 | the whole new state after a map |
| `PagingCode.Mmu.VmmUnmap` | kernel/mm/vmm.c:55-65 | the whole new state after an unmap |
| `PagingCode.Mmu.VmmResolve` | kernel/mm/vmm.c:67-77 | the resolved address, 0 for unmapped |
| `PagingCode.WidenedIs` | kernel/mm/vmm.c:32-37 | the two conditional or-assignments amount to the widened entry |
| `PagingRuns.AllocHolds` | kernel/mm/pmm.c:96-114 | an allocated frame belonged to nobody and is no table |
| `PagingRuns.FreeHolds` | kernel/mm/pmm.c:116-120 | releasing a held frame affects no other holder and no table |
| `PagingRuns.MapHolds` | kernel/mm/vmm.c:44-53 | mapping takes no frame away from a holder and keeps distinct tables distinct |
| `PagingRuns.MapKeepsHeldFrames` | kernel/mm/vmm.c:18-53 | mapping writes no word of a frame that somebody holds |
| `PagingRuns.UnmapHolds` | kernel/mm/vmm.c:55-65 | unmapping changes no ownership |
| `PagingRuns.RunKeepsAccounts` | kernel/mm/pmm.c:96-120 | over every run of allocations, releases, maps and unmaps the counter equals the clear bits, and held frames, tables and the directory stay marked used |
| `PagingRuns.NeverHandedOutTwice` | kernel/mm/pmm.c:96-114 | at any point of such a run an allocation hands out no frame still held and no table |
| `FrameBudget.AllocCosts` | kernel/mm/pmm.c:96-114 | an allocation succeeds exactly when a frame below its limit is clear, and costs a frame below 16 MiB exactly when one is clear there |
| `FrameBudget.PageCosts` | kernel/mm/vmm.c:18-53 | a fresh page can be mapped exactly when one frame is clear, with its table present, or two below 16 MiB, without; and what that uses up |
| `FrameBudget.ExactlyEnough` | kernel/mm/vmm.c:18-53 | a list of pages can be mapped onto fresh frames if and only if as many frames are clear as there are pages and missing tables, and those below 16 MiB reach to the last table |
| `FrameBudget.TwoForEachPage` | kernel/mm/vmm.c:23 | two clear frames below 16 MiB for each page are always enough |
| `FrameBudget.StopsWhereItFits` | kernel/mm/vmm.c:18-53 | mapping stops behind the longest prefix that memory suffices for, and for want of a frame exactly when its pages and tables have used up every clear one |
| `TableReach.FindsWords` | kernel/mm/vmm.c:14-39 | while every needed frame is translated to itself, a pointer to any of its words hits that word |
| `TableReach.MapReaches` | kernel/mm/vmm.c:44-53 | a map keeps that if and only if it fails or overwrites no entry through which a needed frame is reached, unless with that same frame |
| `TableReach.UnmapReaches` | kernel/mm/vmm.c:55-65 | an unmap keeps it if and only if it empties no such entry |
| `TableReach.TakeReaches` | kernel/mm/pmm.c:96-114 | an allocation keeps it |
| `TableReach.ReleaseReaches` | kernel/mm/pmm.c:116-120 | a release keeps it if and only if the frame lies above 16 MiB or is translated to itself |
| `TableReach.RunReaches` | kernel/mm/vmm.c:14-65 | over every run of allocations, releases, maps and unmaps the kernel finds its tables throughout if and only if every operation meets its condition |
| `SameSpace.SameMapFresh` | kernel/mm/vmm.c:44-53 | mapping does the same to two machines that differ in page contents only |
| `SameSpace.SameAfterWrite` | kernel/fs/elf.c:25 | storing into a page keeps two machines alike up to page contents |
| `SameSpace.SameTeardown` | kernel/proc/process.c:35-91 | tearing down two machines that are alike leaves the same allocator |
| `HeapCode.GrowTranslates` | kernel/mm/heap.c:17-21 | one more page is mapped onto a frame nobody held, and every other page of the heap is translated as before |
| `HeapCode.GrowManyMaps` | kernel/mm/heap.c:17-21 | whatever fails in the mapping loop, the pages that the heap had keep frames of their own, those obtained get fresh ones, and every other page of the heap is translated as before |
| `HeapCode.OutOfFrames` | kernel/mm/heap.c:19 | once frames have run out the rest of the loop would change nothing |
| `HeapCode.GrowsExactly` | kernel/mm/heap.c:11-23 | the mapping loop succeeds if and only if memory suffices for its pages and the tables they miss |
| `HeapCode.ObtainedAll` | kernel/mm/heap.c:17-21 | the loop succeeds if and only if every page was obtained |
| `HeapCode.FramesServePages` | kernel/mm/heap.c:17-21 | where no table is missing, every frame that the loop takes serves one of its pages |
| `HeapCode.BackedExactly` | kernel/mm/heap.c:11-23 | in terms of the translation alone: the new pages end up on pairwise different frames that nobody held if and only if memory suffices, provided pages that translated somewhere before lie behind tables that are all there |
| `HeapCode.BackedIsMapped` | kernel/mm/heap.c:31-41 | where the heap alone is translated, a block is backed if and only if all its pages are mapped |
| `HeapCode.BlockPagesMapped` | kernel/mm/heap.c:31-41 | every page that a block touches resolves to its own frame |
| `HeapCode.Heap.constructor` | kernel/mm/heap.c:25-29 | the heap after its first pages, which of them it got, and exactly when it got all |
| `HeapCode.Heap.MapMore` | kernel/mm/heap.c:11-23 | the new end, the exact memory after the mapping loop, the pages obtained, and exactly when the whole request is backed: its need is below 2^31 and memory suffices |
| `HeapCode.Heap.MapPages` | kernel/mm/heap.c:17-21 | the loop, stopping at the first missing frame |
| `HeapCode.Heap.Kmalloc` | kernel/mm/heap.c:31-41 | blocks are 16-byte aligned and disjoint from all earlier ones; this block is backed if and only if the old pages it touches were, its need is below 2^31 and memory suffices for the new ones; size 0 gives no block and changes nothing |
| `Teardown.ReleasesExactly` | kernel/proc/process.c:35-91 | the frames given back are exactly the user pages, their tables and the directory if not in use; all other marks stay and the count stays exact |
| `Teardown.FreeCountRises` | kernel/proc/process.c:35-91 | the free count rises by the number of distinct released frames that exist and were marked used |
| `Teardown.ErasesExactly` | kernel/proc/process.c:41-86 | the directory loses its user entries below 768 and nothing else, user tables lose their user pages (all entries if not in use), no other word of memory changes |
| `Teardown.NothingReached` | kernel/proc/process.c:41-86 | no user page is reachable afterwards, and a second teardown of the directory in use changes nothing |
| `Teardown.StaysWellFormed` | kernel/proc/process.c:61-72 | the directory in use stays sound if and only if no surviving table, nor the directory, nor frame 0 was reachable as user memory |
| `Teardown.PagesBefore` | kernel/proc/process.c:41-62 | when an entry's turn comes its table is as at the start, or already empty because an earlier entry named it |
| `TeardownCode.SweepActive` | kernel/proc/process.c:49-59 | the unmapping loop over one table |
| `TeardownCode.SweepInactive` | kernel/proc/process.c:74-82 | the clearing loop over one table |
| `TeardownCode.StillUser` | kernel/proc/process.c:62-68 | whether a user page is left in a table |
| `TeardownCode.SweptClean` | kernel/proc/process.c:61-72 | after the sweep none is, so the table is always released |
| `TeardownCode.ReleaseTable` | kernel/proc/process.c:42-85 | both branches for one directory entry |
| `TeardownCode.FreeUserAddressSpace` | kernel/proc/process.c:35-91 | the whole memory and allocator after the teardown |
| `ProgramMemory.FreshPageMaps` | kernel/mm/vmm.c:44-53 | mapping a fresh user page gives that page the new frame and leaves every other user page its own |
| `ProgramMemory.LoadingBooked` | kernel/fs/elf.c:15-19 | while pages are loaded every frame in use was so at the start, or is a page's, a new table, or leaked by loading a page again |
| `ProgramMemory.ReachedBooks` | kernel/proc/process.c:41-62 | the teardown reaches exactly the pages' frames and the tables of the slots open to the user |
| `ProgramMemory.ProgramMemoryReturns` | kernel/proc/process.c:35-91 | loading pages into any directory without user pages and tearing it down gives the allocator back as it was if and only if no page was loaded twice and no managed table that was there lies in a slot open to the user before or opened by the load |
| `ProgramMemory.ElfReturns` | kernel/fs/elf.c:177-221 | the same for what loading an ELF file leaves, over the pages of its segments and stack |
| `ProgramMemory.StackLosesTable` | kernel/fs/elf.c:203 | with a managed table in slot 1, where the stack lies, no program's memory returns in full |
| `ProgramMemory.DirectoryStaysSound` | kernel/proc/process.c:61-72 | the directory stays sound through load and teardown if and only if no entry of the kernel half names a table that is given away |
| `ProgramMemory.SecondLoadReturns` | kernel/proc/process.c:35-91 | loading the same pages again after the teardown returns everything if and only if no page is loaded twice |
| `BootDirectory.BootLoadable` | kernel/arch/i386/boot.S:110-154 | the boot directory is sound and holds no user page; entries 0 to 3 and 768 are present, and the table of slot 0 is also that of slot 768 |
| `BootDirectory.BootTableLost` | kernel/arch/i386/boot.S:132-135 | the failing input: on the boot directory a program of one page at 0x400000 does not return the allocator to where it was |
| `BootDirectory.BootStaysSound` | kernel/arch/i386/boot.S:147-154 | the boot directory survives that program |
| `BootDirectory.BootBreaks` | kernel/arch/i386/boot.S:147-154 | it does not survive any program with a page in slot 0, whose table slot 768 shares |
| `BootDirectory.BootBreaksAtZero` | kernel/arch/i386/boot.S:147-154 | the program of one page at address 0 is such a program, and it can be loaded |
| `BootDirectory.BootWalk` | kernel/arch/i386/boot.S:76-154 | the first 16 MiB are translated to themselves, the first four of them again from 0xC0000000 up |
| `BootDirectory.BootFindable` | kernel/arch/i386/boot.S:76-154 | at first the kernel finds its directory, its tables and every frame that can become a table at its own address |
| `BootDirectory.BootHides` | kernel/mm/vmm.c:44-53 | the failing inputs: mapping any single page of that identity window, or of its second image, onto the first clear frame makes the address of another clear frame lead to the first one |
| `BootDirectory.HeapAndStackHide` | kernel/core/kernel.c:73 | the first page of the kernel heap does that to frame 0x200, and the first page of a user stack to frame 0x400 |
| `BootDirectory.BootHeap` | kernel/core/kernel.c:73 | on the boot directory no table serves two entries of the heap's part, and its tables are in order |
| `UserMemory.StoreByteBytes` | kernel/fs/elf.c:25 | storing a byte changes that byte of physical memory alone |
| `UserMemory.WriteByteReads` | kernel/fs/elf.c:25 | a store through the page walk changes exactly the addresses with the same translation, and no translation |
| `UserMemory.StoreHolds` | kernel/fs/elf.c:25 | a store into a loaded page updates the program's image at that address alone |
| `UserMemory.MapFreshHolds` | kernel/fs/elf.c:16-18 | mapping a fresh page leaves the rest of the image in place |
| `ElfImage.LastSegmentDecides` | kernel/fs/elf.c:178-200 | on every page the last segment touching it decides: file bytes, and zero around them |
| `ElfImage.ImageExact` | kernel/fs/elf.c:178-221 | segments that share no page with each other or the stack read back as file bytes followed by zeros, as the System V ABI asks in chapter 5 |
| `ElfImage.StackStartsZero` | kernel/fs/elf.c:202-221 | the stack pages are zero whatever the segments were |
| `ElfImage.EntryIs` | kernel/fs/elf.c:196-227 | which address that is |
| `ElfImage.StackPagesLast` | kernel/fs/elf.c:202-221 | the last pages of a program are 0x400 to 0x403, and outside them its image is that of its segments |
| `ElfFormat.LoaderReadsBack` | kernel/fs/elf.c:155-187 | round trip: of a file written from an entry, segments and contents the loader accepts the header and reads back entry and every segment |
| `ElfFormat.BadHeaders` | kernel/fs/elf.c:142-174 | exactly which files are refused with which code |
| `ElfCode.MapUserRange` | kernel/fs/elf.c:12-28 | on success the range's pages are cleared and the bytes copied, all else is kept; it succeeds exactly when the pages can be mapped onto fresh frames in order |
| `ElfCode.MapFreshPage` | kernel/fs/elf.c:16-18 | one page on a fresh frame; without a frame nothing changes, without a table the frame stays allocated |
| `ElfCode.ZeroPage` | kernel/fs/elf.c:20-21 | the clearing loop through virtual addresses |
| `ElfCode.ZeroPages` | kernel/fs/elf.c:15-22 | the page loop: mapped and cleared pages |
| `ElfCode.CopyBytes` | kernel/fs/elf.c:25 | the copying loop through virtual addresses |
| `ElfCode.LoadSegments` | kernel/fs/elf.c:177-200 | the program-header loop and the first load address; -20 exactly when some segment's pages cannot be mapped |
| `ElfCode.LoadSegment` | kernel/fs/elf.c:188-195 | one segment more: its pages and bytes in the image, or -20 exactly when its pages cannot be mapped |
| `ElfCode.MapStack` | kernel/fs/elf.c:202-221 | four cleared stack pages, or -30 or -31 |
| `ElfCode.LoadElf` | kernel/fs/elf.c:141-227 | header checks and codes; success if and only if memory suffices for all pages and tables, otherwise the code tells where it stopped and for want of what; the allocator and tables left by mapping the longest prefix of the pages that fits; on success the image read through the page tables, and the entry: the word at offset 24 if nonzero, otherwise the address of the first loaded segment that has one, otherwise 0x410000 |
| `ElfCode.EntryReads` | kernel/fs/elf.c:223-232 | an entry inside the file part of a segment finds that byte of the file through the page walk, at an address open to the user |
| `Ext2.Chunk` | kernel/fs/ext2.c:223-226 | a chunk is nonempty and stays within the block, the file and the request |
| `Ext2.ChunkInBlock` | kernel/fs/ext2.c:218-226 | the positions of a chunk lie in one block, one after the other |
| `Ext2Files.ReadExact` | kernel/fs/ext2.c:215-233 | a read returns the file's bytes from the position on and stops early only where no byte can be read |
| `Ext2Files.ReadUnique` | kernel/fs/ext2.c:215-233 | only one result fits that description |
| `Ext2Files.ReadCount` | kernel/fs/ext2.c:217-226 | the count is cut at the file size, at twelve blocks and at the first hole |
| `Ext2Files.ReadsConcatenate` | kernel/fs/ext2.c:414-420 | reads of any lengths one after the other concatenate to the single large read |
| `Ext2Files.WriteExact` | kernel/fs/ext2.c:425-442 | a write covers exactly the positions a read would, stores its bytes there, and changes no other byte of the volume |
| `Ext2Files.WriteThenRead` | kernel/fs/ext2.c:215-233 | reading the written range gives the written bytes, all other positions are unchanged |
| `Ext2Files.WritesConcatenate` | kernel/fs/ext2.c:425-450 | two consecutive writes equal the single write of both, even if the first was cut |
| `Ext2Files.WriteKeepsBlock` | kernel/fs/ext2.c:425-442 | a block that is not the file's stays as it was |
| `Ext2Files.WriteKeepsInode` | kernel/fs/ext2.c:187-213 | inode records on other blocks stay as they were |
| `Ext2Files.RecordContiguous` | kernel/fs/ext2.c:187-213 | an inode record is one run of bytes of the volume even when it crosses blocks |
| `Ext2Files.FileWriteThenRead` | kernel/fs/ext2.c:444-450 | through the inode number: what was written is what is read, as many bytes as a read would have delivered |
| `Ext2Files.OtherFilesKept` | kernel/fs/ext2.c:444-450 | every file on other blocks reads as before |
| `Ext2Sessions.ReadsJoinUp` | kernel/fs/ext2.c:414-420 | over the open-file table: reads of any lengths on a descriptor deliver together what the single large read from its first position does, and leave the position behind it and all other descriptors alone |
| `Ext2Sessions.WritesJoinUp` | kernel/fs/ext2.c:444-450 | the same for writes: volume, number of bytes and position are those of the single write of all pieces |
| `Ext2Format.SuperReadsBack` | kernel/fs/ext2.c:15-46 | round trip: the superblock fields read back, block sizes 1024, 2048 and 4096 from their logarithm, groups as whole quotient rounded up |
| `Ext2Format.DescriptorsBehindSuper` | kernel/fs/ext2.c:260 | the descriptors begin in the block behind the superblock's |
| `Ext2Format.InodeReadsBack` | kernel/fs/ext2.c:59-78 | round trip: mode, size and all fifteen block numbers of an inode record read back |
| `Ext2Format.DirectoryModes` | kernel/fs/ext2.c:408 | which modes are directories |
| `Ext2Format.DirectoryReadsBack` | kernel/fs/ext2.c:80-86 | round trip: a block filled with directory records is walked to its end and yields those in use |
| `Ext2Root.FindFirst` | kernel/fs/ext2.c:384-401 | lookup yields the first entry of the name, and fails exactly when there is none |
| `Ext2Root.ListingComplete` | kernel/fs/ext2.c:370-375 | the listing is every name and a newline in order exactly when all of it fits |
| `Ext2Root.ListingExact` | kernel/fs/ext2.c:370-381 | the listing in every room: all lines, or cut one byte before the end with a newline |
| `Ext2Root.ListingNames` | kernel/fs/ext2.c:353-382 | the listing's lines are the names |
| `Ext2Root.ListedIsFound` | kernel/fs/ext2.c:353-401 | a name is found exactly when it is a line of the complete listing |
| `Ext2Root.WriteKeepsDirectory` | kernel/fs/ext2.c:425-442 | writing a file on other blocks leaves the directory as it was |
| `Ext2Mount.MountSane` | kernel/fs/ext2.c:235-342 | a successful mount yields a usable geometry |
| `Ext2Mount.SameMount` | kernel/fs/fs.c:72-77 | a copied image has the same superblock on disk and mounts there with the same geometry exactly when the disk reaches the end of the last descriptor block |
| `Ext2Mount.WholeBlocksMount` | kernel/fs/fs.c:76-77 | for an image of whole blocks it always does |
| `Ext2Mount.SameBlocks` | kernel/fs/ext2.c:119-136 | every block wholly inside the image reads the same from both backends |
| `Ext2Mount.SameFiles` | kernel/fs/ext2.c:215-233 | and so does every file that lies inside it |
| `Ext2Mount.BackendsAgree` | kernel/fs/fs.c:72-77 | copy, mount from disk and read: the same result as from memory |
| `Ext2Mount.CopiedBytes` | kernel/fs/fs.c:15-35 | the disk after the copy, byte by byte: image, zeros to the end of the sector, the rest as before |
| `Ext2Code.FileSystem.GetBlock` | kernel/fs/ext2.c:119-136 | the block's bytes or none, from image or cache; a valid cache always equals the disk block it names |
| `Ext2Code.FileSystem.WriteBlock` | kernel/fs/ext2.c:138-155 | one block changes and the cache is dropped |
| `Ext2Code.FileSystem.CopyFromBlock` | kernel/fs/ext2.c:164-170 | a piece of a block, or failure exactly when the block is missing or the piece too long |
| `Ext2Code.FileSystem.CopyToBlock` | kernel/fs/ext2.c:172-185 | a piece of a block changes and nothing else, through the cache on disk |
| `Ext2Code.FileSystem.ReadInode` | kernel/fs/ext2.c:187-213 | the inode decoded from its exact record bytes, or none |
| `Ext2Code.FileSystem.ReadRecord` | kernel/fs/ext2.c:198-210 | the loop collects the record's bytes across blocks |
| `Ext2Code.FileSystem.ReadFileDirect` | kernel/fs/ext2.c:215-233 | the caller's buffer and the count |
| `Ext2Code.FileSystem.WriteFileDirect` | kernel/fs/ext2.c:425-442 | the volume and the count |
| `Ext2Code.FileSystem.Read` | kernel/fs/ext2.c:414-420 | the bytes delivered; a positive result moves the position by just that much, its inode and every other descriptor stay |
| `Ext2Code.FileSystem.Write` | kernel/fs/ext2.c:444-450 | volume and result; a positive result moves the position by just that much, its inode and every other descriptor stay |
| `Ext2Code.FileSystem.Close` | kernel/fs/ext2.c:422 | the descriptor is freed, a bad one refused |
| `Ext2RootCode.List` | kernel/fs/ext2.c:353-382 | the listing of the directory, never longer than the room given |
| `Ext2RootCode.ListBlock` | kernel/fs/ext2.c:365-378 | the entries of one block appended |
| `Ext2RootCode.PrintName` | kernel/fs/ext2.c:372-374 | one name and newline as far as there is room |
| `Ext2RootCode.LookupInRoot` | kernel/fs/ext2.c:384-401 | the inode of the first entry with the name |
| `Ext2RootCode.LookupInBlock` | kernel/fs/ext2.c:389-398 | the same within one block |
| `Ext2RootCode.PathBasename` | kernel/fs/ext2.c:346-351 | what follows the last separator; an empty path is refused |
| `Ext2RootCode.BasenameUnique` | kernel/fs/ext2.c:346-351 | that is only one string |
| `Ext2RootCode.BasenameOfJoin` | kernel/fs/ext2.c:346-351 | the name behind either separator, or without one the whole path |
| `Ext2RootCode.Open` | kernel/fs/ext2.c:403-412 | the lowest free descriptor from 3 on for the named regular file, and each reason to refuse |
| `Ext2MountCode.MountFromModule` | kernel/fs/ext2.c:235-277 | when the mount succeeds, and the state after success and after each kind of failure |
| `Ext2MountCode.MountFromDisk` | kernel/fs/ext2.c:279-342 | the same for the disk |
| `Ext2MountCode.ReadDescriptors` | kernel/fs/ext2.c:314-333 | the descriptor bytes collected in whole blocks, or failure exactly when they leave the disk |
| `Ext2MountCode.CopyModuleToDisk` | kernel/fs/fs.c:15-35 | the whole disk after the copy, and success exactly when the image fits |
| `Ext2MountCode.FsInit` | kernel/fs/fs.c:37-92 | what is mounted in the end, from where, and the disk |
| `Ext2MountCode.SyncToDisk` | kernel/fs/fs.c:72-87 | the change from module to disk, with its failures |
| `Ext2MountCode.StartsMounted` | kernel/fs/fs.c:72-87 | a usable module ends up mounted if and only if the disk is absent, mountable, smaller than 2048 bytes, or big enough for the image |
| `Ext2MountCode.StartsWhere` | kernel/fs/fs.c:37-92 | from where: a mountable disk first, otherwise the first usable module |
| `Ext2MountCode.UnmountedWitness` | kernel/fs/fs.c:83-85 | the failing input: a blank disk of 2048 bytes and a usable image of 4096 end up with nothing mounted |
| `Ext2MountCode.StartsFromCopy` | kernel/fs/fs.c:72-87 | with room the system runs from the copy with the module's own geometry |
| `Numbers.Output.PrintInteger` | kernel/core/stdio.c:19-44 | both channels receive the digits, and their number is returned |
| `Numbers.ParseU32` | kernel/core/shell.c:241-254 | a numeral's positional value modulo 2^32, everything else refused |
| `Numbers.Accumulate` | kernel/core/shell.c:251 | working in 32 bits loses nothing but whole multiples of 2^32 |
| `Numbers.DigitsValue` | kernel/core/stdio.c:32-39 | the digits are a numeral of the value without a leading zero |
| `Numbers.HexRoundTrip` | kernel/core/shell.c:241-254 | every 32-bit value printed in hexadecimal behind 0x reads back as itself |
| `Numbers.UpperRoundTrip` | kernel/core/shell.c:241-254 | the same in capitals behind 0X |
| `Numbers.DecimalRoundTrip` | kernel/core/stdio.c:23-28 | a value printed in decimal reads back if and only if it is below 2^31; from there on it is refused |
| `Numbers.SignedDecimal` | kernel/core/stdio.c:23-39 | a signed number's output is its sign and magnitude, the smallest one included |
| `Numbers.PrintedInjective` | kernel/core/stdio.c:19-44 | different numbers print differently |

## Left out

- Hardware: port input and output, PCI, ATA, AHCI and UHCI handshakes, interrupt controllers, timers, serial line, descriptor tables, assembly. A block device is an array of 512-byte sectors whose operations fail exactly when they leave it.
- TLB flushes, `ctx_switch` stack mechanics and the CR3 register beyond the address of the directory in use; tables are written by physical address, which is what the code does exactly as long as `TableReach.Findable` holds; what it does to the wrong frame afterwards is not modelled.
- Interrupts are taken to arrive from user mode, since `process_schedule` saves the user stack pointer unconditionally.
- The keyboard ring buffer, whose indices wrap at 256 over 128 entries.
- Liveness of the kernel's own HTAS policy: its current CPU advances only on a switch and ties go to the lowest slot, so no starvation bound holds; only its choice is specified.
- The wrap of process priorities beyond the range of C integers, and of process ids after 2^31 creations.
- `process_wait`, `process_switch` and reparenting; fork shares the address space as the code does, and what a shared directory means for teardown is not modelled. `process_destroy` is modelled on the table and the teardown on memory.
- Thread stacks, names and the trampoline: a thread creation is told whether the kernel heap had room for the stack.
- `htas_calculate_affinity`, profile registration and the slowdown loops of the topology simulation, which only add easy members; the other benchmark drivers of `kernel/sched/htas_benchmark.c`.
- Statistics of the simulation are unbounded numbers where the source has 64 bits, which 2^32 ticks cannot fill.
- The bytes of the multiboot information: memory map and modules are sequences of entries.
- HeapCode.Heap.MapMore: a heap whose addresses wrap past 2^32 is not modelled.
- HeapCode.Heap.Kmalloc: the same; `kcalloc`, `krealloc` and the empty `kfree` would only add easy members.
- TeardownCode.FreeUserAddressSpace: a directory that names itself as a user table, which the loop would rewrite while reading it, is not modelled.
- ElfCode.MapUserRange: a file part longer than its memory part or outside the user half is not modelled; it would fault or overwrite the kernel.
- ElfCode.LoadSegments: program headers and segments outside the file are not modelled; the loader reads past its buffer there.
- ElfCode.LoadElf: the same. The two loaders for boot modules, which repeat the same loops, and entering user mode are not modelled.
- Ext2Code.FileSystem.GetBlock: the block number whose end wraps to address 0 in memory, for which the source reads past the image, and 0xFFFFFFFF on disk, which equals the empty cache's tag, are not modelled.
- Ext2Code.FileSystem.WriteBlock: the number that wraps in memory is not modelled.
- Ext2Code.FileSystem.CopyFromBlock: the two numbers that GetBlock excludes are not modelled.
- Ext2Code.FileSystem.CopyToBlock: the two numbers that GetBlock excludes are not modelled.
- Ext2Code.FileSystem.ReadInode: inode records that lie on those two numbers are not modelled.
- Ext2Code.FileSystem.ReadRecord: the same.
- Ext2Code.FileSystem.ReadFileDirect: files that name those two numbers are not modelled.
- Ext2Code.FileSystem.WriteFileDirect: the same.
- Ext2Code.FileSystem.Read: the same, for the open file and its inode record.
- Ext2Code.FileSystem.Write: the same.
- Ext2RootCode.List: directories with live names longer than their records, which the source reads past, are not modelled.
- Ext2RootCode.LookupInRoot: the same.
- Ext2RootCode.Open: the same.
- Ext2MountCode.MountFromModule: superblocks with no inodes per group (a division by zero), inode records outside 128..4096 bytes (an overrun of the driver's buffer), tables or group counts beyond 32 bits, or a shift count of 32 or more are not modelled.
- Ext2MountCode.MountFromDisk: the same.
- Ext2MountCode.FsInit: the same, for the disk and every module.
- Failing device writes inside the disk: after one the source's cache keeps the changed bytes under the old tag.
- `read` and `write` on descriptors while nothing is mounted, which the file system layer refuses first (`kernel/fs/fs.c:116-124`).
- Null pointers, progress messages and the C string functions, which are operations on sequences here.
- `printf` formatting, shell dispatch, line editing and user programs.
