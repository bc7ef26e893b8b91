/** Whole runs of the process manager, and round-robin fairness of the baseline policy over them. */
module ProcessFairness {
  import opened Basics
  import opened Processes
  import opened ProcessRuns

  /** The kernel launches a program and destroys its process when it has ended; meanwhile there are timer
      interrupts, forks, and the creations and exits that the process manager offers. */
  datatype Event = Launched(entry: Word, stack: Word) | Destroyed(pid: int)
                 | Timer(frame: Frame) | Spawn(ppid: int) | ForkCall(frame: Frame) | ExitCall(code: int)

  function Step(k: Kernel, e: Event): (r: Kernel)
    requires Shape(k)
    ensures Shape(r)
  {
    match e
    case Launched(entry, stack) => Launch(k, entry, stack).0
    case Destroyed(pid) => Destroy(k, pid)
    case Timer(frame) => Schedule(k, frame).0
    case Spawn(ppid) => Create(k, ppid).0
    case ForkCall(frame) => SysFork(k, frame).0
    case ExitCall(code) => Exit(k, code)
  }

  // ---- Every event keeps the table well formed ----

  lemma ForkCallKeeps(k: Kernel, frame: Frame)
    requires Inv(k)
    ensures Inv(SysFork(k, frame).0)
    ensures Current(k) >= 0 ==> Current(SysFork(k, frame).0) == Current(k)
    ensures forall x :: Used(k, x) ==> SysFork(k, frame).0.table[x].state == k.table[x].state
  {
    if Current(k) >= 0 {
      var parent := Current(k);
      var k0 := CaptureState(k, frame);
      CaptureKeepsInv(k, frame);
      UnusedSame(k.table, k0.table, 0);
      if FirstUnused(k.table, 0) >= 0 { ForkChild(k0, parent, frame); }
    }
  }

  lemma ExitKeeps(k: Kernel, code: int)
    requires Inv(k)
    ensures Inv(Exit(k, code))
    ensures Current(k) >= 0 ==> Current(Exit(k, code)) == Current(k)
    ensures forall x :: Used(k, x) && x != Current(k) && k.table[x].state.Ready? ==> Exit(k, code).table[x].state.Ready?
  {
    var k' := Exit(k, code);
    var c := Current(k);
    if c >= 0 {
      forall i | Used(k', i) ensures Used(k, i) && k'.table[i].pid == k.table[i].pid {}
      assert Used(k', c);
      CurrentIs(k', c);
    }
  }

  ghost predicate SomeRunning(k: Kernel) {
    exists i :: Used(k, i) && k.table[i].state.Running?
  }

  /** A launched program is a new process in the first free slot, RUNNING and current, with cleared registers
      but for its entry point and stack; the other slots are as before. */
  lemma LaunchStarts(k: Kernel, entry: Word, stack: Word)
    requires Inv(k)
    ensures var (k', pid) := Launch(k, entry, stack);
            var i := FirstUnused(k.table, 0);
      if i < 0 then k' == k && pid == -1
      else
        && pid == k.nextPid && Current(k') == i && !Used(k, i) && k'.nextPid == pid + 1 && k'.policy == k.policy
        && k'.table == k.table[i := k'.table[i]]
        && k'.table[i] == Process(pid, 0, Running, k.cr3,
             Context(Regs(0, 0, 0, 0, 0, 0, 0, stack, entry, 0x202, 0x1B, 0x23, 0x23), 0, 0, 0), 0, 0, None)
  {
    if FirstUnused(k.table, 0) >= 0 {
      CreateKeepsInv(k, 0);
      CreatedIsFound(k, 0);
      var k' := Launch(k, entry, stack).0;
      forall j: nat | Used(k', j) && k'.table[j].pid == k'.currentPid ensures j == FirstUnused(k.table, 0) {
        PidIssued(k, j);
      }
      CurrentIs(k', FirstUnused(k.table, 0));
    }
  }

  lemma PidIssued(k: Kernel, j: nat)
    requires Inv(k)
    ensures Used(k, j) ==> k.table[j].pid < k.nextPid
  {
  }

  /** The exact condition under which launching a program keeps the invariant: there is no free slot for it,
      or no process is RUNNING. A forked child that was left RUNNING when its program ended breaks it. */
  lemma LaunchKeepsInv(k: Kernel, entry: Word, stack: Word)
    requires Inv(k)
    ensures Inv(Launch(k, entry, stack).0) <==> FirstUnused(k.table, 0) < 0 || !SomeRunning(k)
  {
    LaunchStarts(k, entry, stack);
    var k', i := Launch(k, entry, stack).0, FirstUnused(k.table, 0);
    if i >= 0 {
      forall j ensures Used(k', j) <==> Used(k, j) || j == i {
      }
      if j :| Used(k, j) && k.table[j].state.Running? {
        assert Used(k', j) && k'.table[j].state.Running? && j != Current(k');
      }
    }
  }

  lemma DestroyKeeps(k: Kernel, pid: int)
    requires Inv(k)
    ensures var k', i := Destroy(k, pid), Find(k.table, pid);
      && Inv(k') && k'.policy == k.policy
      && (forall j :: Used(k', j) <==> Used(k, j) && j != i)
      && (forall j :: Used(k', j) ==> k'.table[j] == k.table[j])
      && (i >= 0 ==> k'.table[i] == k.table[i].(pageDir := 0, state := Unused))
      && (Current(k) >= 0 && Current(k) != i ==> Current(k') == Current(k))
  {
    var k', i := Destroy(k, pid), Find(k.table, pid);
    if i >= 0 {
      forall j ensures Used(k', j) <==> Used(k, j) && j != i {
      }
      var c := Current(k);
      if c >= 0 && c != i { CurrentIs(k', c); }
      forall j | Used(k', j) && k'.table[j].state.Running? ensures j == Current(k') {
        assert Used(k, j);
      }
    }
  }

  /** An event that may happen next: a launch only while no process is RUNNING. */
  ghost predicate Allowed(k: Kernel, e: Event) {
    e.Launched? ==> !SomeRunning(k)
  }

  lemma StepKeepsInv(k: Kernel, e: Event)
    requires Inv(k) && Allowed(k, e)
    ensures Inv(Step(k, e))
  {
    match e
    case Launched(entry, stack) => LaunchKeepsInv(k, entry, stack);
    case Destroyed(pid) => DestroyKeeps(k, pid);
    case Timer(frame) => ScheduleKeepsInv(k, frame);
    case Spawn(ppid) => CreateKeepsInv(k, ppid);
    case ForkCall(frame) => ForkCallKeeps(k, frame);
    case ExitCall(code) => ExitKeeps(k, code);
  }

  ghost function Run(k: Kernel, es: seq<Event>): (r: Kernel)
    requires Shape(k)
    ensures Shape(r)
    decreases |es|
  {
    if es == [] then k else Step(Run(k, es[..|es| - 1]), es[|es| - 1])
  }

  ghost predicate Legal(k: Kernel, es: seq<Event>)
    requires Shape(k)
  {
    forall n :: 0 <= n < |es| ==> Allowed(Run(k, es[..n]), es[n])
  }

  lemma {:induction false} RunKeepsInv(k: Kernel, es: seq<Event>)
    requires Inv(k) && Legal(k, es)
    ensures Inv(Run(k, es))
    decreases |es|
  {
    if es != [] {
      hide Inv, Allowed, Step;
      var init := es[..|es| - 1];
      LegalPrefix(k, es, |es| - 1);
      RunKeepsInv(k, init);
      assert Allowed(Run(k, es[..|es| - 1]), es[|es| - 1]);
      StepKeepsInv(Run(k, init), es[|es| - 1]);
    }
  }

  lemma LegalPrefix(k: Kernel, es: seq<Event>, n: nat)
    requires Shape(k) && Legal(k, es) && n <= |es|
    ensures Legal(k, es[..n])
  {
    hide Allowed, Run;
    forall j | 0 <= j < n ensures Allowed(Run(k, es[..n][..j]), es[..n][j]) {
      assert es[..n][..j] == es[..j] && Allowed(Run(k, es[..j]), es[j]);
    }
  }

  // ---- Runs from the start ----

  lemma InitialInv(cr3: Word)
    ensures Inv(Initial(cr3)) && Current(Initial(cr3)) == -1 && forall i :: !Used(Initial(cr3), i)
  {
  }

  /** Every state that legal runs reach from the start is sound: pids unique and issued, and only the current
      process RUNNING. */
  lemma ReachableSound(cr3: Word, es: seq<Event>)
    requires Legal(Initial(cr3), es)
    ensures Inv(Run(Initial(cr3), es))
  {
    InitialInv(cr3);
    RunKeepsInv(Initial(cr3), es);
  }

  lemma RunNext(k: Kernel, es: seq<Event>, e: Event)
    requires Shape(k)
    ensures Run(k, es + [e]) == Step(Run(k, es), e)
    ensures Legal(k, es) && Allowed(Run(k, es), e) ==> Legal(k, es + [e])
  {
    hide Step, Allowed;
    assert (es + [e])[..|es|] == es;
    forall n | 0 <= n < |es| ensures (es + [e])[..n] == es[..n] {
    }
  }

  /** A program is launched: slot 0 runs it. */
  lemma FirstLaunch(cr3: Word, entry: Word, stack: Word)
    ensures var es, k := [Launched(entry, stack)], Run(Initial(cr3), [Launched(entry, stack)]);
      && Legal(Initial(cr3), es) && Inv(k) && k.policy.Baseline? && Current(k) == 0 && k.nextPid == 2
      && k.table[0].state.Running? && k.table[0].pageDir == cr3 && k.table[0].pid == 1
      && (forall i :: Used(k, i) <==> i == 0)
  {
    InitialInv(cr3);
    LaunchStarts(Initial(cr3), entry, stack);
    LaunchKeepsInv(Initial(cr3), entry, stack);
    assert [] + [Launched(entry, stack)] == [Launched(entry, stack)];
    RunNext(Initial(cr3), [], Launched(entry, stack));
  }

  /** It forks: the child is READY in slot 1, which is what fairness is about. */
  lemma ForkWaits(cr3: Word, entry: Word, stack: Word, frame: Frame)
    requires cr3 != 0
    ensures var es := [Launched(entry, stack), ForkCall(frame)];
            var k := Run(Initial(cr3), es);
      && Legal(Initial(cr3), es) && Inv(k) && Waiting(k, 1) && Current(k) == 0 && k.table[0].state.Running?
      && k.table[0].pid == 1 && k.table[1].pid == 2 && (forall i :: Used(k, i) <==> i == 0 || i == 1)
  {
    hide SysFork, Launch;
    FirstLaunch(cr3, entry, stack);
    var es := [Launched(entry, stack)];
    var k := Run(Initial(cr3), es);
    assert es + [ForkCall(frame)] == [Launched(entry, stack), ForkCall(frame)];
    RunNext(Initial(cr3), es, ForkCall(frame));
    SecondSlot(k);
    ForkSplits(k, frame);
  }

  lemma SecondSlot(k: Kernel)
    requires Shape(k) && forall i :: Used(k, i) <==> i == 0
    ensures FirstUnused(k.table, 0) == 1
  {
    assert Used(k, 0) && !Used(k, 1);
  }

  /** A program that has exited through the process manager: the next interrupt finds nobody else and sets it
      RUNNING again. */
  lemma ExitWitness(cr3: Word, entry: Word, stack: Word, code: int, frame: Frame)
    ensures var es := [Launched(entry, stack), ExitCall(code)];
            var k := Run(Initial(cr3), es);
      && Legal(Initial(cr3), es) && Inv(k) && Current(k) == 0 && k.table[0].state.Zombie?
      && Schedule(k, frame).0.table[0].state.Running?
  {
    hide Schedule, Launch;
    FirstLaunch(cr3, entry, stack);
    var es := [Launched(entry, stack)];
    var k0 := Run(Initial(cr3), es);
    assert es + [ExitCall(code)] == [Launched(entry, stack), ExitCall(code)];
    RunNext(Initial(cr3), es, ExitCall(code));
    ExitKeeps(k0, code);
    var k := Exit(k0, code);
    assert forall i :: Used(k, i) ==> i == 0;
    ExitedProcessRevives(k, frame);
  }

  /** The launch that breaks the invariant. A program forks, an interrupt switches to the child, and the
      child's exit call returns to the kernel, which destroys the launched program's process: the child is
      left RUNNING, and launching the next program makes two. */
  lemma LeftoverChild(cr3: Word, entry: Word, stack: Word, frame: Frame)
    requires cr3 != 0
    ensures var es := [Launched(entry, stack), ForkCall(frame), Timer(frame), Destroyed(1)];
            var k := Run(Initial(cr3), es);
      && Legal(Initial(cr3), es) && Inv(k) && Current(k) == 1 && k.table[1].state.Running?
      && !Inv(Launch(k, entry, stack).0)
  {
    hide Schedule, Launch, SysFork, Destroy;
    ForkWaits(cr3, entry, stack, frame);
    var es := [Launched(entry, stack), ForkCall(frame)];
    var k := Run(Initial(cr3), es);
    assert es + [Timer(frame)] == [Launched(entry, stack), ForkCall(frame), Timer(frame)];
    RunNext(Initial(cr3), es, Timer(frame));
    var k1 := Schedule(k, frame).0;
    SwitchedToChild(k, frame);
    var es1 := es + [Timer(frame)];
    assert es1 + [Destroyed(1)] == [Launched(entry, stack), ForkCall(frame), Timer(frame), Destroyed(1)];
    RunNext(Initial(cr3), es1, Destroyed(1));
    DestroyKeeps(k1, 1);
    LaunchKeepsInv(Destroy(k1, 1), entry, stack);
    FreeAgain(Destroy(k1, 1));
  }

  lemma SwitchedToChild(k: Kernel, frame: Frame)
    requires Inv(k) && Waiting(k, 1) && Current(k) == 0 && k.table[0].pid == 1
    ensures var k1 := Schedule(k, frame).0;
      && Inv(k1) && Current(k1) == 1 && k1.table[1].state.Running? && Find(k1.table, 1) == 0
      && (forall i :: Used(k1, i) <==> Used(k, i))
  {
    hide PickNext, RecordSwitch;
    PickAdvances(k, frame, 1);
    ScheduleCases(k, frame);
    ScheduleCurrent(k, frame);
    ScheduleKeepsInv(k, frame);
    var k1 := Schedule(k, frame).0;
    assert Used(k, 0) && Used(k1, 0) && k1.table[0].pid == 1;
  }

  lemma FreeAgain(k: Kernel)
    requires Shape(k) && !Used(k, 0) && Used(k, 1) && k.table[1].state.Running?
    ensures FirstUnused(k.table, 0) == 0 && SomeRunning(k)
  {
  }

  function Interrupts(es: seq<Event>): nat {
    if es == [] then 0 else Interrupts(es[..|es| - 1]) + if es[|es| - 1].Timer? then 1 else 0
  }

  // ---- The ranking function ----

  /** Slots from the current process forward to `x`, cyclically. */
  function Distance(k: Kernel, x: nat): nat {
    (x - Current(k)) % MAX_PROCESSES
  }

  /** The scan stops at or before an eligible slot at offset `d`. */
  lemma {:induction false} ScanStops(table: seq<Process>, start: nat, left: nat, except: int, d: nat) returns (e: nat)
    requires |table| == MAX_PROCESSES && left <= MAX_PROCESSES
    requires MAX_PROCESSES - left <= d < MAX_PROCESSES
    requires Runnable(table[Cyclic(start, d)]) && Cyclic(start, d) != except
    ensures e <= d && ScanCyclic(table, start, left, except) == Cyclic(start, e)
  {
    var i := Cyclic(start, MAX_PROCESSES - left);
    if Runnable(table[i]) && i != except {
      e := MAX_PROCESSES - left;
    } else {
      assert d != MAX_PROCESSES - left;
      e := ScanStops(table, start, left - 1, except, d);
    }
  }

  lemma BaselineAdvances(s: Kernel, c: nat, x: nat)
    requires Shape(s) && Current(s) == c && x < MAX_PROCESSES && x != c && Runnable(s.table[x])
    ensures var next := BaselineNext(s).0;
      next >= 0 && next != c && (next == x || (x - next) % MAX_PROCESSES < (x - c) % MAX_PROCESSES)
  {
    DistanceOffset(c, x);
    var candidate := if Runnable(s.table[c]) then c else -1;
    var e := ScanStops(s.table, (c + 1) % MAX_PROCESSES, |s.table|, candidate, (x - c) % MAX_PROCESSES - 1);
    OffsetDistance(c, x, e);
  }

  lemma PickAdvances(k: Kernel, frame: Frame, x: nat)
    requires Inv(k) && k.policy.Baseline? && Current(k) >= 0
    requires Used(k, x) && k.table[x].state.Ready? && x != Current(k)
    ensures var next := Pick(k, frame);
      next != Current(k) && (next == x || (x - next) % MAX_PROCESSES < Distance(k, x))
  {
    PickIsSelection(k, frame);
    CountedFacts(k, frame, x);
    BaselineAdvances(Counted(Saved(k, Current(k), frame)), Current(k), x);
  }

  lemma CountedFacts(k: Kernel, frame: Frame, x: nat)
    requires Shape(k) && Current(k) >= 0 && x < MAX_PROCESSES
    ensures var s := Counted(Saved(k, Current(k), frame));
      Shape(s) && Current(s) == Current(k) && s.policy == k.policy && (x != Current(k) ==> s.table[x] == k.table[x])
  {
    FindSame(k.table, Saved(k, Current(k), frame).table, k.currentPid, 0);
  }

  lemma DistanceOffset(c: nat, x: nat)
    requires c < MAX_PROCESSES && x < MAX_PROCESSES && x != c
    ensures var d := (x - c) % MAX_PROCESSES; 1 <= d && Cyclic((c + 1) % MAX_PROCESSES, d - 1) == x
  {
  }

  lemma OffsetDistance(c: nat, x: nat, e: nat)
    requires c < MAX_PROCESSES && x < MAX_PROCESSES && x != c && e < (x - c) % MAX_PROCESSES
    ensures var next := Cyclic((c + 1) % MAX_PROCESSES, e);
      next != c && (next == x || (x - next) % MAX_PROCESSES < (x - c) % MAX_PROCESSES)
  {
  }

  /** Nothing is launched, and neither the current process nor `x` is destroyed. */
  ghost predicate Undisturbed(k: Kernel, e: Event, x: nat) {
    && !e.Launched?
    && (e.Destroyed? ==> Find(k.table, e.pid) != x && Find(k.table, e.pid) != Current(k))
  }

  /** One event: the waiting process is dispatched, or it stays READY and only an interrupt moves the
      current process, which it moves closer. */
  lemma StepDistance(k: Kernel, e: Event, x: nat)
    requires Inv(k) && k.policy.Baseline? && Current(k) >= 0
    requires Used(k, x) && k.table[x].state.Ready? && x != Current(k) && Undisturbed(k, e, x)
    ensures var k' := Step(k, e);
      && k'.policy.Baseline? && Current(k') >= 0
      && if k'.table[x].state.Running? then e.Timer? && Current(k') == x
         else Used(k', x) && k'.table[x].state.Ready? && x != Current(k')
              && Distance(k', x) <= Distance(k, x) - if e.Timer? then 1 else 0
  {
    hide Schedule, Step;
    match e
    case Timer(frame) =>
      TimerStep(k, frame);
      TimerDistance(k, frame, x);
    case _ => QuietStep(k, e, x);
  }

  lemma TimerStep(k: Kernel, frame: Frame)
    requires Inv(k)
    ensures Step(k, Timer(frame)) == Schedule(k, frame).0
  {
  }

  /** Creation, fork, exit and the destruction of others leave the current process and the waiting one in
      their places. */
  lemma QuietStep(k: Kernel, e: Event, x: nat)
    requires Inv(k) && k.policy.Baseline? && Current(k) >= 0 && !e.Timer?
    requires Used(k, x) && k.table[x].state.Ready? && x != Current(k) && Undisturbed(k, e, x)
    ensures var k' := Step(k, e);
      k'.policy.Baseline? && Current(k') == Current(k) && Used(k', x) && k'.table[x].state.Ready?
  {
    match e
    case Destroyed(pid) => DestroyKeeps(k, pid);
    case Spawn(ppid) => CreateKeepsInv(k, ppid);
    case ForkCall(frame) => ForkCallKeeps(k, frame);
    case ExitCall(code) => ExitKeeps(k, code);
  }

  lemma TimerDistance(k: Kernel, frame: Frame, x: nat)
    requires Inv(k) && k.policy.Baseline? && Current(k) >= 0
    requires Used(k, x) && k.table[x].state.Ready? && x != Current(k)
    ensures var k' := Schedule(k, frame).0;
      && k'.policy.Baseline? && Current(k') >= 0
      && if Current(k') == x then k'.table[x].state.Running?
         else Used(k', x) && k'.table[x].state.Ready? && Distance(k', x) < Distance(k, x)
  {
    hide PickNext, BaselineNext, RecordSwitch;
    PickAdvances(k, frame, x);
    ScheduleCases(k, frame);
    ScheduleCurrent(k, frame);
  }

  /** Process `x` has the processor after the first `n` events. */
  ghost predicate RunningAt(k: Kernel, es: seq<Event>, x: nat, n: nat)
    requires Shape(k) && x < MAX_PROCESSES && n <= |es|
  {
    Run(k, es[..n]).table[x].state.Running?
  }

  ghost predicate Waiting(k: Kernel, x: nat) {
    Shape(k) && Used(k, x) && k.table[x].state.Ready? && k.policy.Baseline? && Current(k) >= 0 && x != Current(k)
  }

  ghost predicate UndisturbedRun(k: Kernel, es: seq<Event>, x: nat)
    requires Shape(k)
  {
    forall n :: 0 <= n < |es| ==> Undisturbed(Run(k, es[..n]), es[n], x)
  }

  lemma UndisturbedPrefix(k: Kernel, es: seq<Event>, x: nat, n: nat)
    requires Shape(k) && UndisturbedRun(k, es, x) && n <= |es|
    ensures UndisturbedRun(k, es[..n], x)
  {
    hide Undisturbed, Run;
    forall j | 0 <= j < n ensures Undisturbed(Run(k, es[..n][..j]), es[..n][j], x) {
      assert es[..n][..j] == es[..j] && Undisturbed(Run(k, es[..j]), es[j], x);
    }
  }

  lemma {:induction false} DistanceOverRun(k: Kernel, es: seq<Event>, x: nat)
    requires Inv(k) && Waiting(k, x) && UndisturbedRun(k, es, x)
    requires forall n :: 0 <= n <= |es| ==> !RunningAt(k, es, x, n)
    ensures Inv(Run(k, es)) && Waiting(Run(k, es), x)
    ensures 1 <= Distance(Run(k, es), x) <= Distance(k, x) - Interrupts(es)
    decreases |es|
  {
    hide Inv, Step, Schedule, Distance;
    assert es[..|es|] == es && !RunningAt(k, es, x, |es|);
    if es != [] {
      var init := es[..|es| - 1];
      forall n | 0 <= n <= |init| ensures !RunningAt(k, init, x, n) {
        assert init[..n] == es[..n] && !RunningAt(k, es, x, n);
      }
      UndisturbedPrefix(k, es, x, |es| - 1);
      DistanceOverRun(k, init, x);
      assert Undisturbed(Run(k, es[..|es| - 1]), es[|es| - 1], x);
      StepKeepsInv(Run(k, init), es[|es| - 1]);
      StepDistance(Run(k, init), es[|es| - 1], x);
    }
    WaitingDistance(Run(k, es), x);
  }

  lemma WaitingDistance(k: Kernel, x: nat)
    requires Waiting(k, x)
    ensures 1 <= Distance(k, x) <= MAX_PROCESSES - 1
  {
    DistanceOffset(Current(k), x);
  }

  /** Fairness: a READY process whose slot lies d after the current one, cyclically, is RUNNING at some moment
      within d interrupts, whatever is created, forked, exits or is destroyed meanwhile; d is at most 31. */
  lemma RoundRobinIsFair(k: Kernel, es: seq<Event>, x: nat)
    requires Inv(k) && Waiting(k, x) && UndisturbedRun(k, es, x)
    requires Interrupts(es) >= Distance(k, x)
    ensures Distance(k, x) <= MAX_PROCESSES - 1
    ensures exists n :: 0 <= n <= |es| && RunningAt(k, es, x, n) && Interrupts(es[..n]) <= Distance(k, x)
  {
    hide UndisturbedRun, Inv, Step, Distance;
    var cut := CutAt(es, Distance(k, x));
    UndisturbedPrefix(k, es, x, cut);
    WaitingDistance(k, x);
    var n := SomeRunningAt(k, es[..cut], x);
    InterruptsMonotone(es[..cut], n);
    assert es[..cut][..n] == es[..n];
    assert RunningAt(k, es, x, n);
  }

  lemma SomeRunningAt(k: Kernel, es: seq<Event>, x: nat) returns (n: nat)
    requires Inv(k) && Waiting(k, x) && UndisturbedRun(k, es, x)
    requires Interrupts(es) >= Distance(k, x)
    ensures n <= |es| && RunningAt(k, es, x, n)
  {
    if n' :| 0 <= n' <= |es| && RunningAt(k, es, x, n') {
      n := n';
    } else {
      DistanceOverRun(k, es, x);
      assert false;
    }
  }

  lemma {:induction false} InterruptsMonotone(es: seq<Event>, n: nat)
    requires n <= |es|
    ensures Interrupts(es[..n]) <= Interrupts(es)
    decreases |es|
  {
    if n == |es| {
      assert es[..n] == es;
    } else {
      InterruptsMonotone(es[..|es| - 1], n);
      assert es[..|es| - 1][..n] == es[..n];
    }
  }

  /** Some prefix of the run contains exactly `d` interrupts. */
  lemma {:induction false} CutAt(es: seq<Event>, d: nat) returns (cut: nat)
    requires Interrupts(es) >= d
    ensures cut <= |es| && Interrupts(es[..cut]) == d
    decreases |es|
  {
    if Interrupts(es) == d {
      cut := |es|;
      assert es[..cut] == es;
    } else {
      cut := CutAt(es[..|es| - 1], d);
      assert es[..|es| - 1][..cut] == es[..cut];
    }
  }
}
