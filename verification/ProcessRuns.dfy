/** What every context switch and fork keep, and round-robin fairness over whole runs. */
module ProcessRuns {
  import opened Processes

  ghost predicate Used(k: Kernel, i: int) {
    0 <= i < |k.table| && !k.table[i].state.Unused?
  }

  /** Process ids are unique and already issued; only the current process can be RUNNING. */
  ghost predicate Inv(k: Kernel) {
    && Shape(k)
    && 1 <= k.nextPid
    && (forall i :: Used(k, i) ==> 1 <= k.table[i].pid < k.nextPid)
    && (forall i, j :: Used(k, i) && Used(k, j) && k.table[i].pid == k.table[j].pid ==> i == j)
    && (forall i :: Used(k, i) && k.table[i].state.Running? ==> i == Current(k))
  }

  lemma CurrentIs(k: Kernel, i: int)
    requires Shape(k) && Used(k, i) && k.table[i].pid == k.currentPid >= 0
    requires forall j :: Used(k, j) && k.table[j].pid == k.table[i].pid ==> j == i
    ensures Current(k) == i
  {
    assert Used(k, Current(k));
  }

  // ---- Context-switch transparency ----

  /** The registers with which process `i` will next execute a user instruction: the live frame if it
      is running, its saved context otherwise. */
  ghost function Live(k: Kernel, frame: Frame, i: int): Regs
    requires Used(k, i)
  {
    if i == Current(k) && k.table[i].state.Running? then frame.user else k.table[i].context.regs
  }

  /** The process that the timer interrupt would pick. */
  ghost function Pick(k: Kernel, frame: Frame): int
    requires Shape(k) && Current(k) >= 0
  {
    PickNext(Saved(k, Current(k), frame), Current(k)).1
  }

  lemma PickIsSelection(k: Kernel, frame: Frame)
    requires Shape(k) && Current(k) >= 0
    ensures var next := Selection(Counted(Saved(k, Current(k), frame))).0;
      Pick(k, frame) == if next < 0 then Current(k) else next
  {
  }

  /** The state in which htas_pick_next_process makes its selection. */
  ghost function Counted(k: Kernel): Kernel {
    WithStats(k, ActiveStats(k).(ticks := ActiveStats(k).ticks + 1))
  }

  lemma {:induction false} FindSame(a: seq<Process>, b: seq<Process>, pid: int, i: nat)
    requires |a| == |b| && i <= |a|
    requires forall j :: 0 <= j < |a| ==> a[j].pid == b[j].pid && a[j].state.Unused? == b[j].state.Unused?
    ensures FindFrom(a, pid, i) == FindFrom(b, pid, i)
    decreases |a| - i
  {
    if i < |a| { FindSame(a, b, pid, i + 1); }
  }

  /** Neither the selection nor its bookkeeping touches states, ids or saved registers. */
  ghost predicate SameButHtas(a: Kernel, b: Kernel) {
    && |a.table| == |b.table| && a.currentPid == b.currentPid && a.nextPid == b.nextPid && a.cr3 == b.cr3
    && forall i :: 0 <= i < |a.table| ==> b.table[i] == a.table[i].(htas := b.table[i].htas)
  }

  lemma PickKeeps(k: Kernel, current: nat)
    requires Shape(k) && current < MAX_PROCESSES
    ensures SameButHtas(k, PickNext(k, current).0)
    ensures var next := PickNext(k, current).1; next == current || Runnable(k.table[next])
  {
    var s := ActiveStats(k);
    var k1 := WithStats(k, s.(ticks := s.ticks + 1));
    assert k1.table == k.table;
  }

  lemma RecordKeeps(k: Kernel, next: nat)
    requires Shape(k) && next < MAX_PROCESSES
    ensures SameButHtas(k, RecordSwitch(k, next))
  {
  }

  /** One timer interrupt, with the selection's bookkeeping out of the way. */
  lemma ScheduleCases(k: Kernel, frame: Frame)
    requires Shape(k) && Current(k) >= 0
    ensures var c, next, (k', f') := Current(k), Pick(k, frame), Schedule(k, frame);
            var s := Saved(k, c, frame);
      && Shape(k') && k'.nextPid == k.nextPid && k'.policy == k.policy
      && (next == c || Runnable(s.table[next]))
      && (forall i :: 0 <= i < MAX_PROCESSES ==>
            k'.table[i] == s.table[i].(htas := k'.table[i].htas,
                                       state := if i == next then Running else s.table[i].state))
      && (if next == c then f' == frame && k'.currentPid == k.currentPid
          else f' == frame.(user := s.table[next].context.regs) && k'.currentPid == s.table[next].pid
               && k'.cr3 == s.table[next].pageDir)
  {
    var c := Current(k);
    var s := Saved(k, c, frame);
    var (k1, next) := PickNext(s, c);
    PickKeeps(s, c);
    if next != c { RecordKeeps(k1, next); }
  }

  lemma ScheduleCurrent(k: Kernel, frame: Frame)
    requires Inv(k) && Current(k) >= 0
    ensures Current(Schedule(k, frame).0) == Pick(k, frame)
  {
    ScheduleCases(k, frame);
    var k', next := Schedule(k, frame).0, Pick(k, frame);
    var s := Saved(k, Current(k), frame);
    assert Used(k, next);
    forall j | Used(k', j) && k'.table[j].pid == k'.table[next].pid ensures j == next {
      assert Used(k, j);
    }
    CurrentIs(k', next);
  }

  lemma ScheduleKeepsInv(k: Kernel, frame: Frame)
    requires Inv(k)
    ensures Inv(Schedule(k, frame).0)
  {
    if Current(k) >= 0 {
      ScheduleCases(k, frame);
      ScheduleCurrent(k, frame);
      var k' := Schedule(k, frame).0;
      forall i | Used(k', i) ensures Used(k, i) && k'.table[i].pid == k.table[i].pid {}
    }
  }

  ghost predicate Transparent(k: Kernel, frame: Frame)
    requires Inv(k)
  {
    var (k', frame') := Schedule(k, frame);
    forall i :: Used(k, i) ==> Used(k', i) && Live(k', frame', i) == Live(k, frame, i)
  }

  /** A timer interrupt leaves the registers of every process unchanged and exactly one process RUNNING,
      provided the interrupted process was running or another one is picked. */
  lemma SwitchIsTransparent(k: Kernel, frame: Frame)
    requires Inv(k) && Current(k) >= 0
    requires k.table[Current(k)].state.Running? || Pick(k, frame) != Current(k)
    ensures Transparent(k, frame)
    ensures var k' := Schedule(k, frame).0;
      forall i :: Used(k', i) ==> (k'.table[i].state.Running? <==> i == Current(k'))
    ensures var (k', frame') := Schedule(k, frame);
      && Current(k') == Pick(k, frame) && frame' == frame.(user := frame'.user)
      && k'.cr3 == (if Current(k') == Current(k) then k.cr3 else k'.table[Current(k')].pageDir)
      && forall i :: Used(k, i) ==> k'.table[i].pageDir == k.table[i].pageDir
  {
    ScheduleCases(k, frame);
    ScheduleCurrent(k, frame);
    var (k', frame') := Schedule(k, frame);
    forall i | Used(k, i) ensures Used(k', i) && Live(k', frame', i) == Live(k, frame, i) {
      assert i != Current(k) ==> !k.table[i].state.Running?;
    }
  }

  /** Exactly when one interrupt is transparent, frame by frame: the interrupted process was running, or
      another one is picked, or its saved registers are those of the frame. */
  lemma PickedOrSame(k: Kernel, frame: Frame)
    requires Inv(k) && Current(k) >= 0
    ensures Transparent(k, frame) <==>
      || k.table[Current(k)].state.Running?
      || Pick(k, frame) != Current(k)
      || k.table[Current(k)].context.regs == frame.user
  {
    var c := Current(k);
    if k.table[c].state.Running? || Pick(k, frame) != c {
      SwitchIsTransparent(k, frame);
    } else {
      ScheduleCases(k, frame);
      ScheduleCurrent(k, frame);
      var (k', frame') := Schedule(k, frame);
      assert Used(k, c) && Live(k', frame', c) == frame.user && Live(k, frame, c) == k.table[c].context.regs;
      forall i | Used(k, i) && i != c ensures Used(k', i) && Live(k', frame', i) == Live(k, frame, i) {
      }
    }
  }

  // ---- Selection under HTAS ----

  predicate HtasEligible(table: seq<Process>, cpu: nat, i: int) {
    0 <= i < |table| && Runnable(table[i]) && CanRunOn(table[i], cpu)
  }

  /** htas_select_next returns the eligible process of highest priority, the lowest slot among equals,
      and nothing exactly when no runnable process may run on the CPU. */
  lemma {:induction false} HtasPicksBest(table: seq<Process>, cpu: nat, n: nat)
    requires n <= |table|
    ensures var r := HtasScan(table, cpu, n);
      if r == -1 then forall j :: 0 <= j < n ==> !HtasEligible(table, cpu, j)
      else
        && HtasEligible(table, cpu, r)
        && forall j :: 0 <= j < n && HtasEligible(table, cpu, j) ==>
             || Priority(table[j], cpu) < Priority(table[r], cpu)
             || (Priority(table[j], cpu) == Priority(table[r], cpu) && r <= j)
  {
    if n > 0 { HtasPicksBest(table, cpu, n - 1); }
  }

  /** Process `x` would be dispatched before process `c` under HTAS. */
  predicate Outranks(table: seq<Process>, cpu: nat, x: int, c: int)
    requires 0 <= x < |table| && 0 <= c < |table|
  {
    || Priority(table[x], cpu) > Priority(table[c], cpu)
    || (Priority(table[x], cpu) == Priority(table[c], cpu) && x < c)
  }

  /** A READY process other than the current one that the policy prefers to it. Round-robin prefers any
      other one; HTAS one that may run on the CPU, and that outranks the current process if that one may. */
  ghost predicate Preferred(k: Kernel, x: int)
    requires Shape(k) && Current(k) >= 0
  {
    && Used(k, x) && x != Current(k) && k.table[x].state.Ready?
    && (!k.policy.Baseline? ==>
          && CanRunOn(k.table[x], k.cpu)
          && (HtasEligible(k.table, k.cpu, Current(k)) ==> Outranks(k.table, k.cpu, x, Current(k))))
  }

  /** What a process that is not running finds in the table decides whether another one is picked. */
  lemma PickedInstead(k: Kernel, frame: Frame)
    requires Inv(k) && Current(k) >= 0 && !k.table[Current(k)].state.Running?
    ensures Pick(k, frame) != Current(k) <==> exists x :: Preferred(k, x)
  {
    PickIsSelection(k, frame);
    if k.policy.Baseline? { BaselinePickedInstead(k, frame); } else { HtasPickedInstead(k, frame); }
  }

  lemma HtasPickedInstead(k: Kernel, frame: Frame)
    requires Inv(k) && Current(k) >= 0 && !k.table[Current(k)].state.Running? && !k.policy.Baseline?
    ensures Pick(k, frame) != Current(k) <==> exists x :: Preferred(k, x)
  {
    hide Priority, CanRunOn;
    PickIsSelection(k, frame);
    HtasPicksBest(k.table, k.cpu, |k.table|);
    var c, r := Current(k), HtasScan(k.table, k.cpu, |k.table|);
    assert Selection(Counted(Saved(k, c, frame))).0 == r;
    if r >= 0 && r != c {
      assert HtasEligible(k.table, k.cpu, r) && Used(k, r);
      assert Preferred(k, r);
    }
    if x :| Preferred(k, x) { assert HtasEligible(k.table, k.cpu, x); }
  }

  lemma BaselinePickedInstead(k: Kernel, frame: Frame)
    requires Inv(k) && Current(k) >= 0 && !k.table[Current(k)].state.Running? && k.policy.Baseline?
    ensures Pick(k, frame) != Current(k) <==> exists x :: Preferred(k, x)
  {
    hide FindFrom;
    PickIsSelection(k, frame);
    var c := Current(k);
    var candidate := if Runnable(k.table[c]) then c else -1;
    var start := (c + 1) % MAX_PROCESSES;
    var r := ScanCyclic(k.table, start, |k.table|, candidate);
    assert Current(Counted(k)) == c;
    ScanFirst(k.table, start, |k.table|, candidate);
    if r >= 0 {
      assert Runnable(k.table[r]) && Used(k, r);
      assert r != c && Preferred(k, r);
    }
    if x :| Preferred(k, x) {
      CyclicReaches(start, x);
      var d :| 0 <= d < MAX_PROCESSES && Cyclic(start, d) == x;
      assert Eligible(k.table, start, candidate, d);
    }
  }

  /** The scan returns the first eligible slot in cyclic order, and -1 exactly when there is none. */
  lemma {:induction false} ScanFirst(table: seq<Process>, start: nat, left: nat, except: int)
    requires |table| == MAX_PROCESSES && left <= MAX_PROCESSES && start < MAX_PROCESSES
    ensures var r, from := ScanCyclic(table, start, left, except), MAX_PROCESSES - left;
      if r == -1 then forall d :: from <= d < MAX_PROCESSES ==> !Eligible(table, start, except, d)
      else exists d :: from <= d < MAX_PROCESSES && r == Cyclic(start, d) && Eligible(table, start, except, d)
                       && forall e :: from <= e < d ==> !Eligible(table, start, except, e)
  {
    if left > 0 {
      ScanFirst(table, start, left - 1, except);
      assert Eligible(table, start, except, MAX_PROCESSES - left) || left <= MAX_PROCESSES;
    }
  }

  /** The slot at cyclic distance `d` may be chosen. */
  ghost predicate Eligible(table: seq<Process>, start: nat, except: int, d: nat)
    requires |table| == MAX_PROCESSES
  {
    Runnable(table[Cyclic(start, d)]) && Cyclic(start, d) != except
  }

  lemma CyclicReaches(start: nat, x: nat)
    requires start < MAX_PROCESSES && x < MAX_PROCESSES
    ensures exists d :: 0 <= d < MAX_PROCESSES && Cyclic(start, d) == x
  {
    assert Cyclic(start, (x - start) % MAX_PROCESSES) == x;
  }

  /** The exact condition in terms of the table: an interrupt keeps every process's registers if and only if
      the current process was running, or the policy prefers a READY one to it, or its saved registers are
      those of the frame. */
  lemma TransparencyCondition(k: Kernel, frame: Frame)
    requires Inv(k) && Current(k) >= 0
    ensures Transparent(k, frame) <==>
      || k.table[Current(k)].state.Running?
      || (exists x :: Preferred(k, x))
      || k.table[Current(k)].context.regs == frame.user
  {
    PickedOrSame(k, frame);
    if !k.table[Current(k)].state.Running? { PickedInstead(k, frame); }
  }

  /** An exited process comes back to life exactly when the policy prefers nobody to it. */
  lemma ExitedProcessRevives(k: Kernel, frame: Frame)
    requires Inv(k) && Current(k) >= 0 && k.table[Current(k)].state.Zombie?
    ensures Schedule(k, frame).0.table[Current(k)].state.Running? <==> !exists x :: Preferred(k, x)
  {
    ScheduleCases(k, frame);
    PickedInstead(k, frame);
  }

  // ---- Fork ----

  lemma CreateKeepsInv(k: Kernel, ppid: int)
    requires Inv(k)
    ensures Inv(Create(k, ppid).0)
    ensures Current(k) >= 0 ==> Current(Create(k, ppid).0) == Current(k)
  {
    var k' := Create(k, ppid).0;
    forall i, j | Used(k', i) && Used(k', j) && k'.table[i].pid == k'.table[j].pid ensures i == j {
      assert Used(k, i) || i == FirstUnused(k.table, 0);
      assert Used(k, j) || j == FirstUnused(k.table, 0);
    }
    var c := Current(k);
    if c >= 0 { CurrentIs(k', c); }
    forall i | Used(k', i) && k'.table[i].state.Running? ensures i == Current(k') {
      assert Used(k, i);
    }
  }

  /** The child's slot: fresh, and found again under the pid just issued. */
  lemma CreatedIsFound(k: Kernel, ppid: int)
    requires Inv(k) && Create(k, ppid).1 >= 0
    ensures var (k', pid) := Create(k, ppid);
      && pid == k.nextPid
      && Find(k'.table, pid) == FirstUnused(k.table, 0)
      && !Used(k, FirstUnused(k.table, 0))
  {
    var (k', pid) := Create(k, ppid);
    var i := FirstUnused(k.table, 0);
    var r := Find(k'.table, pid);
    assert k'.table[i].pid == pid && Used(k', i);
    if r != i { assert Used(k, r); }
  }

  /** Fork by a running process: the child has a pid nobody has had, the parent's registers with
      eax = 0, and nothing else changes; the parent sees the child's pid, or -1 without a free slot or
      address space. */
  lemma ForkSplits(k: Kernel, frame: Frame)
    requires Inv(k) && Current(k) >= 0 && k.table[Current(k)].state.Running? && k.nextPid <= MAX_INT
    ensures var (k', frame') := SysFork(k, frame);
            var parent := Current(k);
            var child := FirstUnused(k.table, 0);
            var ok := child >= 0 && k.table[parent].pageDir != 0;
      && Inv(k') && Current(k') == parent && k'.policy == k.policy
      && k'.table[parent] == k.table[parent].(context := Captured(frame))
      && frame'.user == frame.user.(eax := if ok then k.nextPid else 0xFFFF_FFFF)
      && Live(k', frame', parent) == frame'.user
      && (forall i :: Used(k', i) <==> Used(k, i) || (ok && i == child))
      && (forall i :: Used(k, i) && i != parent ==> k'.table[i] == k.table[i])
      && (ok ==> && k'.table[child].pid == k.nextPid && k'.table[child].ppid == k.table[parent].pid
                 && k'.table[child].state.Ready? && k'.table[child].pageDir == k.table[parent].pageDir
                 && Live(k', frame', child) == frame.user.(eax := 0))
  {
    hide Fork, Create, FirstUnused;
    var parent := Current(k);
    var k0 := CaptureState(k, frame);
    CaptureKeepsInv(k, frame);
    UnusedSame(k.table, k0.table, 0);
    ForkWithoutSlot(k0, parent);
    if FirstUnused(k.table, 0) >= 0 { ForkChild(k0, parent, frame); }
  }

  lemma ForkWithoutSlot(k: Kernel, parent: nat)
    requires Shape(k) && parent < MAX_PROCESSES
    ensures FirstUnused(k.table, 0) < 0 ==> Fork(k, parent) == (k, -1)
  {
  }

  /** The parent's context is overwritten before the fork proper. */
  ghost function CaptureState(k: Kernel, frame: Frame): Kernel
    requires Shape(k) && Current(k) >= 0
  {
    k.(table := k.table[Current(k) := k.table[Current(k)].(context := Captured(frame))])
  }

  lemma CaptureKeepsInv(k: Kernel, frame: Frame)
    requires Inv(k) && Current(k) >= 0
    ensures Inv(CaptureState(k, frame)) && Current(CaptureState(k, frame)) == Current(k)
    ensures forall i :: Used(CaptureState(k, frame), i) <==> Used(k, i)
  {
    CurrentIs(CaptureState(k, frame), Current(k));
  }

  lemma {:induction false} UnusedSame(a: seq<Process>, b: seq<Process>, i: nat)
    requires |a| == |b| && i <= |a|
    requires forall j :: 0 <= j < |a| ==> a[j].state.Unused? == b[j].state.Unused?
    ensures FirstUnused(a, i) == FirstUnused(b, i)
    decreases |a| - i
  {
    if i < |a| { UnusedSame(a, b, i + 1); }
  }

  /** The part of fork after a slot has been found. */
  lemma ForkChild(k: Kernel, parent: nat, frame: Frame)
    requires Inv(k) && parent == Current(k) && parent < MAX_PROCESSES && FirstUnused(k.table, 0) >= 0
    ensures var (k', pid) := Fork(k, parent);
            var child := FirstUnused(k.table, 0);
            var p := k.table[parent];
      && Inv(k') && Current(k') == parent && !Used(k, child) && k'.policy == k.policy
      && k'.table == k.table[child := k'.table[child]]
      && if p.pageDir == 0 then pid == -1 && k'.table[child].state.Unused?
         else && pid == k.nextPid
              && k'.table[child] == NewProcess(pid, p.pid).(pageDir := p.pageDir,
                   context := p.context.(regs := p.context.regs.(eax := 0)), brk := p.brk)
  {
    var child := FirstUnused(k.table, 0);
    CreateKeepsInv(k, k.table[parent].pid);
    CreatedIsFound(k, k.table[parent].pid);
    var k1 := Create(k, k.table[parent].pid).0;
    var k' := Fork(k, parent).0;
    forall i | Used(k', i)
      ensures Used(k1, i) && k'.table[i].pid == k1.table[i].pid && k'.table[i].state == k1.table[i].state
    {
    }
    CurrentIs(k', parent);
  }
}
