/** The process manager's own code: the table and the scheduler globals are updated in place. */
module ProcessCode {
  import opened Basics
  import opened Processes

  class ProcessManager {
    const table: array<Process>
    var currentPid: int
    var nextPid: int
    var cr3: Word
    var policy: Policy
    var cpu: nat
    var rrCursor: int
    var baseline: Stats
    var htas: Stats

    ghost function View(): Kernel
      reads this, table
    {
      Kernel(table[..], currentPid, nextPid, cr3, policy, cpu, rrCursor, baseline, htas)
    }

    ghost predicate Valid()
      reads this, table
    {
      Shape(View())
    }

    /** process_init and htas_init. */
    constructor (pageDir: Word)
      ensures Valid() && fresh(table) && View() == Initial(pageDir)
    {
      table := new Process[MAX_PROCESSES](_ => Process(0, 0, Unused, 0, ZERO_CONTEXT, 0, 0, None));
      currentPid, nextPid, cr3, policy, cpu, rrCursor := -1, 1, pageDir, Policy.Baseline, 0, -1;
      baseline, htas := NO_STATS, NO_STATS;
    }

    method ProcessFind(pid: int) returns (slot: int)
      requires Valid()
      ensures slot == Find(table[..], pid)
    {
      for i := 0 to MAX_PROCESSES
        invariant FindFrom(table[..], pid, 0) == FindFrom(table[..], pid, i)
      {
        if table[i].state != Unused && table[i].pid == pid { return i; }
      }
      return -1;
    }

    method ProcessCurrent() returns (slot: int)
      requires Valid()
      ensures slot == Current(View())
    {
      if currentPid < 0 { return -1; }
      slot := ProcessFind(currentPid);
    }

    method ProcessCreate(ppid: int) returns (pid: int)
      requires Valid()
      modifies this`nextPid, table
      ensures Valid() && (View(), pid) == Create(old(View()), ppid)
    {
      for i := 0 to MAX_PROCESSES
        invariant View() == old(View()) && FirstUnused(table[..], 0) == FirstUnused(table[..], i)
      {
        if table[i].state == Unused {
          table[i] := table[i].(pid := nextPid);
          nextPid := nextPid + 1;
          table[i] := table[i].(ppid := ppid, state := Ready, pageDir := 0, exitCode := 0, brk := 0,
                                htas := None, context := ZERO_CONTEXT);
          assert table[..] == old(table[..])[i := NewProcess(old(nextPid), ppid)];
          return table[i].pid;
        }
      }
      return -1;
    }

    method BaselineSelectNext() returns (next: int)
      requires Valid()
      modifies this`rrCursor
      ensures Valid() && (next, rrCursor) == BaselineNext(old(View()))
    {
      hide Current, FindFrom, Find, Cyclic;
      var current := ProcessCurrent();
      var candidate := -1;
      if current >= 0 && (table[current].state == Ready || table[current].state == Running) {
        candidate := current;
      }
      if current >= 0 { rrCursor := current; }
      var start := if rrCursor >= 0 then (rrCursor + 1) % MAX_PROCESSES else 0;
      for scanned := 0 to MAX_PROCESSES
        invariant View() == old(View()).(rrCursor := if current >= 0 then current else old(rrCursor))
        invariant ScanCyclic(table[..], start, MAX_PROCESSES, candidate)
               == ScanCyclic(table[..], start, MAX_PROCESSES - scanned, candidate)
      {
        var i := Cyclic(start, scanned);
        if i != candidate && (table[i].state == Ready || table[i].state == Running) {
          rrCursor := i;
          return i;
        }
      }
      if candidate >= 0 {
        rrCursor := current;
        return candidate;
      }
      rrCursor := -1;
      return -1;
    }

    method HtasSelectNext(onCpu: nat) returns (best: int)
      requires Valid()
      ensures best == HtasScan(table[..], onCpu, MAX_PROCESSES)
    {
      best := -1;
      var bestPriority: int := -1000;
      for i := 0 to MAX_PROCESSES
        invariant best == HtasScan(table[..], onCpu, i)
        invariant best >= 0 ==> bestPriority == Priority(table[best], onCpu)
      {
        if (table[i].state == Ready || table[i].state == Running) && CanRunOn(table[i], onCpu) {
          var priority := 0;
          if table[i].htas.Some? {
            var h := table[i].htas.value;
            priority := priority + h.boost;
            priority := priority + h.boostAging;
            if h.numaNode == NumaOfCpu(onCpu) { priority := priority + 5; }
          }
          if priority > bestPriority || best < 0 {
            bestPriority := priority;
            best := i;
          }
        }
      }
    }

    method AgeOthers(next: int)
      requires Valid()
      modifies table
      ensures View() == old(View()).(table := Aged(old(table[..]), next))
    {
      for i := 0 to MAX_PROCESSES
        invariant forall j :: 0 <= j < i ==> table[j] == Aged(old(table[..]), next)[j]
        invariant forall j :: i <= j < MAX_PROCESSES ==> table[j] == old(table[j])
      {
        if table[i].state == Ready && i != next && table[i].htas.Some? {
          var h := table[i].htas.value;
          h := h.(waitTime := (h.waitTime + 1) % WRAP);
          if h.waitTime > AGING_THRESHOLD { h := h.(boostAging := AGING_PRIORITY_BOOST); }
          table[i] := table[i].(htas := Some(h));
        }
      }
    }

    method PickNextProcess(current: nat) returns (next: nat)
      requires Valid() && current < MAX_PROCESSES
      modifies this, table
      ensures Valid() && (View(), next) == PickNext(old(View()), current)
    {
      if policy == Policy.Baseline {
        baseline := baseline.(ticks := baseline.ticks + 1);
      } else {
        htas := htas.(ticks := htas.ticks + 1);
      }
      var chosen;
      if policy == Policy.Baseline { chosen := BaselineSelectNext(); } else { chosen := HtasSelectNext(cpu); }
      if chosen < 0 { return current; }
      if policy == Policy.Htas { AgeOthers(chosen); }
      next := chosen;
    }

    method RecordSwitchTo(next: nat)
      requires Valid() && next < MAX_PROCESSES
      modifies this, table
      ensures Valid() && View() == RecordSwitch(old(View()), next)
    {
      var s := if policy == Policy.Baseline then baseline else htas;
      ghost var s0 := s;
      s := s.(switches := s.switches + 1);
      if table[next].htas.Some? {
        var h := table[next].htas.value;
        h := h.(waitTime := 0, boostAging := 0);
        h := h.(switches := h.switches + 1);
        table[next] := table[next].(htas := Some(h));
        var counts := s.intentSwitches;
        s := s.(intentSwitches := (i: Intent) => counts(i) + if i == h.intent then 1 else 0);
      }
      if IsPCore(cpu) {
        s := s.(power := s.power + 100, pcoreUs := s.pcoreUs + 10);
      } else {
        s := s.(power := s.power + 40, ecoreUs := s.ecoreUs + 10);
      }
      if policy == Policy.Baseline { baseline := s; } else { htas := s; }
      cpu := (cpu + 1) % NUM_CPUS;
    }

    /** process_schedule: `regs` is the interrupt frame on entry and `frame` the one returned into. */
    method ProcessSchedule(regs: Frame) returns (frame: Frame)
      requires Valid()
      modifies this, table
      ensures Valid() && (View(), frame) == Schedule(old(View()), regs)
    {
      frame := regs;
      var current := ProcessCurrent();
      if current < 0 { return; }
      if table[current].state == Running {
        table[current] := table[current].(context := table[current].context.(regs := regs.user));
        table[current] := table[current].(state := Ready);
      }
      assert View() == Saved(old(View()), current, regs);
      var next := PickNextProcess(current);
      if next == current {
        table[current] := table[current].(state := Running);
        return;
      }
      // A picked process other than the current one is READY or RUNNING, so the source's last check passes.
      RecordSwitchTo(next);
      currentPid := table[next].pid;
      table[next] := table[next].(state := Running);
      cr3 := table[next].pageDir;
      frame := frame.(user := table[next].context.regs);
    }

    method ProcessFork(parent: nat) returns (pid: int)
      requires Valid() && parent < MAX_PROCESSES
      modifies this`nextPid, table
      ensures Valid() && (View(), pid) == Fork(old(View()), parent)
    {
      pid := ProcessCreate(table[parent].pid);
      if pid < 0 { return -1; }
      var child := ProcessFind(pid);
      if child < 0 { return -1; }
      if table[parent].pageDir == 0 {
        table[child] := table[child].(state := Unused);
        return -1;
      }
      table[child] := table[child].(pageDir := table[parent].pageDir);
      table[child] := table[child].(context := table[parent].context);
      table[child] := table[child].(context := table[child].context.(regs := table[child].context.regs.(eax := 0)));
      table[child] := table[child].(brk := table[parent].brk, state := Ready);
      ghost var k1 := Create(old(View()), old(table[parent]).pid).0;
      assert table[..] == k1.table[child := table[child]];
    }

    method ForkCall(regs: Frame) returns (frame: Frame)
      requires Valid()
      modifies this`nextPid, table
      ensures Valid() && (View(), frame) == SysFork(old(View()), regs)
    {
      var parent := ProcessCurrent();
      var pid := -1;
      if parent >= 0 {
        table[parent] := table[parent].(context := Captured(regs));
        pid := ProcessFork(parent);
      }
      frame := regs.(user := regs.user.(eax := pid % WRAP));
    }

    /** run_user_and_wait up to the jump to user mode. */
    method LaunchUser(entry: Word, stack: Word) returns (pid: int)
      requires Valid()
      modifies this`nextPid, this`currentPid, table
      ensures Valid() && (View(), pid) == Launch(old(View()), entry, stack)
    {
      pid := ProcessCreate(0);
      if pid < 0 { return -1; }
      var i := ProcessFind(pid);
      if i < 0 { return -1; }
      ghost var k1 := View();
      table[i] := table[i].(pageDir := cr3);
      var regs := table[i].context.regs.(eip := entry, esp := stack, ebp := 0, eflags := USER_FLAGS);
      regs := regs.(cs := USER_CODE_SEGMENT, ss := USER_DATA_SEGMENT, ds := USER_DATA_SEGMENT);
      table[i] := table[i].(context := table[i].context.(regs := regs));
      table[i] := table[i].(state := Running);
      currentPid := pid;
      assert table[..] == k1.table[i := table[i]];
    }

    method ProcessDestroy(pid: int)
      requires Valid()
      modifies table
      ensures Valid() && View() == Destroy(old(View()), pid)
    {
      var i := ProcessFind(pid);
      if i < 0 { return; }
      table[i] := table[i].(pageDir := 0);
      table[i] := table[i].(state := Unused);
      assert table[..] == old(table[..])[i := old(table[i]).(pageDir := 0, state := Unused)];
    }

    method ProcessExit(code: int)
      requires Valid()
      modifies table
      ensures Valid() && View() == Exit(old(View()), code)
    {
      var current := ProcessCurrent();
      if current < 0 { return; }
      table[current] := table[current].(exitCode := code);
      table[current] := table[current].(state := Zombie);
      assert table[..] == old(table[..])[current := old(table[current]).(exitCode := code, state := Zombie)];
      if table[current].ppid > 0 {
        var parent := ProcessFind(table[current].ppid);
        if parent >= 0 && table[parent].state == Blocked {
          table[parent] := table[parent].(state := Ready);
        }
      }
    }
  }
}
