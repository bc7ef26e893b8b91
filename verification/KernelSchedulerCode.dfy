/** The scheduler's own code: the thread table is an array updated in place. */
module KernelSchedulerCode {
  import opened KernelScheduler

  class Scheduler {
    const th: array<Kthread>
    var current: int

    ghost predicate Valid()
      reads this, th
    {
      th.Length == MAX_THREADS && -1 <= current < MAX_THREADS
    }

    ghost function View(): Sched
      reads this, th
    {
      Sched(th[..], current)
    }

    /** The static storage before sched_init: every slot zero, no current thread. */
    constructor ()
      ensures Valid() && fresh(th)
      ensures View() == Sched(seq(MAX_THREADS, i => UNUSED_THREAD), -1)
    {
      th := new Kthread[MAX_THREADS](_ => UNUSED_THREAD);
      current := -1;
    }

    method SchedInit()
      requires Valid()
      modifies this, th
      ensures Valid() && View() == Initial()
    {
      for i := 0 to MAX_THREADS
        invariant forall j :: 0 <= j < i ==> th[j] == UNUSED_THREAD
      {
        th[i] := UNUSED_THREAD;
      }
      th[0] := th[0].(state := Running);
      current := 0;
      th[0] := th[0].(priority := BATCH, waitTicks := 0);
      RefillSlice(0);
    }

    method RefillSlice(tid: int)
      requires Valid()
      modifies th
      ensures View() == if 0 <= tid < MAX_THREADS
                        then old(View()).(th := old(th[..])[tid := Refilled(old(th[..])[tid])])
                        else old(View())
      ensures 0 <= tid < MAX_THREADS ==> th[tid].sliceLeft == [4, 6, 10, 18][th[tid].priority]
    {
      if tid < 0 || tid >= MAX_THREADS { return; }
      th[tid] := th[tid].(sliceLeft := Quantum(th[tid].priority));
    }

    method ApplyAging()
      requires Valid()
      modifies th
      ensures View() == old(View()).(th := Aged(old(th[..])))
    {
      for i := 1 to MAX_THREADS
        invariant forall j :: 0 <= j < i ==> th[j] == Aged(old(th[..]))[j]
        invariant forall j :: i <= j < MAX_THREADS ==> th[j] == old(th[j])
      {
        if th[i].state.Ready? && th[i].waitTicks >= AGING_THRESHOLD && th[i].priority > REALTIME {
          th[i] := th[i].(priority := th[i].priority - 1);
          th[i] := th[i].(waitTicks := 0);
          RefillSlice(i);
        }
      }
    }

    method FindNext() returns (best: int)
      requires Valid()
      ensures best == SelectNext(th[..])
    {
      best := -1;
      var bestPrio: int := PRIORITY_LEVELS;
      var bestWait: int := -1;
      ghost var s := th[..];
      for i := 1 to MAX_THREADS
        invariant best == Scan(s, i)
        invariant best >= 0 ==> bestPrio == s[best].priority && bestWait == s[best].waitTicks
      {
        if th[i].state.Ready? {
          var prio := th[i].priority;
          var wait := th[i].waitTicks;
          if best < 0 || prio < bestPrio || (prio == bestPrio && wait > bestWait) {
            best := i;
            bestPrio := prio;
            bestWait := wait;
          }
        }
      }
    }

    method SchedYield()
      requires Valid() && current >= 0
      modifies this, th
      ensures Valid() && View() == Yield(old(View()))
    {
      ApplyAging();
      var next := FindNext();
      if next < 0 || next == current { return; }
      var prev := current;
      th[prev] := th[prev].(state := Ready);
      th[prev] := th[prev].(waitTicks := 0);
      RefillSlice(prev);
      th[next] := th[next].(state := Running);
      th[next] := th[next].(waitTicks := 0);
      RefillSlice(next);
      current := next;
    }

    method SchedTick()
      requires Valid()
      modifies this, th
      ensures Valid() && View() == Tick(old(View()))
    {
      if current < 0 { return; }
      ghost var waited := Waited(th[..], current);
      for i := 1 to MAX_THREADS
        invariant forall j :: 0 <= j < i ==> th[j] == waited[j]
        invariant forall j :: i <= j < MAX_THREADS ==> th[j] == old(th[j])
        invariant current == old(current)
      {
        if i != current && th[i].state.Ready? {
          th[i] := th[i].(waitTicks := (th[i].waitTicks + 1) % 0x1_0000);
        }
      }
      assert th[..] == waited;
      if th[current].sliceLeft > 0 {
        th[current] := th[current].(sliceLeft := th[current].sliceLeft - 1);
      }
      ApplyAging();
      assert th[..] == Charged(old(View()));
      var next := FindNext();
      if next >= 0 && (th[next].priority < th[current].priority || th[current].sliceLeft == 0) {
        th[current] := th[current].(sliceLeft := Quantum(th[current].priority));
        SchedYield();
        return;
      }
      if th[current].sliceLeft == 0 {
        RefillSlice(current);
      }
    }

    method SchedSetPriority(pid: int, priority: int) returns (r: int)
      requires Valid()
      modifies th
      ensures r == 0 || r == -1
      ensures r == 0 <==>
        0 <= pid < MAX_THREADS && 0 <= priority < PRIORITY_LEVELS && !old(th[pid]).state.Unused?
      ensures View() == if r == 0 then SetPriority(old(View()), pid, priority) else old(View())
      ensures r == 0 ==>
        && th[pid] == Kthread(old(th[pid]).state, priority, [4, 6, 10, 18][priority], 0)
        && forall i :: 0 <= i < MAX_THREADS && i != pid ==> th[i] == old(th[i])
    {
      if pid < 0 || pid >= MAX_THREADS { return -1; }
      if priority < REALTIME || priority >= PRIORITY_LEVELS { return -1; }
      if th[pid].state.Unused? { return -1; }
      th[pid] := th[pid].(priority := priority);
      th[pid] := th[pid].(waitTicks := 0);
      RefillSlice(pid);
      return 0;
    }

    method KthreadCreate(stackAvailable: bool) returns (tid: int)
      requires Valid()
      modifies th
      ensures Valid() && View() == Create(old(View()), stackAvailable)
      ensures tid == if stackAvailable then FirstUnused(old(th[..]), 1) else -1
    {
      for i := 1 to MAX_THREADS
        invariant th[..] == old(th[..])
        invariant FirstUnused(th[..], 1) == FirstUnused(th[..], i)
      {
        if th[i].state.Unused? {
          if !stackAvailable { return -1; }
          th[i] := th[i].(state := Ready);
          th[i] := th[i].(priority := DEFAULT_PRIORITY);
          th[i] := th[i].(waitTicks := 0);
          RefillSlice(i);
          return i;
        }
      }
      return -1;
    }
  }
}
