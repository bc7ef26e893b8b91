/** The kernel-thread scheduler of kernel/sched/sched.c as a step machine on values: what one
    timer tick, one yield and one thread creation do to the table `th[]` and to `current`. */
module KernelScheduler {
  import opened Basics

  const MAX_THREADS := 16
  const AGING_THRESHOLD := 32
  const PRIORITY_LEVELS := 4
  const REALTIME: Priority := 0
  const DEFAULT_PRIORITY: Priority := 1
  const BATCH: Priority := 3

  type Priority = p: nat | p < PRIORITY_LEVELS

  datatype ThreadState = Unused | Ready | Running | Blocked

  datatype Kthread = Kthread(state: ThreadState, priority: Priority, sliceLeft: Byte, waitTicks: Half)

  datatype Sched = Sched(th: seq<Kthread>, current: int)

  /** The priority_quantum table. */
  function Quantum(p: Priority): Byte {
    match p case 0 => 4 case 1 => 6 case 2 => 10 case _ => 18
  }

  ghost predicate Shape(th: seq<Kthread>) {
    |th| == MAX_THREADS
  }

  predicate Candidate(th: seq<Kthread>, i: int) {
    1 <= i < |th| && th[i].state.Ready?
  }

  function Refilled(t: Kthread): Kthread {
    t.(sliceLeft := Quantum(t.priority))
  }

  /** One thread's share of apply_aging. */
  function AgedThread(t: Kthread): Kthread {
    if t.state.Ready? && t.waitTicks >= AGING_THRESHOLD && t.priority > REALTIME
    then Refilled(t.(priority := t.priority - 1, waitTicks := 0))
    else t
  }

  /** The table after apply_aging; slot 0 is never visited. */
  function Aged(th: seq<Kthread>): (r: seq<Kthread>)
    ensures |r| == |th|
    ensures forall i :: 0 <= i < |th| ==> r[i] == if i == 0 then th[i] else AgedThread(th[i])
  {
    seq(|th|, i requires 0 <= i < |th| => if i == 0 then th[i] else AgedThread(th[i]))
  }

  /** One thread's share of the waiting loop of sched_tick; `wait_ticks` is 16 bits wide. */
  function WaitedThread(t: Kthread): Kthread {
    if t.state.Ready? then t.(waitTicks := (t.waitTicks + 1) % 0x1_0000) else t
  }

  function Waited(th: seq<Kthread>, current: int): (r: seq<Kthread>)
    ensures |r| == |th|
    ensures forall i :: 0 <= i < |th| ==> r[i] == if i == 0 || i == current then th[i] else WaitedThread(th[i])
  {
    seq(|th|, i requires 0 <= i < |th| => if i == 0 || i == current then th[i] else WaitedThread(th[i]))
  }

  /** `a` is dispatched in preference to `b`: higher priority, then longer wait, then lower slot. */
  predicate Before(th: seq<Kthread>, a: int, b: int)
    requires 0 <= a < |th| && 0 <= b < |th|
  {
    || th[a].priority < th[b].priority
    || (th[a].priority == th[b].priority && th[a].waitTicks > th[b].waitTicks)
    || (th[a].priority == th[b].priority && th[a].waitTicks == th[b].waitTicks && a < b)
  }

  /** What select_next promises about its result: -1 when nothing is READY in slots 1.., and
      otherwise the READY slot that comes before every other one. */
  ghost predicate IsSelection(th: seq<Kthread>, n: int, r: int)
    requires 0 <= n <= |th|
  {
    if r == -1 then forall j :: 1 <= j < n ==> !Candidate(th, j)
    else
      && 1 <= r < n && Candidate(th, r)
      && forall j :: 1 <= j < n && Candidate(th, j) && j != r ==> Before(th, r, j)
  }

  /** The scan of select_next over slots 1..n-1. */
  function Scan(th: seq<Kthread>, n: nat): (r: int)
    requires n <= |th|
    ensures IsSelection(th, n, r)
  {
    if n <= 1 then -1
    else
      var best := Scan(th, n - 1);
      if Candidate(th, n - 1) && (best < 0 || Before(th, n - 1, best)) then n - 1 else best
  }

  function SelectNext(th: seq<Kthread>): (r: int)
    ensures IsSelection(th, |th|, r)
  {
    Scan(th, |th|)
  }

  /** The promise of select_next determines its result. */
  lemma SelectionUnique(th: seq<Kthread>, r: int, r': int)
    requires IsSelection(th, |th|, r) && IsSelection(th, |th|, r')
    ensures r == r'
  {
    if r != -1 { assert Candidate(th, r); }
    if r' != -1 { assert Candidate(th, r'); }
  }

  /** The second half of sched_yield: give the processor to `next`. */
  function Dispatch(s: Sched, next: int): Sched
    requires 0 <= s.current < |s.th| && 0 <= next < |s.th|
  {
    var th1 := s.th[s.current := Refilled(s.th[s.current].(state := Ready, waitTicks := 0))];
    Sched(th1[next := Refilled(th1[next].(state := Running, waitTicks := 0))], next)
  }

  function Yield(s: Sched): Sched
    requires 0 <= s.current < |s.th|
  {
    var th1 := Aged(s.th);
    var next := SelectNext(th1);
    if next < 0 || next == s.current then Sched(th1, s.current) else Dispatch(Sched(th1, s.current), next)
  }

  /** The table when sched_tick makes its decision: waits advanced, slice charged, aging applied. */
  function Charged(s: Sched): (r: seq<Kthread>)
    requires 0 <= s.current < |s.th|
    ensures |r| == |s.th|
  {
    var th1 := Waited(s.th, s.current);
    var t := th1[s.current];
    Aged(th1[s.current := t.(sliceLeft := if t.sliceLeft > 0 then t.sliceLeft - 1 else 0)])
  }

  function Tick(s: Sched): Sched
    requires s.current < |s.th|
  {
    if s.current < 0 then s
    else
      var th1 := Charged(s);
      var c := s.current;
      var next := SelectNext(th1);
      if next >= 0 && (th1[next].priority < th1[c].priority || th1[c].sliceLeft == 0)
      then Yield(Sched(th1[c := Refilled(th1[c])], c))
      else if th1[c].sliceLeft == 0 then Sched(th1[c := Refilled(th1[c])], c)
      else Sched(th1, c)
  }

  /** The first unused slot at or above `i`, or -1. */
  function FirstUnused(th: seq<Kthread>, i: nat): (r: int)
    requires i <= |th|
    ensures r == -1 ==> forall j :: i <= j < |th| ==> !th[j].state.Unused?
    ensures r != -1 ==> i <= r < |th| && th[r].state.Unused? && forall j :: i <= j < r ==> !th[j].state.Unused?
    decreases |th| - i
  {
    if i == |th| then -1 else if th[i].state.Unused? then i else FirstUnused(th, i + 1)
  }

  const FRESH_THREAD := Kthread(Ready, DEFAULT_PRIORITY, Quantum(DEFAULT_PRIORITY), 0)

  /** kthread_create; `stackAvailable` says whether the kernel heap had room for the stack. */
  function Create(s: Sched, stackAvailable: bool): Sched
    requires Shape(s.th)
  {
    var i := FirstUnused(s.th, 1);
    if i < 0 || !stackAvailable then s else s.(th := s.th[i := FRESH_THREAD])
  }

  /** sched_set_priority, when it accepts its arguments. */
  function SetPriority(s: Sched, pid: nat, p: Priority): Sched
    requires pid < |s.th|
  {
    s.(th := s.th[pid := Refilled(s.th[pid].(priority := p, waitTicks := 0))])
  }

  const UNUSED_THREAD := Kthread(Unused, REALTIME, 0, 0)

  function Initial(): Sched {
    Sched(seq(MAX_THREADS, i => if i == 0 then Kthread(Running, BATCH, Quantum(BATCH), 0) else UNUSED_THREAD), 0)
  }
}
