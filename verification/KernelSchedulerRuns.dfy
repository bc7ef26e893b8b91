/** Safety, bounded starvation and exact slices over every run of timer ticks, yields, thread creations and
    priority changes of waiting threads. */
module KernelSchedulerRuns {
  import opened KernelScheduler

  /** The longest a priority-0 thread can wait: up to 14 others with quantum 4 go first, plus one tick. */
  const MAX_WAIT := 57

  /** Only READY threads are reprioritised here; what priority changes do to the running one is shown at the
      end. */
  datatype Event = TimerTick | VoluntaryYield | ThreadCreate(stackAvailable: bool)
                 | Reprioritise(pid: int, priority: Priority)

  /** The READY real-time threads that will be dispatched before thread `i`. */
  ghost function Ahead(th: seq<Kthread>, i: int): set<int>
    requires 0 <= i < |th|
  {
    set j | 1 <= j < |th| && j != i && th[j].state.Ready? && th[j].priority == REALTIME && Before(th, j, i)
  }

  /** How long the current thread can still keep a READY real-time thread from being dispatched. */
  ghost function Occupied(t: Kthread): nat {
    if t.priority == REALTIME then t.sliceLeft else 1
  }

  ghost function Remaining(s: Sched, i: int): nat
    requires 0 <= i < |s.th| && 0 <= s.current < |s.th|
  {
    Occupied(s.th[s.current]) + 4 * |Ahead(s.th, i)|
  }

  /** Exactly one thread is RUNNING and it is `current`; its slice is not used up. Slot 0 is the
      bootstrap thread, which keeps the lowest priority. */
  ghost predicate OneRunning(s: Sched) {
    && Shape(s.th)
    && 0 <= s.current < MAX_THREADS
    && (forall i :: 0 <= i < MAX_THREADS ==> (s.th[i].state.Running? <==> i == s.current))
    && 1 <= s.th[s.current].sliceLeft <= Quantum(s.th[s.current].priority)
    && s.th[0].priority == BATCH
    && (s.current != 0 ==> s.th[0].state.Ready?)
  }

  ghost predicate WaitBounded(s: Sched, i: int)
    requires OneRunning(s) && 0 <= i < MAX_THREADS
  {
    if s.th[i].priority > REALTIME then s.th[i].waitTicks < AGING_THRESHOLD
    else s.th[i].waitTicks + Remaining(s, i) <= MAX_WAIT
  }

  ghost predicate Inv(s: Sched) {
    && OneRunning(s)
    && forall i :: Candidate(s.th, i) ==> WaitBounded(s, i)
  }

  function Step(s: Sched, e: Event): Sched
    requires Shape(s.th) && 0 <= s.current < MAX_THREADS
  {
    match e
    case TimerTick => Tick(s)
    case VoluntaryYield => Yield(s)
    case ThreadCreate(ok) => Create(s, ok)
    case Reprioritise(pid, p) => if Candidate(s.th, pid) then SetPriority(s, pid, p) else s
  }

  ghost function Run(s: Sched, es: seq<Event>): (r: Sched)
    requires Inv(s)
    ensures Inv(r)
    decreases |es|
  {
    if es == [] then s
    else
      var t := Run(s, es[..|es| - 1]);
      StepKeepsInv(t, es[|es| - 1]);
      Step(t, es[|es| - 1])
  }

  function Ticks(es: seq<Event>): nat {
    if es == [] then 0 else Ticks(es[..|es| - 1]) + if es[|es| - 1].TimerTick? then 1 else 0
  }

  // ---- Counting the threads that can be ahead ----

  lemma SubsetCard<T>(a: set<T>, b: set<T>)
    requires a <= b
    ensures |a| <= |b|
  {
    assert b == a + (b - a);
  }

  /** The slots 1..n-1. */
  ghost function Slots(n: nat): (r: set<int>)
    ensures forall j :: j in r <==> 1 <= j < n
    ensures n > 0 ==> |r| == n - 1
  {
    if n <= 1 then {} else Slots(n - 1) + {n - 1}
  }

  lemma AheadCard(th: seq<Kthread>, i: int, current: int)
    requires 1 <= i < |th| && 0 <= current < |th| && i != current
    requires !th[current].state.Ready? || current == 0
    ensures |Ahead(th, i)| <= |th| - 2 - if current == 0 then 0 else 1
  {
    var others := Slots(|th|) - {i};
    assert |others| == |th| - 2;
    if current != 0 {
      assert current in others;
      assert |others - {current}| == |th| - 3;
      SubsetCard(Ahead(th, i), others - {current});
    } else {
      SubsetCard(Ahead(th, i), others);
    }
  }

  /** A thread in slots 1..15 has at most 57 ticks of competitors in front of it. */
  lemma RemainingBound(s: Sched, i: int)
    requires OneRunning(s) && 1 <= i < MAX_THREADS && i != s.current
    ensures Remaining(s, i) <= MAX_WAIT
  {
    AheadCard(s.th, i, s.current);
  }

  // ---- One dispatch ----

  /** Aging finds nothing to do between ticks. */
  lemma AgingIdle(s: Sched)
    requires Shape(s.th)
    requires forall i :: Candidate(s.th, i) && s.th[i].priority > REALTIME ==> s.th[i].waitTicks < AGING_THRESHOLD
    ensures Aged(s.th) == s.th
  {
    forall i | 0 <= i < MAX_THREADS ensures Aged(s.th)[i] == s.th[i] {
      if i > 0 { assert Candidate(s.th, i) || !s.th[i].state.Ready?; }
    }
  }

  /** Handing the processor over takes the new thread out of everyone's way; the old one goes to the
      back, provided the waiting thread has already waited a tick. */
  lemma DispatchShrinksAhead(s: Sched, next: int, i: int)
    requires Shape(s.th) && 0 <= s.current < MAX_THREADS && s.current != next
    requires IsSelection(s.th, MAX_THREADS, next) && Candidate(s.th, i) && i != next && i != s.current
    requires s.th[i].priority == REALTIME && s.th[i].waitTicks > 0
    ensures |Ahead(Dispatch(s, next).th, i)| < |Ahead(s.th, i)|
    ensures Dispatch(s, next).th[next].priority == REALTIME
  {
    assert Before(s.th, next, i);
    assert next in Ahead(s.th, i);
    SubsetCard(Ahead(Dispatch(s, next).th, i), Ahead(s.th, i) - {next});
  }

  lemma DispatchKeepsOneRunning(s: Sched, next: int)
    requires Shape(s.th) && 0 <= s.current < MAX_THREADS && s.current != next && Candidate(s.th, next)
    requires forall i :: 0 <= i < MAX_THREADS ==> (s.th[i].state.Running? <==> i == s.current)
    requires s.th[0].priority == BATCH && (s.current != 0 ==> s.th[0].state.Ready?)
    ensures OneRunning(Dispatch(s, next))
  {
  }

  /** After a dispatch the wait bound holds of thread `i`, whatever was left of the old slice. */
  lemma DispatchKeepsWaitBound(s: Sched, next: int, i: int)
    requires Shape(s.th) && 0 <= s.current < MAX_THREADS && s.current != next
    requires forall j :: 0 <= j < MAX_THREADS ==> (s.th[j].state.Running? <==> j == s.current)
    requires s.th[0].priority == BATCH && (s.current != 0 ==> s.th[0].state.Ready?)
    requires IsSelection(s.th, MAX_THREADS, next) && Candidate(s.th, next)
    requires Candidate(Dispatch(s, next).th, i)
    requires i != s.current && s.th[i].priority > REALTIME ==> s.th[i].waitTicks < AGING_THRESHOLD
    requires i != s.current && s.th[i].priority == REALTIME && s.th[i].waitTicks > 0 ==>
               s.th[i].waitTicks + 4 * |Ahead(s.th, i)| <= MAX_WAIT
    ensures OneRunning(Dispatch(s, next)) && WaitBounded(Dispatch(s, next), i)
  {
    var d := Dispatch(s, next);
    DispatchKeepsOneRunning(s, next);
    if d.th[i].priority == REALTIME {
      if d.th[i].waitTicks == 0 {
        RemainingBound(d, i);
      } else {
        DispatchShrinksAhead(s, next, i);
      }
    }
  }

  // ---- The three events ----

  lemma YieldKeepsInv(s: Sched)
    requires Inv(s)
    ensures Inv(Yield(s))
  {
    AgingIdle(s);
    var next := SelectNext(s.th);
    if next >= 0 {
      DispatchKeepsOneRunning(s, next);
      forall i | Candidate(Yield(s).th, i) ensures WaitBounded(Yield(s), i) {
        assert i != s.current ==> Candidate(s.th, i);
        DispatchKeepsWaitBound(s, next, i);
      }
    }
  }

  lemma CreateKeepsInv(s: Sched, ok: bool)
    requires Inv(s)
    ensures Inv(Create(s, ok))
  {
    var c := Create(s, ok);
    forall i | Candidate(c.th, i) ensures WaitBounded(c, i) {
      if c.th[i] != FRESH_THREAD {
        assert Candidate(s.th, i);
        assert Ahead(c.th, i) == Ahead(s.th, i);
      }
    }
  }

  /** A waiting thread that gets a new priority starts to wait anew, so it comes before nobody who has waited. */
  lemma ReprioritiseKeepsInv(s: Sched, pid: int, p: Priority)
    requires Inv(s) && Candidate(s.th, pid)
    ensures Inv(SetPriority(s, pid, p))
  {
    var t := SetPriority(s, pid, p);
    forall i | Candidate(t.th, i) ensures WaitBounded(t, i) {
      assert Candidate(s.th, i) && WaitBounded(s, i);
      if t.th[i].priority == REALTIME {
        if t.th[i].waitTicks == 0 {
          RemainingBound(t, i);
        } else {
          SubsetCard(Ahead(t.th, i), Ahead(s.th, i));
        }
      }
    }
  }

  /** What the waiting loop and aging do to one READY thread when waits are in bounds. */
  lemma ChargedThread(s: Sched, i: int)
    requires Inv(s) && Candidate(s.th, i)
    ensures Candidate(Charged(s), i)
    ensures var t, u := s.th[i], Charged(s)[i];
            if t.priority == REALTIME then u.priority == REALTIME && u.waitTicks == t.waitTicks + 1
            else if t.waitTicks + 1 < 32 then u.priority == t.priority && u.waitTicks == t.waitTicks + 1
            else u.priority == t.priority - 1 && u.waitTicks == 0
  {
    assert WaitBounded(s, i);
  }

  lemma ChargedShape(s: Sched)
    requires Inv(s)
    ensures var th := Charged(s);
      && (forall i :: 0 <= i < MAX_THREADS ==> th[i].state == s.th[i].state)
      && th[s.current] == s.th[s.current].(sliceLeft := s.th[s.current].sliceLeft - 1)
      && th[0].priority == BATCH
      && (forall i :: Candidate(th, i) && th[i].priority > REALTIME ==> th[i].waitTicks < AGING_THRESHOLD)
  {
    var th := Charged(s);
    assert forall i :: 0 <= i < MAX_THREADS ==> th[i].state == s.th[i].state;
    forall i | Candidate(th, i) && th[i].priority > REALTIME ensures th[i].waitTicks < AGING_THRESHOLD {
      assert Candidate(s.th, i);
      ChargedThread(s, i);
    }
  }

  /** Nobody moves ahead of a thread that was already real-time before the tick. */
  lemma ChargedAhead(s: Sched, i: int)
    requires Inv(s) && Candidate(s.th, i) && s.th[i].priority == REALTIME
    ensures |Ahead(Charged(s), i)| <= |Ahead(s.th, i)|
  {
    var th := Charged(s);
    ChargedThread(s, i);
    ChargedShape(s);
    forall j | j in Ahead(th, i) ensures j in Ahead(s.th, i) {
      assert Candidate(s.th, j);
      ChargedThread(s, j);
    }
    SubsetCard(Ahead(th, i), Ahead(s.th, i));
  }

  /** The tick as a case distinction that no longer mentions the second round of aging. */
  lemma TickCases(s: Sched)
    requires Inv(s)
    ensures var th, c := Charged(s), s.current;
            var next := SelectNext(th);
            var refilled := Sched(th[c := Refilled(th[c])], c);
            Tick(s) == if next >= 0 && (th[next].priority < th[c].priority || th[c].sliceLeft == 0)
                       then Dispatch(refilled, next)
                       else if th[c].sliceLeft == 0 then refilled
                       else Sched(th, c)
    ensures SelectNext(Charged(s)) != s.current
  {
    ChargedShape(s);
    var th, c := Charged(s), s.current;
    var next := SelectNext(th);
    var refilled := Sched(th[c := Refilled(th[c])], c);
    forall i | Candidate(refilled.th, i) ensures Candidate(th, i) && refilled.th[i] == th[i] {}
    AgingIdle(refilled);
    var again := SelectNext(refilled.th);
    assert IsSelection(th, |th|, again) by {
      assert again != -1 ==> Candidate(refilled.th, again) && Candidate(th, again);
      forall j | 1 <= j < |th| && Candidate(th, j) ensures Candidate(refilled.th, j) && refilled.th[j] == th[j] {}
    }
    SelectionUnique(th, next, again);
  }

  lemma TickKeepsInv(s: Sched)
    requires Inv(s)
    ensures Inv(Tick(s))
  {
    TickCases(s);
    var th, c := Charged(s), s.current;
    var next := SelectNext(th);
    if next >= 0 && (th[next].priority < th[c].priority || th[c].sliceLeft == 0) {
      TickDispatches(s, next);
    } else {
      TickContinues(s, next);
    }
  }

  lemma TickDispatches(s: Sched, next: int)
    requires Inv(s) && next == SelectNext(Charged(s)) && Candidate(Charged(s), next) && next != s.current
    ensures var th, c := Charged(s), s.current;
      Inv(Dispatch(Sched(th[c := Refilled(th[c])], c), next))
  {
    ChargedShape(s);
    var th, c := Charged(s), s.current;
    var refilled := Sched(th[c := Refilled(th[c])], c);
    var t := Dispatch(refilled, next);
    SameSelection(th, refilled.th, c, next);
    DispatchKeepsOneRunning(refilled, next);
    forall i | Candidate(t.th, i) ensures WaitBounded(t, i) {
      if i != c {
        assert Candidate(s.th, i) && Candidate(th, i) && refilled.th[i] == th[i];
        ChargedWait(s, i);
        assert Ahead(refilled.th, i) == Ahead(th, i);
      }
      DispatchKeepsWaitBound(refilled, next, i);
    }
  }

  lemma TickContinues(s: Sched, next: int)
    requires Inv(s) && next == SelectNext(Charged(s))
    requires var th, c := Charged(s), s.current;
      !(next >= 0 && (th[next].priority < th[c].priority || th[c].sliceLeft == 0))
    ensures var th, c := Charged(s), s.current;
      Inv(Sched(if th[c].sliceLeft == 0 then th[c := Refilled(th[c])] else th, c))
  {
    ChargedShape(s);
    var th, c := Charged(s), s.current;
    var t := Sched(if th[c].sliceLeft == 0 then th[c := Refilled(th[c])] else th, c);
    assert OneRunning(t);
    forall i | Candidate(t.th, i) ensures WaitBounded(t, i) {
      assert Candidate(s.th, i) && Candidate(th, i) && t.th[i] == th[i];
      assert next >= 0 && (next == i || Before(th, next, i));
      assert Ahead(t.th, i) == Ahead(th, i);
      ChargedWait(s, i);
      if t.th[i].waitTicks == 0 { RemainingBound(t, i); }
    }
  }

  /** Refilling the running thread's slice changes neither the candidates nor the selection. */
  lemma SameSelection(th: seq<Kthread>, th': seq<Kthread>, c: int, next: int)
    requires Shape(th) && Shape(th') && 0 <= c < MAX_THREADS && th'[c].state == th[c].state && !th[c].state.Ready?
    requires forall i :: 0 <= i < MAX_THREADS && i != c ==> th'[i] == th[i]
    requires IsSelection(th, MAX_THREADS, next)
    ensures IsSelection(th', MAX_THREADS, next)
  {
    forall j | 1 <= j < MAX_THREADS && Candidate(th', j) ensures Candidate(th, j) && j != c {}
    if next != -1 { assert Candidate(th, next); }
  }

  /** A waiting real-time thread pays for its tick out of what remained. */
  lemma ChargedWait(s: Sched, i: int)
    requires Inv(s) && Candidate(s.th, i)
    ensures Candidate(Charged(s), i)
    ensures var th := Charged(s);
      th[i].priority == REALTIME && th[i].waitTicks > 0 ==>
        th[i].waitTicks + Occupied(s.th[s.current]) - 1 + 4 * |Ahead(th, i)| <= MAX_WAIT
    ensures Charged(s)[i].priority == REALTIME && Charged(s)[i].waitTicks == 0 ==> s.th[i].priority == 1
  {
    ChargedThread(s, i);
    assert WaitBounded(s, i);
    if s.th[i].priority == REALTIME {
      ChargedAhead(s, i);
    }
  }

  lemma StepKeepsInv(s: Sched, e: Event)
    requires Inv(s)
    ensures Inv(Step(s, e))
  {
    match e
    case TimerTick => TickKeepsInv(s);
    case VoluntaryYield => YieldKeepsInv(s);
    case ThreadCreate(ok) => CreateKeepsInv(s, ok);
    case Reprioritise(pid, p) => if Candidate(s.th, pid) { ReprioritiseKeepsInv(s, pid, p); }
  }

  /** Every selection: the highest priority (lowest number) among the READY threads of slots 1..15, among
      equals the longest wait, and then the lowest slot. */
  lemma SelectsFirst(th: seq<Kthread>)
    requires |th| == 16
    ensures var r := SelectNext(th);
      if r < 0 then forall j :: 1 <= j < 16 ==> !th[j].state.Ready?
      else
        && 1 <= r < 16 && th[r].state.Ready?
        && forall j :: 1 <= j < 16 && th[j].state.Ready? ==>
             && th[r].priority <= th[j].priority
             && (th[r].priority == th[j].priority ==> th[r].waitTicks >= th[j].waitTicks)
             && (th[r].priority == th[j].priority && th[r].waitTicks == th[j].waitTicks ==> r <= j)
  {
    var r := SelectNext(th);
    forall j | 1 <= j < 16 && th[j].state.Ready? ensures r >= 0 && (j == r || Before(th, r, j)) {
      assert Candidate(th, j);
    }
  }

  /** Slot 0 starts as a RUNNING batch thread, a new thread as a waiting interactive one, in the lowest free
      slot, if there is one and the heap has room. */
  lemma ThreadsStart(s: Sched, stackAvailable: bool)
    requires |s.th| == 16
    ensures var b := Initial();
      && |b.th| == 16 && b.current == 0 && b.th[0].state.Running? && b.th[0].priority == 3 && b.th[0].sliceLeft == 18
      && forall i :: 1 <= i < 16 ==> b.th[i].state.Unused?
    ensures var t := Create(s, stackAvailable);
      && t.current == s.current && |t.th| == 16
      && forall i :: 0 <= i < 16 ==>
           if stackAvailable && i > 0 && s.th[i].state.Unused? && (forall j :: 1 <= j < i ==> !s.th[j].state.Unused?)
           then t.th[i].state.Ready? && t.th[i].priority == 1 && t.th[i].waitTicks == 0
           else t.th[i] == s.th[i]
  {
  }

  // ---- Whole runs ----

  lemma InitialInv()
    ensures Inv(Initial())
  {
    assert forall i :: !Candidate(Initial().th, i);
  }

  /** In every reachable state exactly one thread is RUNNING, it is `current`, its slice is between 1
      and its quantum, and the 16-bit wait counters stay far from wrapping. */
  lemma ReachableSafe(es: seq<Event>)
    ensures Inv(Initial())
    ensures var s := Run(Initial(), es);
      && OneRunning(s)
      && (forall i :: Candidate(s.th, i) && s.th[i].priority > REALTIME ==> s.th[i].waitTicks < 32)
      && (forall i :: Candidate(s.th, i) ==> s.th[i].waitTicks < 57)
  {
    InitialInv();
    var s := Run(Initial(), es);
    forall i | Candidate(s.th, i)
      ensures s.th[i].priority > REALTIME ==> s.th[i].waitTicks < AGING_THRESHOLD
      ensures s.th[i].waitTicks < MAX_WAIT
    {
      assert WaitBounded(s, i);
    }
  }

  /** The event does not change the priority of thread `i` itself. */
  predicate Spares(e: Event, i: int) {
    e.Reprioritise? ==> e.pid != i
  }

  ghost predicate Spared(es: seq<Event>, i: int) {
    forall j :: 0 <= j < |es| ==> Spares(es[j], i)
  }

  /** The most ticks a READY thread still has to wait. */
  ghost function Patience(t: Kthread): int {
    AGING_THRESHOLD * t.priority + MAX_WAIT - t.waitTicks
  }

  /** A READY thread is dispatched, or it stays READY and every tick costs exactly one unit of patience. */
  lemma StepPatience(s: Sched, e: Event, i: int)
    requires Inv(s) && Candidate(s.th, i) && Spares(e, i)
    ensures var u := Step(s, e).th[i];
      || u.state.Running?
      || (u.state.Ready? && Patience(u) == Patience(s.th[i]) - if e.TimerTick? then 1 else 0)
  {
    assert WaitBounded(s, i);
    match e
    case TimerTick => TickCases(s); ChargedThread(s, i);
    case VoluntaryYield => AgingIdle(s);
    case _ =>
  }

  /** Thread `i` has the processor after the first `k` events. */
  ghost predicate RunningAt(s: Sched, es: seq<Event>, i: int, k: nat)
    requires Inv(s) && 0 <= i < MAX_THREADS && k <= |es|
  {
    Run(s, es[..k]).th[i].state.Running?
  }

  lemma {:induction false} PatienceOverRun(s: Sched, es: seq<Event>, i: int)
    requires Inv(s) && Candidate(s.th, i) && Spared(es, i)
    requires forall k :: 0 <= k <= |es| ==> !RunningAt(s, es, i, k)
    ensures Candidate(Run(s, es).th, i)
    ensures Patience(Run(s, es).th[i]) == Patience(s.th[i]) - Ticks(es)
    ensures Ticks(es) < Patience(s.th[i])
    decreases |es|
  {
    assert es[..|es|] == es && !RunningAt(s, es, i, |es|);
    if es != [] {
      var init := es[..|es| - 1];
      forall k | 0 <= k <= |init| ensures !RunningAt(s, init, i, k) {
        assert init[..k] == es[..k] && !RunningAt(s, es, i, k);
      }
      PatienceOverRun(s, init, i);
      StepPatience(Run(s, init), es[|es| - 1], i);
    }
    assert WaitBounded(Run(s, es), i);
  }

  /** Bounded starvation: in every run of ticks, yields, creations and priority changes of other waiting
      threads, a READY thread of slots 1..15 with priority p is RUNNING at some moment within 32 * p + 57
      ticks. */
  lemma BoundedStarvation(s: Sched, es: seq<Event>, i: int)
    requires Inv(s) && 1 <= i < 16 && s.th[i].state.Ready? && Spared(es, i)
    requires Ticks(es) >= 32 * s.th[i].priority + 57
    ensures exists k :: 0 <= k <= |es| && RunningAt(s, es, i, k) && Ticks(es[..k]) <= 32 * s.th[i].priority + 57
  {
    var k := RunningWithin(s, es, i, 32 * s.th[i].priority + 57);
  }

  lemma RunningWithin(s: Sched, es: seq<Event>, i: int, bound: nat) returns (k: nat)
    requires Inv(s) && Candidate(s.th, i) && Spared(es, i)
    requires bound == AGING_THRESHOLD * s.th[i].priority + MAX_WAIT <= Ticks(es)
    ensures k <= |es| && RunningAt(s, es, i, k) && Ticks(es[..k]) <= bound
  {
    hide Inv, Run, Ticks;
    var cut := CutAt(es, bound);
    k := SomeRunningAt(s, es[..cut], i);
    TicksMonotone(es[..cut], k);
    assert es[..cut][..k] == es[..k];
  }

  lemma SomeRunningAt(s: Sched, es: seq<Event>, i: int) returns (k: nat)
    requires Inv(s) && Candidate(s.th, i) && Spared(es, i)
    requires Ticks(es) >= AGING_THRESHOLD * s.th[i].priority + MAX_WAIT
    ensures k <= |es| && RunningAt(s, es, i, k)
  {
    if k' :| 0 <= k' <= |es| && RunningAt(s, es, i, k') {
      k := k';
    } else {
      PatienceOverRun(s, es, i);
      assert false;
    }
  }

  lemma {:induction false} TicksMonotone(es: seq<Event>, k: nat)
    requires k <= |es|
    ensures Ticks(es[..k]) <= Ticks(es)
    decreases |es|
  {
    if k == |es| {
      assert es[..k] == es;
    } else {
      TicksMonotone(es[..|es| - 1], k);
      assert es[..|es| - 1][..k] == es[..k];
    }
  }

  /** Some prefix of the run contains exactly `n` ticks. */
  lemma {:induction false} CutAt(es: seq<Event>, n: nat) returns (cut: nat)
    requires Ticks(es) >= n
    ensures cut <= |es| && Ticks(es[..cut]) == n
    decreases |es|
  {
    if Ticks(es) == n {
      cut := |es|;
      assert es[..cut] == es;
    } else {
      cut := CutAt(es[..|es| - 1], n);
      assert es[..|es| - 1][..cut] == es[..cut];
    }
  }

  /** The bound cannot be extended to slot 0: once the bootstrap thread has lost the processor it stays
      READY and is never dispatched again, however long the run. */
  lemma {:induction false} BootstrapNeverResumes(s: Sched, es: seq<Event>)
    requires Inv(s) && s.current != 0
    ensures Run(s, es).current != 0 && Run(s, es).th[0].state.Ready?
    decreases |es|
  {
    if es != [] {
      BootstrapNeverResumes(s, es[..|es| - 1]);
      var t := Run(s, es[..|es| - 1]);
      match es[|es| - 1]
      case TimerTick => TickCases(t);
      case VoluntaryYield => AgingIdle(t);
      case _ =>
    }
  }

  // ---- Time slices ----

  /** How many ticks a thread of priority `p` runs when others of its priority wait. */
  function Slice(p: Priority): nat {
    [4, 6, 10, 18][p]
  }

  ghost function AllTicks(n: nat): (es: seq<Event>)
    ensures |es| == n
  {
    seq(n, _ => TimerTick)
  }

  lemma TickMore(s: Sched, k: nat)
    requires Inv(s)
    ensures Run(s, AllTicks(k + 1)) == Tick(Run(s, AllTicks(k)))
  {
    assert AllTicks(k + 1)[..k] == AllTicks(k);
  }

  /** Only peers wait: threads of priority `p`, none of which gets old within `n` ticks. */
  ghost predicate PeersWait(th: seq<Kthread>, p: Priority, n: nat) {
    && (exists i :: Candidate(th, i))
    && forall i :: Candidate(th, i) ==> th[i].priority == p && (p > 0 ==> th[i].waitTicks + n < 32)
  }

  /** After `k` ticks of the slice. */
  ghost predicate Within(s: Sched, c: int, p: Priority, k: nat) {
    && Inv(s) && s.current == c && s.th[c].priority == p && k < Slice(p)
    && s.th[c].sliceLeft == Slice(p) - k && PeersWait(s.th, p, Slice(p) - k)
  }

  lemma TickWithin(s: Sched, c: int, p: Priority, k: nat)
    requires Within(s, c, p, k)
    ensures if k + 1 < Slice(p) then Within(Tick(s), c, p, k + 1) else Tick(s).current != c
  {
    TickCases(s);
    TickKeepsInv(s);
    ChargedShape(s);
    var th, next := Charged(s), SelectNext(Charged(s));
    forall i ensures Candidate(th, i) <==> Candidate(s.th, i) {
    }
    forall i | Candidate(th, i) ensures th[i].priority == p && (p > 0 ==> th[i].waitTicks == s.th[i].waitTicks + 1) {
      ChargedThread(s, i);
    }
    var i :| Candidate(s.th, i);
    assert Candidate(th, i) && Candidate(th, next);
  }

  lemma {:induction false} TicksWithin(s: Sched, c: int, p: Priority, k: nat)
    requires Within(s, c, p, 0) && k < Slice(p)
    ensures Within(Run(s, AllTicks(k)), c, p, k)
  {
    hide Within, Tick;
    if k == 0 {
      assert AllTicks(0) == [];
      WithinSound(s, c, p, 0);
    } else {
      TicksWithin(s, c, p, k - 1);
      WithinSound(s, c, p, 0);
      TickMore(s, k - 1);
      TickWithin(Run(s, AllTicks(k - 1)), c, p, k - 1);
    }
  }

  /** The event handed the processor over, and now only peers of the new thread wait. */
  ghost predicate Dispatched(s0: Sched, e: Event, p: Priority) {
    && Inv(s0) && Step(s0, e).current != s0.current
    && Step(s0, e).th[Step(s0, e).current].priority == p && PeersWait(Step(s0, e).th, p, Slice(p))
  }

  /** The slice is exact: a thread just dispatched keeps the processor among its peers for fewer than 4, 6,
      10 or 18 ticks by its priority, and loses it at exactly that tick. */
  lemma SliceIsExact(s0: Sched, e: Event, p: Priority, k: nat)
    requires Dispatched(s0, e, p) && k <= [4, 6, 10, 18][p]
    ensures var s := Step(s0, e);
      Inv(s) && (Run(s, AllTicks(k)).current == s.current <==> k < [4, 6, 10, 18][p])
  {
    StepKeepsInv(s0, e);
    FreshSlice(s0, e, p);
    SliceFrom(Step(s0, e), Step(s0, e).current, p, k);
  }

  lemma SliceFrom(s: Sched, c: int, p: Priority, k: nat)
    requires Within(s, c, p, 0) && k <= Slice(p)
    ensures Inv(s) && (Run(s, AllTicks(k)).current == c <==> k < Slice(p))
  {
    hide Within, Tick, Inv, Run;
    WithinSound(s, c, p, 0);
    if k < Slice(p) {
      TicksWithin(s, c, p, k);
      WithinSound(Run(s, AllTicks(k)), c, p, k);
    } else {
      TicksWithin(s, c, p, k - 1);
      TickMore(s, k - 1);
      TickWithin(Run(s, AllTicks(k - 1)), c, p, k - 1);
    }
  }

  lemma WithinSound(s: Sched, c: int, p: Priority, k: nat)
    requires Within(s, c, p, k)
    ensures Inv(s) && s.current == c
  {
  }

  lemma FreshSlice(s0: Sched, e: Event, p: Priority)
    requires Dispatched(s0, e, p)
    ensures Within(Step(s0, e), Step(s0, e).current, p, 0)
  {
    StepKeepsInv(s0, e);
    match e
    case TimerTick => TickCases(s0);
    case VoluntaryYield => AgingIdle(s0);
    case _ =>
  }

  // ---- Changing priorities ----

  /** `n` rounds in which the running thread is made real-time just before each tick. */
  ghost function Favoured(s: Sched, n: nat): (r: Sched)
    requires Shape(s.th) && 0 <= s.current < MAX_THREADS
    ensures Shape(r.th)
  {
    if n == 0 then s
    else
      var t := Favoured(s, n - 1);
      if t.current < 0 || t.current >= MAX_THREADS then t else Tick(SetPriority(t, t.current, REALTIME))
  }

  /** sched_set_priority refills the slice, so with it among the events no bound on starvation holds at
      all: a thread that is set to real-time before every tick keeps the processor for any number of
      ticks, whoever is waiting. */
  lemma {:induction false} FavouriteKeepsProcessor(s: Sched, n: nat)
    requires OneRunning(s)
    ensures Favoured(s, n).current == s.current
    ensures forall i :: 0 <= i < MAX_THREADS ==> Favoured(s, n).th[i].state == s.th[i].state
    decreases n
  {
    hide Tick, SetPriority;
    if n > 0 {
      FavouriteKeepsProcessor(s, n - 1);
      FavouredTick(Favoured(s, n - 1));
    }
  }

  lemma FavouredTick(s: Sched)
    requires Shape(s.th) && 0 <= s.current < MAX_THREADS && s.th[s.current].state.Running?
    ensures var t := Tick(SetPriority(s, s.current, REALTIME));
      t.current == s.current && Shape(t.th) && forall i :: 0 <= i < MAX_THREADS ==> t.th[i].state == s.th[i].state
  {
    hide Yield, SelectNext, Aged, Waited;
    var u := SetPriority(s, s.current, REALTIME);
    ChargedRunning(u);
    var next := SelectNext(Charged(u));
    assert Tick(u) == Sched(Charged(u), s.current);
  }

  lemma ChargedRunning(s: Sched)
    requires Shape(s.th) && 0 <= s.current < MAX_THREADS && s.th[s.current].state.Running?
    requires s.th[s.current].sliceLeft > 0
    ensures Charged(s)[s.current] == s.th[s.current].(sliceLeft := s.th[s.current].sliceLeft - 1)
    ensures forall i :: 0 <= i < MAX_THREADS ==> Charged(s)[i].state == s.th[i].state
  {
  }
}
