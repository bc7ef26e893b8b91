/** The statistics of a simulated run read off its plans: which task each CPU was given on each tick. Nothing
    here looks at the counters or at what the simulation remembers from tick to tick. */
module SimulationPlans {
  import opened Simulation
  import opened SimulationTicks
  import opened SimulationLatency

  // ---- Plans ----

  /** What the CPUs are given on tick `k`. */
  ghost function PlanAt(policy: Policy, k: nat): (plan: seq<int>)
    ensures |plan| == NUM_CPUS
    ensures forall c :: 0 <= c < NUM_CPUS ==> plan[c] == -1 || 0 <= plan[c] < SIM_TASK_COUNT
  {
    Plan(Simulated(policy, k), policy)
  }

  /** What CPU `c` was last given before tick `k`, idle ticks apart; -1 if nothing. */
  ghost function LastOn(policy: Policy, c: nat, k: nat): int
    requires c < NUM_CPUS
  {
    if k == 0 then -1 else if PlanAt(policy, k - 1)[c] != -1 then PlanAt(policy, k - 1)[c] else LastOn(policy, c, k - 1)
  }

  /** How many of the first `cpus` CPUs are given a task for which `f` holds. */
  ghost function TallyTick(plan: seq<int>, cpus: nat, f: (nat, int) -> bool): nat
    requires cpus <= |plan|
  {
    if cpus == 0 then 0
    else TallyTick(plan, cpus - 1, f) + if plan[cpus - 1] != -1 && f(cpus - 1, plan[cpus - 1]) then 1 else 0
  }

  /** The dispatches before tick `n` for which `f` holds of tick, CPU and task. */
  ghost function Tally(policy: Policy, n: nat, f: (nat, nat, int) -> bool): nat {
    if n == 0 then 0 else Tally(policy, n - 1, f) + TallyTick(PlanAt(policy, n - 1), NUM_CPUS, OnTick(f, n - 1))
  }

  ghost function OnTick(f: (nat, nat, int) -> bool, k: nat): (nat, int) -> bool {
    (c: nat, r: int) => f(k, c, r)
  }

  // ---- What is counted ----

  /** The memory node of a CPU, and the one that holds a task's data. */
  function NodeOf(c: nat): nat { if c < 2 then 0 else 1 }

  function HomeOf(r: int): nat { if r == 0 || r == 6 then 0 else 1 }

  function IntentOf(r: int): Intent {
    if 2 <= r < 6 then Efficiency else if r == 6 then LowLatency else Performance
  }

  ghost function Switched(policy: Policy): (nat, nat, int) -> bool {
    (k: nat, c: nat, r: int) => c < NUM_CPUS && LastOn(policy, c, k) != r
  }

  ghost function Away(): (nat, nat, int) -> bool {
    (_: nat, c: nat, r: int) => NodeOf(c) != HomeOf(r)
  }

  ghost function OnCore(p: bool): (nat, nat, int) -> bool {
    (_: nat, c: nat, _: int) => c < 2 <==> p
  }

  ghost function OfIntent(i: Intent): (nat, nat, int) -> bool {
    (_: nat, _: nat, r: int) => IntentOf(r) == i
  }

  ghost function OfTask(i: int): (nat, nat, int) -> bool {
    (_: nat, _: nat, r: int) => r == i
  }

  ghost function Both(f: (nat, nat, int) -> bool, g: (nat, nat, int) -> bool): (nat, nat, int) -> bool {
    (k: nat, c: nat, r: int) => f(k, c, r) && g(k, c, r)
  }

  // ---- One tick ----

  lemma {:induction false} TallySame(plan: seq<int>, cpus: nat, f: (nat, int) -> bool, g: (nat, int) -> bool)
    requires cpus <= |plan| && forall c: nat :: c < cpus && plan[c] != -1 ==> f(c, plan[c]) == g(c, plan[c])
    ensures TallyTick(plan, cpus, f) == TallyTick(plan, cpus, g)
  {
    if cpus > 0 { TallySame(plan, cpus - 1, f, g); }
  }

  /** Dispatches that are switches, given what each CPU had last. */
  ghost function Fresh(last: seq<int>): (nat, int) -> bool {
    (c: nat, r: int) => c < |last| && last[c] != r
  }

  ghost predicate ProperPlan(plan: seq<int>) {
    && |plan| == NUM_CPUS
    && (forall c :: 0 <= c < NUM_CPUS ==> plan[c] == -1 || 0 <= plan[c] < SIM_TASK_COUNT)
    && Distinct(plan)
  }

  ghost predicate Tasks(s: Sim)
    requires Shape(s)
  {
    forall i :: 0 <= i < SIM_TASK_COUNT ==> s.tasks[i].profile == ProfileOf(i)
  }

  /** From `s` to `u` the statistics grow by what the first `cpus` CPUs of the plan are given. */
  ghost predicate Grows(s: Sim, u: Sim, plan: seq<int>, cpus: nat)
    requires Shape(s) && Shape(u) && cpus <= |plan| == NUM_CPUS
  {
    var a, b := s.stats, u.stats;
    && b.contextSwitches == a.contextSwitches + TallyTick(plan, cpus, Fresh(s.lastTask))
    && b.numaPenalties == a.numaPenalties + TallyTick(plan, cpus, OnTick(Away(), s.tick))
    && b.pcoreTimeUs == a.pcoreTimeUs + 1000 * TallyTick(plan, cpus, OnTick(OnCore(true), s.tick))
    && b.ecoreTimeUs == a.ecoreTimeUs + 1000 * TallyTick(plan, cpus, OnTick(OnCore(false), s.tick))
  }

  ghost predicate GrowsIntent(s: Sim, u: Sim, plan: seq<int>, cpus: nat, i: Intent)
    requires Shape(s) && Shape(u) && cpus <= |plan| == NUM_CPUS && i in s.stats.intents && i in u.stats.intents
  {
    var a, b := s.stats.intents[i], u.stats.intents[i];
    && b.runtimeUs == a.runtimeUs + 1000 * TallyTick(plan, cpus, OnTick(OfIntent(i), s.tick))
    && b.switches == a.switches + TallyTick(plan, cpus, FreshOf(s.lastTask, i))
  }

  ghost function FreshOf(last: seq<int>, i: Intent): (nat, int) -> bool {
    (c: nat, r: int) => c < |last| && last[c] != r && IntentOf(r) == i
  }

  /** One CPU's tick in numbers. */
  lemma UpdateFigures(u: Sim, c: nat, r: int)
    requires Shape(u) && c < NUM_CPUS && 0 <= r < SIM_TASK_COUNT && u.tasks[r].profile == ProfileOf(r)
    ensures var w, i := Update(u, c, r), IntentOf(r);
      && w.lastTask == u.lastTask[c := r] && i in u.stats.intents && i in w.stats.intents
      && w.stats.contextSwitches == u.stats.contextSwitches + (if u.lastTask[c] != r then 1 else 0)
      && w.stats.numaPenalties == u.stats.numaPenalties + (if NodeOf(c) != HomeOf(r) then 1 else 0)
      && w.stats.pcoreTimeUs == u.stats.pcoreTimeUs + (if c < 2 then 1000 else 0)
      && w.stats.ecoreTimeUs == u.stats.ecoreTimeUs + (if c < 2 then 0 else 1000)
      && w.stats.intents[i].runtimeUs == u.stats.intents[i].runtimeUs + 1000
      && w.stats.intents[i].switches == u.stats.intents[i].switches + (if u.lastTask[c] != r then 1 else 0)
      && forall j :: j in u.stats.intents && j != i ==>
           j in w.stats.intents && w.stats.intents[j] == u.stats.intents[j]
  {
    IntentOfProfile(r);
    EveryIntent(u, IntentOf(r));
  }

  lemma {:induction false} UpdateAllGrows(s: Sim, plan: seq<int>, cpus: nat)
    requires Shape(s) && Tasks(s) && ProperPlan(plan) && cpus <= NUM_CPUS
    ensures Grows(s, UpdateAll(s, plan, cpus), plan, cpus)
  {
    if cpus > 0 {
      hide Update, UpdateAll, TallyTick, ProfileOf, NodeOf, HomeOf, Grows, Tasks, ProperPlan;
      UpdateAllGrows(s, plan, cpus - 1);
      UpdateAllLast(s, plan, cpus - 1, cpus - 1);
      NextGrows(s, plan, cpus - 1);
    }
  }

  lemma {:induction false} UpdateAllLast(s: Sim, plan: seq<int>, cpus: nat, c: nat)
    requires Shape(s) && Tasks(s) && ProperPlan(plan) && cpus <= NUM_CPUS && c < NUM_CPUS
    ensures UpdateAll(s, plan, cpus).lastTask[c] == if c < cpus && plan[c] != -1 then plan[c] else s.lastTask[c]
  {
    if cpus > 0 {
      hide Update, UpdateAll, ProfileOf, NodeOf, HomeOf, Tasks;
      UpdateAllLast(s, plan, cpus - 1, c);
      NextUpdate(s, plan, cpus - 1);
    }
  }

  lemma NextGrows(s: Sim, plan: seq<int>, c: nat)
    requires Shape(s) && Tasks(s) && ProperPlan(plan) && c < NUM_CPUS && Grows(s, UpdateAll(s, plan, c), plan, c)
    requires UpdateAll(s, plan, c).lastTask[c] == s.lastTask[c]
    ensures Grows(s, UpdateAll(s, plan, c + 1), plan, c + 1)
  {
    hide Update, UpdateAll, TallyTick, ProfileOf, NodeOf, HomeOf;
    NextUpdate(s, plan, c);
    TallyNext(plan, c, Fresh(s.lastTask));
    TallyNext(plan, c, OnTick(Away(), s.tick));
    TallyNext(plan, c, OnTick(OnCore(true), s.tick));
    TallyNext(plan, c, OnTick(OnCore(false), s.tick));
  }

  lemma NextUpdate(s: Sim, plan: seq<int>, c: nat)
    requires Shape(s) && Tasks(s) && ProperPlan(plan) && c < NUM_CPUS
    ensures var u, w, r := UpdateAll(s, plan, c), UpdateAll(s, plan, c + 1), plan[c];
      if r == -1 then w.lastTask == u.lastTask && w.stats == u.stats.(power := w.stats.power)
      else
        && 0 <= r < SIM_TASK_COUNT && u.tasks[r].profile == ProfileOf(r) && w == Update(u, c, r)
        && w.lastTask == u.lastTask[c := r]
        && w.stats.contextSwitches == u.stats.contextSwitches + (if u.lastTask[c] != r then 1 else 0)
        && w.stats.numaPenalties == u.stats.numaPenalties + (if NodeOf(c) != HomeOf(r) then 1 else 0)
        && w.stats.pcoreTimeUs == u.stats.pcoreTimeUs + (if c < 2 then 1000 else 0)
        && w.stats.ecoreTimeUs == u.stats.ecoreTimeUs + (if c < 2 then 0 else 1000)
  {
    if plan[c] != -1 {
      UpdateAllTasks(s, plan, c, plan[c]);
      UpdateFigures(UpdateAll(s, plan, c), c, plan[c]);
    }
  }

  lemma NextGrowsIntent(s: Sim, plan: seq<int>, c: nat, i: Intent)
    requires Shape(s) && Tasks(s) && ProperPlan(plan) && c < NUM_CPUS
    requires i in s.stats.intents && i in UpdateAll(s, plan, c).stats.intents
    requires GrowsIntent(s, UpdateAll(s, plan, c), plan, c, i)
    ensures i in UpdateAll(s, plan, c + 1).stats.intents
    ensures GrowsIntent(s, UpdateAll(s, plan, c + 1), plan, c + 1, i)
  {
    hide Update, UpdateAll, TallyTick, ProfileOf, IntentOf, Grows;
    TallyNext(plan, c, OnTick(OfIntent(i), s.tick));
    TallyNext(plan, c, FreshOf(s.lastTask, i));
    UpdateAllLast(s, plan, c, c);
    NextUpdate(s, plan, c);
    if plan[c] != -1 { UpdateFigures(UpdateAll(s, plan, c), c, plan[c]); }
  }

  lemma TallyNext(plan: seq<int>, c: nat, f: (nat, int) -> bool)
    requires c < |plan|
    ensures TallyTick(plan, c + 1, f)
            == TallyTick(plan, c, f) + if plan[c] != -1 && f(c, plan[c]) then 1 else 0
  {
  }

  lemma EveryIntent(s: Sim, i: Intent)
    requires Shape(s)
    ensures i in s.stats.intents
  {
    assert i in {Performance, Efficiency, LowLatency, Default};
  }

  lemma {:induction false} UpdateAllGrowsIntent(s: Sim, plan: seq<int>, cpus: nat, i: Intent)
    requires Shape(s) && Tasks(s) && ProperPlan(plan) && cpus <= NUM_CPUS
    ensures var u := UpdateAll(s, plan, cpus);
      i in s.stats.intents && i in u.stats.intents && GrowsIntent(s, u, plan, cpus, i)
  {
    EveryIntent(s, i);
    EveryIntent(UpdateAll(s, plan, cpus), i);
    if cpus > 0 {
      hide Update, UpdateAll, TallyTick, ProfileOf, IntentOf;
      var c := cpus - 1;
      UpdateAllGrowsIntent(s, plan, c, i);
      NextGrowsIntent(s, plan, c, i);
    }
  }

  lemma IntentOfProfile(r: nat)
    requires r < SIM_TASK_COUNT
    ensures ProfileOf(r).intent == IntentOf(r) && ProfileOf(r).preferredNuma == HomeOf(r)
  {
  }

  // ---- Whole runs ----

  lemma TickGrows(s: Sim, policy: Policy)
    requires Shape(s) && Tasks(s)
    ensures ProperPlan(Plan(s, policy)) && Grows(s, Tick(s, policy), Plan(s, policy), NUM_CPUS)
    ensures forall c :: 0 <= c < NUM_CPUS ==>
      Tick(s, policy).lastTask[c] == if Plan(s, policy)[c] != -1 then Plan(s, policy)[c] else s.lastTask[c]
  {
    hide UpdateAll, TallyTick, PrepareTask, FinalizeTask, ProfileOf;
    PlanIsExclusive(s, policy);
    var chosen := ChosenTasks(s, policy);
    UpdateAllGrows(chosen, Plan(s, policy), |s.lastTask|);
    forall c: nat | c < NUM_CPUS
      ensures Tick(s, policy).lastTask[c] == if Plan(s, policy)[c] != -1 then Plan(s, policy)[c] else s.lastTask[c]
    {
      UpdateAllLast(chosen, Plan(s, policy), |s.lastTask|, c);
    }
  }

  /** The state after the selections has the profiles, counters and dispatches of before. */
  lemma ChosenTasks(s: Sim, policy: Policy) returns (chosen: Sim)
    requires Shape(s) && Tasks(s)
    ensures chosen == Assign(Started(s), policy, |s.lastTask|).0 && Shape(chosen) && Tasks(chosen)
    ensures chosen.tick == s.tick && chosen.lastTask == s.lastTask
    ensures chosen.stats == s.stats.(totalTicks := s.stats.totalTicks + 1)
  {
    AssignMarks(Started(s), policy, |s.lastTask|);
    chosen := Assign(Started(s), policy, |s.lastTask|).0;
  }

  lemma TickGrowsIntent(s: Sim, policy: Policy, i: Intent)
    requires Shape(s) && Tasks(s)
    ensures i in s.stats.intents && i in Tick(s, policy).stats.intents
    ensures GrowsIntent(s, Tick(s, policy), Plan(s, policy), NUM_CPUS, i)
  {
    hide UpdateAll, TallyTick, PrepareTask, FinalizeTask, ProfileOf;
    PlanIsExclusive(s, policy);
    EveryIntent(s, i);
    EveryIntent(Tick(s, policy), i);
    var chosen := ChosenTasks(s, policy);
    UpdateAllGrowsIntent(chosen, Plan(s, policy), |s.lastTask|, i);
  }

  lemma TasksAlways(policy: Policy, n: nat)
    ensures Tasks(Simulated(policy, n)) && Profiles(Simulated(policy, n)) && Phased(Simulated(policy, n))
  {
    hide Tick;
    InitialTasks(Simulated(policy, 0));
    for k := 0 to n
      invariant Profiles(Simulated(policy, k)) && Phased(Simulated(policy, k))
    {
      ProfilesKept(Simulated(policy, k), policy);
    }
  }

  lemma StartKeepsTasks(s: Sim)
    requires Shape(s) && Tasks(s)
    ensures Tasks(Started(s))
  {
  }

  lemma InitialTasks(s: Sim)
    requires s == Initial()
    ensures Profiles(s) && Phased(s)
  {
  }

  lemma NextTick(policy: Policy, n: nat)
    requires n > 0
    ensures Simulated(policy, n) == Tick(Simulated(policy, n - 1), policy)
  {
    hide Tick, Initial;
  }

  lemma AtStart(policy: Policy, n: nat)
    requires n == 0
    ensures Simulated(policy, n) == Initial()
  {
  }

  lemma NothingCounted(s: Sim)
    requires s == Initial()
    ensures forall c :: 0 <= c < NUM_CPUS ==> s.lastTask[c] == -1
    ensures var st := s.stats;
      st.contextSwitches == st.numaPenalties == st.pcoreTimeUs == st.ecoreTimeUs == 0
    ensures forall i :: i in s.stats.intents ==> s.stats.intents[i] == IntentStats(0, 0)
    ensures forall i :: 0 <= i < SIM_TASK_COUNT ==>
      var t := s.tasks[i];
      t.runtimeUs == t.switches == t.numaPenalties == t.inferredNuma == 0 && !t.inferredLocked
  {
  }

  lemma {:induction false} LastTaskIs(policy: Policy, n: nat, c: nat)
    requires c < NUM_CPUS
    ensures Simulated(policy, n).lastTask[c] == LastOn(policy, c, n)
  {
    hide Simulated, Tick, Plan, Initial, TallyTick;
    if n == 0 {
      AtStart(policy, n);
      NothingCounted(Simulated(policy, n));
    } else {
      LastTaskIs(policy, n - 1, c);
      NextTick(policy, n);
      TasksAlways(policy, n - 1);
      TickGrows(Simulated(policy, n - 1), policy);
    }
  }

  /** The aggregate statistics, for every policy and duration: context switches are the dispatches of another
      task than the CPU's last one, penalties those away from home, times those on either kind of core. */
  lemma {:induction false} StatsOfPlans(policy: Policy, n: nat)
    ensures var st := Simulated(policy, n).stats;
      && st.contextSwitches == Tally(policy, n, Switched(policy))
      && st.numaPenalties == Tally(policy, n, Away())
      && st.pcoreTimeUs == 1000 * Tally(policy, n, OnCore(true))
      && st.ecoreTimeUs == 1000 * Tally(policy, n, OnCore(false))
  {
    hide Simulated, Tick, Plan, Initial, TallyTick, Switched, Away, OnCore, LastOn;
    if n == 0 {
      AtStart(policy, n);
      NothingCounted(Simulated(policy, n));
    } else {
      var s, plan := Simulated(policy, n - 1), PlanAt(policy, n - 1);
      StatsOfPlans(policy, n - 1);
      NextTick(policy, n);
      TasksAlways(policy, n - 1);
      TickGrows(s, policy);
      SwitchesOnTick(policy, n - 1);
    }
  }

  lemma SwitchesOnTick(policy: Policy, k: nat)
    ensures var plan := PlanAt(policy, k);
      TallyTick(plan, NUM_CPUS, Fresh(Simulated(policy, k).lastTask))
        == TallyTick(plan, NUM_CPUS, OnTick(Switched(policy), k))
  {
    hide LastOn, Simulated, Plan;
    forall c: nat | c < NUM_CPUS
      ensures Simulated(policy, k).lastTask[c] == LastOn(policy, c, k)
    {
      LastTaskIs(policy, k, c);
    }
    TallySame(PlanAt(policy, k), NUM_CPUS, Fresh(Simulated(policy, k).lastTask), OnTick(Switched(policy), k));
  }

  /** The same per intent. */
  lemma {:induction false} IntentsOfPlans(policy: Policy, n: nat, i: Intent)
    ensures i in Simulated(policy, n).stats.intents
    ensures var st := Simulated(policy, n).stats.intents[i];
      && st.runtimeUs == 1000 * Tally(policy, n, OfIntent(i))
      && st.switches == Tally(policy, n, Both(Switched(policy), OfIntent(i)))
  {
    hide Simulated, Tick, Plan, Initial, TallyTick, Switched, OfIntent, LastOn;
    EveryIntent(Simulated(policy, n), i);
    if n == 0 {
      AtStart(policy, n);
      NothingCounted(Simulated(policy, n));
    } else {
      IntentsOfPlans(policy, n - 1, i);
      NextTick(policy, n);
      TasksAlways(policy, n - 1);
      TickGrowsIntent(Simulated(policy, n - 1), policy, i);
      IntentSwitchesOnTick(policy, n - 1, i);
    }
  }

  lemma IntentSwitchesOnTick(policy: Policy, k: nat, i: Intent)
    ensures var plan := PlanAt(policy, k);
      TallyTick(plan, NUM_CPUS, FreshOf(Simulated(policy, k).lastTask, i))
      == TallyTick(plan, NUM_CPUS, OnTick(Both(Switched(policy), OfIntent(i)), k))
  {
    hide LastOn, Simulated, Plan;
    forall c: nat | c < NUM_CPUS
      ensures Simulated(policy, k).lastTask[c] == LastOn(policy, c, k)
    {
      LastTaskIs(policy, k, c);
    }
    TallySame(PlanAt(policy, k), NUM_CPUS, FreshOf(Simulated(policy, k).lastTask, i),
              OnTick(Both(Switched(policy), OfIntent(i)), k));
  }

  // ---- Single tasks ----

  ghost function Any(): (nat, nat, int) -> bool {
    (_: nat, _: nat, _: int) => true
  }

  ghost function AtHome(): (nat, nat, int) -> bool {
    (_: nat, c: nat, r: int) => NodeOf(c) == HomeOf(r)
  }

  /** A task is dispatched at most once in a tick. */
  lemma {:induction false} TallyOfTask(plan: seq<int>, cpus: nat, f: (nat, nat, int) -> bool, k: nat, i: int)
    requires cpus <= |plan| && Distinct(plan) && i >= 0
    ensures var c := CpuOf(plan, cpus, i);
      TallyTick(plan, cpus, OnTick(Both(f, OfTask(i)), k)) == if c >= 0 && f(k, c, i) then 1 else 0
  {
    if cpus > 0 { TallyOfTask(plan, cpus - 1, f, k, i); }
  }

  /** What is known of one task from its dispatches alone: its time, its switches and penalties, and that the
      DYNAMIC policy has learnt its memory node as soon as it has run there, and not before. */
  ghost predicate Booked(t: SimTask, policy: Policy, n: nat, i: nat) {
    && t.runtimeUs == 1000 * Tally(policy, n, Both(Any(), OfTask(i)))
    && t.switches == Tally(policy, n, Both(Switched(policy), OfTask(i)))
    && t.numaPenalties == Tally(policy, n, Both(Away(), OfTask(i)))
    && (t.inferredLocked <==> Tally(policy, n, Both(AtHome(), OfTask(i))) > 0)
    && t.inferredNuma == if t.inferredLocked then HomeOf(i) else 0
  }

  lemma {:induction false} TaskOfPlans(policy: Policy, n: nat, i: nat)
    requires i < SIM_TASK_COUNT
    ensures Booked(Simulated(policy, n).tasks[i], policy, n, i)
  {
    hide Simulated, Initial, Tick, Plan, Booked;
    if n == 0 {
      AtStart(policy, n);
      NothingCounted(Simulated(policy, n));
      NothingBooked(Simulated(policy, n).tasks[i], policy, n, i);
    } else {
      TaskOfPlans(policy, n - 1, i);
      NextTick(policy, n);
      TasksAlways(policy, n - 1);
      BookedNext(Simulated(policy, n - 1), policy, n, i);
    }
  }

  lemma NothingBooked(t: SimTask, policy: Policy, n: nat, i: nat)
    requires n == 0 && t.runtimeUs == t.switches == t.numaPenalties == t.inferredNuma == 0 && !t.inferredLocked
    ensures Booked(t, policy, n, i)
  {
  }

  lemma BookedNext(s: Sim, policy: Policy, n: nat, i: nat)
    requires n > 0 && s == Simulated(policy, n - 1) && Tasks(s) && i < SIM_TASK_COUNT
    requires Booked(s.tasks[i], policy, n - 1, i)
    ensures Booked(Tick(s, policy).tasks[i], policy, n, i)
  {
    hide Simulated, Initial, Tick, Plan, LastOn, TaskAfter, TallyTick, Tally, Both, CpuOf, ProfileOf;
    TallyTask(policy, n, Any(), i);
    TallyTask(policy, n, Switched(policy), i);
    TallyTask(policy, n, Away(), i);
    TallyTask(policy, n, AtHome(), i);
    TickTask(s, policy, i);
    var c := CpuOf(Plan(s, policy), |s.lastTask|, i);
    if c >= 0 { LastTaskIs(policy, n - 1, c); }
    CountersAfter(s.tasks[i], i, c, n - 1, c >= 0 && s.lastTask[c] != i);
  }

  lemma TallyTask(policy: Policy, n: nat, f: (nat, nat, int) -> bool, i: nat)
    requires n > 0
    ensures var c := CpuOf(PlanAt(policy, n - 1), |PlanAt(policy, n - 1)|, i);
      Tally(policy, n, Both(f, OfTask(i)))
      == Tally(policy, n - 1, Both(f, OfTask(i))) + if c >= 0 && f(n - 1, c, i) then 1 else 0
  {
    hide Simulated, Plan;
    PlanIsExclusive(Simulated(policy, n - 1), policy);
    TallyOfTask(PlanAt(policy, n - 1), |PlanAt(policy, n - 1)|, f, n - 1, i);
  }

  lemma CountersAfter(t: SimTask, i: nat, c: int, tick: nat, switched: bool)
    requires i < SIM_TASK_COUNT && t.profile == ProfileOf(i) && -1 <= c < NUM_CPUS
    ensures var u := TaskAfter(t, c, tick, switched);
      if c < 0 then
        && u.runtimeUs == t.runtimeUs && u.switches == t.switches && u.numaPenalties == t.numaPenalties
        && u.inferredLocked == t.inferredLocked && u.inferredNuma == t.inferredNuma
      else
        && u.runtimeUs == t.runtimeUs + 1000
        && u.switches == t.switches + (if switched then 1 else 0)
        && u.numaPenalties == t.numaPenalties + (if NodeOf(c) != HomeOf(i) then 1 else 0)
        && (u.inferredLocked <==> t.inferredLocked || NodeOf(c) == HomeOf(i))
        && u.inferredNuma == if !t.inferredLocked && NodeOf(c) == HomeOf(i) then HomeOf(i) else t.inferredNuma
  {
    IntentOfProfile(i);
  }

  // ---- Latency samples ----

  /** From `s` to `u` the latency figures grow by one sample if LOW_LAT, with both its ticks of work ahead, is
      dispatched on one of the first `cpus` CPUs. */
  ghost predicate Samples(s: Sim, u: Sim, plan: seq<int>, cpus: nat)
    requires Shape(s) && cpus <= |plan|
  {
    var t := s.tasks[6];
    if CpuOf(plan, cpus, 6) >= 0 && t.workRemaining == 2 then
      var late := 1000 * t.waitingSinceReady % 0x1_0000_0000;
      && u.latencySamples == s.latencySamples + 1 && u.latencyTotalUs == s.latencyTotalUs + late
      && u.latencyMaxUs == if late > s.latencyMaxUs then late else s.latencyMaxUs
    else
      u.latencySamples == s.latencySamples && u.latencyTotalUs == s.latencyTotalUs && u.latencyMaxUs == s.latencyMaxUs
  }

  lemma {:induction false} UpdateAllSamples(s: Sim, plan: seq<int>, cpus: nat)
    requires Shape(s) && Tasks(s) && ProperPlan(plan) && cpus <= NUM_CPUS
    ensures Samples(s, UpdateAll(s, plan, cpus), plan, cpus)
  {
    if cpus > 0 {
      UpdateAllSamples(s, plan, cpus - 1);
      NextSample(s, plan, cpus - 1);
    }
  }

  lemma NextSample(s: Sim, plan: seq<int>, c: nat)
    requires Shape(s) && Tasks(s) && ProperPlan(plan) && c < NUM_CPUS
    requires Samples(s, UpdateAll(s, plan, c), plan, c)
    ensures Samples(s, UpdateAll(s, plan, c + 1), plan, c + 1)
  {
    hide RunTask, Charge;
    if plan[c] != -1 { UpdateAllTasks(s, plan, c, plan[c]); }
  }

  lemma TickSamples(s: Sim, policy: Policy)
    requires Shape(s) && Tasks(s)
    ensures Shape(Started(s)) && Samples(Started(s), Tick(s, policy), Plan(s, policy), NUM_CPUS)
  {
    hide UpdateAll, FinalizeTask, ProfileOf;
    PlanIsExclusive(s, policy);
    AssignMarks(Started(s), policy, |s.lastTask|);
    var chosen := ChosenTasks(s, policy);
    UpdateAllSamples(chosen, Plan(s, policy), |s.lastTask|);
  }

  /** LOW_LAT has two ticks of work in every period, so every other dispatch of it is the first one after a
      release; these are the samples. */
  ghost predicate Alternates(s: Sim, dispatches: nat)
    requires Shape(s)
  {
    var t := s.tasks[6];
    && t.workRemaining <= 2 && (t.workRemaining == 0 ==> !t.ready)
    && (t.workRemaining == 1 <==> dispatches % 2 == 1)
    && s.latencySamples == (dispatches + 1) / 2
    && s.latencyTotalUs <= s.latencySamples * s.latencyMaxUs
  }

  lemma AlternatesNext(s: Sim, policy: Policy, d: nat)
    requires Shape(s) && Tasks(s) && Alternates(s, d)
    ensures var c := CpuOf(Plan(s, policy), |s.lastTask|, 6);
      Alternates(Tick(s, policy), if c >= 0 then d + 1 else d)
  {
    hide Tick, Plan, TaskAfter, PrepareTask, Tasks, ProperPlan;
    var c, t, u := CpuOf(Plan(s, policy), |s.lastTask|, 6), s.tasks[6], Tick(s, policy);
    SixthTask(s);
    TickSamples(s, policy);
    TickTask(s, policy, 6);
    PlanIsExclusive(s, policy);
    WorkAfter(t, c, s.tick, c >= 0 && s.lastTask[c] != 6);
    if u.latencySamples > s.latencySamples {
      OneMoreSample(s.latencyTotalUs, s.latencySamples, s.latencyMaxUs, u.latencyTotalUs - s.latencyTotalUs,
        u.latencyMaxUs);
    }
  }

  lemma SixthTask(s: Sim)
    requires Shape(s) && Tasks(s)
    ensures s.tasks[6].profile == ProfileOf(6) && Shape(Started(s))
    ensures Started(s).tasks[6] == PrepareTask(s.tasks[6])
    ensures Started(s).latencySamples == s.latencySamples && Started(s).latencyTotalUs == s.latencyTotalUs
    ensures Started(s).latencyMaxUs == s.latencyMaxUs
  {
  }

  /** A release, two dispatches, the end of the period: what is left of the work. */
  lemma WorkAfter(t: SimTask, c: int, tick: nat, switched: bool)
    requires t.profile == ProfileOf(6) && t.workRemaining <= 2 && (t.workRemaining == 0 ==> !t.ready)
    requires c < NUM_CPUS && (c >= 0 ==> PrepareTask(t).ready)
    ensures var p, u := PrepareTask(t), TaskAfter(t, c, tick, switched);
      && p.workRemaining <= 2 && (p.workRemaining == 1 <==> t.workRemaining == 1)
      && (c >= 0 ==> p.workRemaining > 0)
      && u.workRemaining == p.workRemaining - (if c >= 0 then 1 else 0) && (u.workRemaining == 0 ==> !u.ready)
  {
  }

  lemma OneMoreSample(total: nat, samples: nat, worst: nat, late: nat, worst': nat)
    requires total <= samples * worst && worst <= worst' && late <= worst'
    ensures total + late <= (samples + 1) * worst'
  {
    assert samples * worst <= samples * worst';
  }

  lemma {:induction false} AlwaysAlternates(policy: Policy, n: nat)
    ensures Alternates(Simulated(policy, n), Tally(policy, n, Both(Any(), OfTask(6))))
  {
    hide Simulated, Tick, Plan, Initial, Alternates;
    if n == 0 {
      AtStart(policy, n);
      InitiallyAlternates(Simulated(policy, n));
    } else {
      AlwaysAlternates(policy, n - 1);
      NextTick(policy, n);
      TasksAlways(policy, n - 1);
      TallyTask(policy, n, Any(), 6);
      AlternatesNext(Simulated(policy, n - 1), policy, Tally(policy, n - 1, Both(Any(), OfTask(6))));
    }
  }

  lemma InitiallyAlternates(s: Sim)
    requires s == Initial()
    ensures Alternates(s, 0)
  {
  }

  /** The number of samples, from the dispatches alone; and their average is at most the worst. */
  lemma SamplesOfPlans(policy: Policy, n: nat)
    ensures var s := Simulated(policy, n);
      && s.latencySamples == (Tally(policy, n, Both(Any(), OfTask(6))) + 1) / 2
      && s.latencyTotalUs <= s.latencySamples * s.latencyMaxUs
  {
    hide Simulated;
    AlwaysAlternates(policy, n);
  }

  // ---- Figures under HTAS ----

  lemma HtasPlans(k: nat)
    ensures PlanAt(Htas, k) == HtasPlan(k)
  {
    hide Plan;
    HtasNeverLate(k);
  }

  lemma HtasAway(k: nat)
    ensures TallyTick(HtasPlan(k), |HtasPlan(k)|, OnTick(Away(), k)) == if k % 18 <= 1 then 0 else 1
  {
    var plan, f := HtasPlan(k), OnTick(Away(), k);
    assert TallyTick(plan, 0, f) == 0;
    forall c: nat | c < 4 ensures f(c, plan[c]) == (NodeOf(c) != HomeOf(plan[c])) {
    }
    TallyNext(plan, 0, f);
    TallyNext(plan, 1, f);
    TallyNext(plan, 2, f);
    TallyNext(plan, 3, f);
  }

  /** The ticks before `n` on which LOW_LAT does not run. */
  function TicksWithout(n: nat): int {
    n - 2 * (n / 18) - if n % 18 < 2 then n % 18 else 2
  }

  lemma NextWithout(n: nat)
    ensures TicksWithout(n + 1) == TicksWithout(n) + if n % 18 <= 1 then 0 else 1
  {
  }

  /** Under HTAS exactly one dispatch is away from home in every tick on which LOW_LAT does not run. */
  lemma {:induction false} HtasPenalties(n: nat)
    ensures Simulated(Htas, n).stats.numaPenalties == TicksWithout(n)
  {
    hide Simulated, Tick, Plan, TallyTick, HtasPlan, TicksWithout, Tally, PlanAt;
    StatsOfPlans(Htas, n);
    if n == 0 {
      NoTicks(n);
    } else {
      NextWithout(n - 1);
      HtasPenalties(n - 1);
      StatsOfPlans(Htas, n - 1);
      HtasPlans(n - 1);
      TallyTicks(Htas, n, Away());
      HtasAway(n - 1);
    }
  }

  lemma TallyTicks(policy: Policy, n: nat, f: (nat, nat, int) -> bool)
    requires n > 0
    ensures Tally(policy, n, f) == Tally(policy, n - 1, f)
                                   + TallyTick(PlanAt(policy, n - 1), |PlanAt(policy, n - 1)|, OnTick(f, n - 1))
  {
  }

  lemma NoTicks(n: nat)
    requires n == 0
    ensures TicksWithout(n) == Tally(Htas, n, Away()) == 0
  {
  }

  // ---- Switches under HTAS ----

  /** Which of tasks 3 and 5 the fourth CPU gets on a background tick; the third gets the one before it. */
  ghost function PairOn(k: nat): int {
    if FirstPairRuns(k) then 3 else 5
  }

  /** What each CPU had last: the fourth has PERF1 from the last two ticks of LOW_LAT, unless background work came
      in since. */
  ghost function LastUnderHtas(c: nat, k: nat): int
    requires c < NUM_CPUS
  {
    if k == 0 then -1
    else
      var p, q := (k - 1) % 18, (k - 1) % 5;
      if c == 0 then if p <= 1 then 6 else 0
      else if c == 1 then if p <= 1 then 0 else 1
      else if c == 2 then if q == 0 then PairOn(k - 1) - 1 else 7
      else if q > 0 && p <= q then 1 else PairOn(k - 1 - q)
  }

  lemma {:induction false} LastOnIs(c: nat, k: nat)
    requires c < NUM_CPUS
    ensures LastOn(Htas, c, k) == LastUnderHtas(c, k)
  {
    hide Simulated, Plan, FirstPairRuns;
    if k > 0 {
      LastOnIs(c, k - 1);
      HtasPlans(k - 1);
      LastMoves(c, k - 1);
    }
  }

  lemma LastMoves(c: nat, k: nat)
    requires c < NUM_CPUS
    ensures LastUnderHtas(c, k + 1) == if HtasPlan(k)[c] != -1 then HtasPlan(k)[c] else LastUnderHtas(c, k)
  {
    hide FirstPairRuns;
    if k > 0 && HtasPlan(k)[c] == -1 {
      BeforeByFives(k);
      BeforeByEighteens(k);
    }
  }

  lemma Multiple(q: nat, r: nat, m: nat)
    requires m in {5, 18, 90}
    ensures (m * q + r) % m == r % m && (m * q + r) / m == q + r / m
  {
    if m == 5 {
    } else if m == 18 {
    } else {
    }
  }

  lemma BeforeByFives(k: nat)
    requires k > 0
    ensures (k - 1) % 5 == if k % 5 == 0 then 4 else k % 5 - 1
    ensures (k - 1) / 5 == if k % 5 == 0 then k / 5 - 1 else k / 5
  {
    if k % 5 == 0 { Multiple(k / 5 - 1, 4, 5); } else { Multiple(k / 5, k % 5 - 1, 5); }
  }

  lemma BeforeByEighteens(k: nat)
    requires k > 0
    ensures (k - 1) % 18 == if k % 18 == 0 then 17 else k % 18 - 1
    ensures (k - 1) / 18 == if k % 18 == 0 then k / 18 - 1 else k / 18
  {
    if k % 18 == 0 { Multiple(k / 18 - 1, 17, 18); } else { Multiple(k / 18, k % 18 - 1, 18); }
  }

  /** When a CPU gets another task than its last one. */
  predicate Changes(c: nat, k: nat) {
    var p, q := k % 18, k % 5;
    if c < 2 then p == 0 || p == 2
    else if c == 2 then q <= 1
    else q == 0 || p == 0 || (p == 1 && q == 1)
  }

  lemma ChangesAre(c: nat, k: nat)
    requires c < NUM_CPUS
    ensures HtasPlan(k)[c] != -1 && LastUnderHtas(c, k) != HtasPlan(k)[c] <==> Changes(c, k)
  {
    hide FirstPairRuns;
    if k > 0 {
      BeforeByFives(k);
      BeforeByEighteens(k);
    }
    if k > 5 && k % 5 == 0 { PairsAlternate(k); }
  }

  lemma PairsAlternate(k: nat)
    requires k > 5 && k % 5 == 0
    ensures PairOn(k) != PairOn(k - 5)
  {
    BeforeByFives(k);
    Multiple(k / 5 - 2, 4, 5);
    assert k - 6 == 5 * (k / 5 - 2) + 4;
  }

  lemma HtasSwitchesOn(k: nat)
    ensures TallyTick(HtasPlan(k), |HtasPlan(k)|, OnTick(Switched(Htas), k))
            == SwitchesBefore(k + 1) - SwitchesBefore(k)
  {
    hide Simulated, Plan, LastOn, SwitchesBefore, LastUnderHtas, HtasPlan, Changes;
    var plan, f := HtasPlan(k), OnTick(Switched(Htas), k);
    TallyNext(plan, 0, f);
    TallyNext(plan, 1, f);
    TallyNext(plan, 2, f);
    TallyNext(plan, 3, f);
    forall c: nat | c < 4 ensures plan[c] != -1 && f(c, plan[c]) <==> Changes(c, k) {
      LastOnIs(c, k);
      ChangesAre(c, k);
    }
    OneTickMore(k);
  }

  /** The switches of a run of `n` ticks. LOW_LAT comes on every 18th tick and goes two ticks later, which moves
      two tasks each time, and PERF1 to the fourth CPU; background work comes on every fifth tick with two tasks, and
      one is put back on the next. Where both come at once, PERF1 moves one tick late. */
  function SwitchesBefore(n: nat): int {
    3 * ((n + 17) / 18) + 2 * ((n + 15) / 18) + 2 * ((n + 4) / 5) + (n + 3) / 5 - if n % 90 == 1 then 1 else 0
  }

  lemma OneTickMore(k: nat)
    ensures SwitchesBefore(k + 1) - SwitchesBefore(k)
            == (if Changes(0, k) then 1 else 0) + (if Changes(1, k) then 1 else 0) + (if Changes(2, k) then 1 else 0)
               + if Changes(3, k) then 1 else 0
  {
    Eighteenths(k);
    Fifths(k);
    Ninetieths(k);
  }

  lemma Eighteenths(k: nat)
    ensures (k + 18) / 18 - (k + 17) / 18 == if k % 18 == 0 then 1 else 0
    ensures (k + 16) / 18 - (k + 15) / 18 == if k % 18 == 2 then 1 else 0
  {
  }

  lemma Fifths(k: nat)
    ensures (k + 5) / 5 - (k + 4) / 5 == if k % 5 == 0 then 1 else 0
    ensures (k + 4) / 5 - (k + 3) / 5 == if k % 5 == 1 then 1 else 0
  {
  }

  lemma Ninetieths(k: nat)
    ensures k % 90 == 1 <==> k % 18 == 1 && k % 5 == 1
    ensures (k + 1) % 90 == 1 <==> k % 18 == 0 && k % 5 == 0
  {
    var q, r := k / 90, k % 90;
    Multiple(5 * q, r, 18);
    Multiple(18 * q, r, 5);
    if r % 18 <= 1 { Small(r, r / 18); }
    if r == 89 { Multiple(q + 1, 0, 90); } else { Multiple(q, r + 1, 90); }
  }

  lemma Small(r: nat, x: nat)
    requires r < 90 && x == r / 18 && r % 18 <= 1
    ensures r % 18 == 0 && r % 5 == 0 <==> r == 0
    ensures r % 18 == 1 && r % 5 == 1 <==> r == 1
  {
    assert r == 18 * x + r % 18;
    if x == 0 {
    } else if x == 1 {
    } else if x == 2 {
    } else if x == 3 {
    } else {
    }
  }

  /** The exact number of context switches under HTAS, for every duration. */
  lemma {:induction false} HtasSwitches(n: nat)
    ensures Simulated(Htas, n).stats.contextSwitches == SwitchesBefore(n)
  {
    hide Simulated, Tick, Plan, HtasPlan, TallyTick, SwitchesBefore, Switched, Tally, PlanAt;
    StatsOfPlans(Htas, n);
    if n == 0 {
      NoSwitches(n);
    } else {
      HtasSwitches(n - 1);
      StatsOfPlans(Htas, n - 1);
      HtasPlans(n - 1);
      TallyTicks(Htas, n, Switched(Htas));
      HtasSwitchesOn(n - 1);
    }
  }

  lemma NoSwitches(n: nat)
    requires n == 0
    ensures SwitchesBefore(n) == Tally(Htas, n, Switched(Htas)) == 0
  {
  }

  // ---- Aging ----

  /** A ready task that is not dispatched waits one tick more, and past 100 of them its score is raised by 5;
      a dispatch ends both. */
  lemma WaitingRaises(t: SimTask, c: int, tick: nat, switched: bool)
    requires c < NUM_CPUS && (c >= 0 ==> PrepareTask(t).ready)
    ensures var u := TaskAfter(t, c, tick, switched);
      if c >= 0 then u.waitTime == 0 && u.boostAging == 0
      else if !PrepareTask(t).ready then u.waitTime == t.waitTime && u.boostAging == t.boostAging
      else u.waitTime == t.waitTime + 1 && u.boostAging == if t.waitTime + 1 > 100 then 5 else t.boostAging
  {
  }
}
