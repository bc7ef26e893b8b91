/** Exact accounting: the aggregate statistics against the per-task and per-intent ones. */
module SimulationAccounting {
  import opened Simulation
  import opened SimulationTicks

  function Runtime(t: SimTask): nat { t.runtimeUs }
  function Switches(t: SimTask): nat { t.switches }
  function Penalties(t: SimTask): nat { t.numaPenalties }

  ghost function Sum(f: SimTask -> nat, ts: seq<SimTask>): nat {
    if ts == [] then 0 else Sum(f, ts[..|ts| - 1]) + f(ts[|ts| - 1])
  }

  lemma {:induction false} SumUpdate(f: SimTask -> nat, ts: seq<SimTask>, i: nat, t: SimTask)
    requires i < |ts|
    ensures Sum(f, ts[i := t]) == Sum(f, ts) - f(ts[i]) + f(t)
  {
    var n := |ts| - 1;
    if i < n {
      SumUpdate(f, ts[..n], i, t);
      assert ts[i := t][..n] == ts[..n][i := t];
    } else {
      assert ts[i := t][..n] == ts[..n];
    }
  }

  lemma {:induction false} SumSame(f: SimTask -> nat, ts: seq<SimTask>, us: seq<SimTask>)
    requires |ts| == |us| && forall i :: 0 <= i < |ts| ==> f(ts[i]) == f(us[i])
    ensures Sum(f, ts) == Sum(f, us)
  {
    if ts != [] { SumSame(f, ts[..|ts| - 1], us[..|us| - 1]); }
  }

  ghost function IntentRuntime(st: Stats): nat
    requires st.intents.Keys == {Performance, Efficiency, LowLatency, Default}
  {
    st.intents[Performance].runtimeUs + st.intents[Efficiency].runtimeUs
    + st.intents[LowLatency].runtimeUs + st.intents[Default].runtimeUs
  }

  ghost function IntentSwitches(st: Stats): nat
    requires st.intents.Keys == {Performance, Efficiency, LowLatency, Default}
  {
    st.intents[Performance].switches + st.intents[Efficiency].switches
    + st.intents[LowLatency].switches + st.intents[Default].switches
  }

  /** `power` is the idle power of the CPUs that have been charged in the current tick. */
  ghost predicate Balanced(s: Sim, idlePower: nat)
    requires Shape(s)
  {
    var st := s.stats;
    && st.pcoreTimeUs + st.ecoreTimeUs == Sum(Runtime, s.tasks) == IntentRuntime(st)
    && st.contextSwitches == Sum(Switches, s.tasks) == IntentSwitches(st)
    && st.numaPenalties == Sum(Penalties, s.tasks)
    && WholeTicks(st, idlePower)
  }

  function IdlePower(cpus: nat): nat {
    if cpus == 0 then 0 else IdlePower(cpus - 1) + if TypeOfCpu(cpus - 1).PCore? then 30 else 20
  }

  /** The part of the balance that concerns the aggregate statistics alone. */
  ghost predicate WholeTicks(st: Stats, idlePower: nat) {
    && st.pcoreTimeUs % SIM_TICK_US == 0 && st.ecoreTimeUs % SIM_TICK_US == 0
    && SIM_TICK_US * st.power == SIM_TICK_US * idlePower + 90 * st.pcoreTimeUs + 50 * st.ecoreTimeUs
  }

  lemma ChargePower(st: Stats, cpu: nat, t: SimTask, switched: bool, idle: nat)
    requires t.profile.intent in st.intents && WholeTicks(st, idle)
    ensures WholeTicks(Charge(st, cpu, t, switched), idle + if TypeOfCpu(cpu).PCore? then 30 else 20)
  {
  }

  lemma ChargeIntents(st: Stats, cpu: nat, t: SimTask, switched: bool)
    requires t.profile.intent in st.intents
    requires st.intents.Keys == {Performance, Efficiency, LowLatency, Default}
    ensures Charge(st, cpu, t, switched).intents.Keys == st.intents.Keys
    ensures IntentRuntime(Charge(st, cpu, t, switched)) == IntentRuntime(st) + SIM_TICK_US
    ensures IntentSwitches(Charge(st, cpu, t, switched)) == IntentSwitches(st) + if switched then 1 else 0
  {
    assert Charge(st, cpu, t, switched).intents.Keys == st.intents.Keys + {t.profile.intent};
  }

  lemma EveryIntentCounted(st: Stats, intent: Intent)
    requires st.intents.Keys == {Performance, Efficiency, LowLatency, Default}
    ensures intent in st.intents
  {
    assert intent in {Performance, Efficiency, LowLatency, Default};
  }

  lemma UpdateBalances(s: Sim, cpu: nat, r: int, idle: nat)
    requires Shape(s) && cpu < NUM_CPUS && (r == -1 || 0 <= r < SIM_TASK_COUNT)
    requires Balanced(s, idle)
    ensures Balanced(Update(s, cpu, r), idle + if TypeOfCpu(cpu).PCore? then 30 else 20)
  {
    if r >= 0 {
      var switched := s.lastTask[cpu] != r;
      var t := RunTask(s.tasks[r], cpu, s.tick, switched);
      var intent := s.tasks[r].profile.intent;
      EveryIntentCounted(s.stats, intent);
      ChargePower(s.stats, cpu, s.tasks[r], switched, idle);
      ChargeIntents(s.stats, cpu, s.tasks[r], switched);
      SumUpdate(Runtime, s.tasks, r, t);
      SumUpdate(Switches, s.tasks, r, t);
      SumUpdate(Penalties, s.tasks, r, t);
    }
  }

  lemma {:induction false} UpdateAllBalances(s: Sim, plan: seq<int>, cpus: nat, idle: nat)
    requires Shape(s) && cpus <= NUM_CPUS == |plan|
    requires forall c :: 0 <= c < NUM_CPUS ==> plan[c] == -1 || 0 <= plan[c] < SIM_TASK_COUNT
    requires Balanced(s, idle)
    ensures Balanced(UpdateAll(s, plan, cpus), idle + IdlePower(cpus))
  {
    if cpus > 0 {
      UpdateAllBalances(s, plan, cpus - 1, idle);
      UpdateBalances(UpdateAll(s, plan, cpus - 1), cpus - 1, plan[cpus - 1], idle + IdlePower(cpus - 1));
    }
  }

  /** Steps that touch no counter keep the books balanced. */
  lemma QuietBalances(s: Sim, u: Sim, idle: nat)
    requires Shape(s) && Shape(u) && Balanced(s, idle)
    requires u.stats == s.stats.(totalTicks := u.stats.totalTicks)
    requires forall i :: 0 <= i < SIM_TASK_COUNT ==>
      && Runtime(u.tasks[i]) == Runtime(s.tasks[i])
      && Switches(u.tasks[i]) == Switches(s.tasks[i])
      && Penalties(u.tasks[i]) == Penalties(s.tasks[i])
    ensures Balanced(u, idle)
  {
    SumSame(Runtime, s.tasks, u.tasks);
    SumSame(Switches, s.tasks, u.tasks);
    SumSame(Penalties, s.tasks, u.tasks);
  }

  lemma TickBalances(s: Sim, policy: Policy, idle: nat, total: nat)
    requires Shape(s) && Balanced(s, idle) && total == idle + 100
    ensures Balanced(Tick(s, policy), total)
  {
    hide Assign, RunTask, UpdateAll;
    var s0 := Started(s);
    var (t, plan) := Assign(s0, policy, |s.lastTask|);
    AssignMarks(s0, policy, |s.lastTask|);
    QuietBalances(s, t, idle);
    UpdateAllBalances(t, plan, |plan|, idle);
    var u := UpdateAll(t, plan, |plan|);
    assert IdlePower(4) == 100;
    QuietBalances(u, Finalized(u), total);
  }

  /** For every duration and every policy: processor time equals the sum of task runtimes and of
      per-intent runtimes, switches and NUMA penalties equal their per-task sums, and power is the
      idle power of all ticks plus the surcharge of the busy ones. */
  lemma {:induction false} Accounting(policy: Policy, n: nat)
    ensures Balanced(Simulated(policy, n), 100 * n)
  {
    if n == 0 {
      InitialBalanced(Simulated(policy, n), 100 * n);
    } else {
      Accounting(policy, n - 1);
      TickBalances(Simulated(policy, n - 1), policy, 100 * (n - 1), 100 * n);
    }
  }

  /** The same identities spelled out. */
  lemma AccountingIdentities(policy: Policy, n: nat)
    ensures var s := Simulated(policy, n);
            var st := s.stats;
      && st.pcoreTimeUs + st.ecoreTimeUs == Sum(Runtime, s.tasks) == IntentRuntime(st)
      && st.contextSwitches == Sum(Switches, s.tasks) == IntentSwitches(st)
      && st.numaPenalties == Sum(Penalties, s.tasks)
      && st.power == 100 * n + 90 * (st.pcoreTimeUs / SIM_TICK_US) + 50 * (st.ecoreTimeUs / SIM_TICK_US)
  {
    Accounting(policy, n);
  }

  lemma InitialBalanced(s: Sim, idle: nat)
    requires s == Initial() && idle == 0
    ensures Balanced(s, idle)
  {
    SumZero(Runtime, s.tasks);
    SumZero(Switches, s.tasks);
    SumZero(Penalties, s.tasks);
  }

  lemma {:induction false} SumZero(f: SimTask -> nat, ts: seq<SimTask>)
    requires forall i :: 0 <= i < |ts| ==> f(ts[i]) == 0
    ensures Sum(f, ts) == 0
  {
    if ts != [] { SumZero(f, ts[..|ts| - 1]); }
  }
}
