/** The synthetic workload of kernel/sched/htas_benchmark.c: eight simulated tasks on four CPUs under
    three scheduling policies. Everything is deterministic, so one simulated tick is a function. */
module Simulation {
  import opened Basics

  const SIM_TICK_US := 1000
  const SIM_TASK_COUNT := 8
  const NUM_CPUS := 4
  const AGING_THRESHOLD := 100
  const AGING_PRIORITY_BOOST := 5
  const DYNAMIC_LOAD_THRESHOLD := 25

  type NumaNode = n: nat | n < 2
  datatype CpuType = PCore | ECore
  datatype Intent = Performance | Efficiency | LowLatency | Default
  datatype Policy = Baseline | Htas | Dynamic

  /** The part of a simulated task that sim_init_tasks fixes once and for all. */
  datatype Profile = Profile(intent: Intent, preferredType: CpuType, preferredNuma: NumaNode, basePriority: int,
                             dutyCycle: nat, activeTicks: nat, periodMs: nat, workMs: nat)

  datatype SimTask = SimTask(
    profile: Profile,
    dutyPhase: nat,
    workRemaining: nat,
    timeSinceRelease: nat,
    waitingSinceReady: nat,
    ready: bool,
    selected: bool,
    scheduled: bool,
    lastScheduledTick: nat,
    runtimeUs: nat,
    switches: nat,
    numaPenalties: nat,
    waitTime: nat,
    boostAging: int,
    recentCpuTicks: nat,
    inferredNuma: NumaNode,
    inferredLocked: bool)

  datatype IntentStats = IntentStats(runtimeUs: nat, switches: nat)

  datatype Stats = Stats(
    totalTicks: nat,
    contextSwitches: nat,
    numaPenalties: nat,
    ecoreTimeUs: nat,
    pcoreTimeUs: nat,
    intents: map<Intent, IntentStats>,
    power: nat)

  datatype Sim = Sim(
    tasks: seq<SimTask>,
    lastTask: seq<int>,
    latencyTotalUs: nat,
    latencySamples: nat,
    latencyMaxUs: nat,
    tick: nat,
    rrIndex: nat,
    stats: Stats)

  ghost predicate Shape(s: Sim) {
    && |s.tasks| == SIM_TASK_COUNT
    && |s.lastTask| == NUM_CPUS
    && s.rrIndex < SIM_TASK_COUNT
    && s.stats.intents.Keys == {Performance, Efficiency, LowLatency, Default}
  }

  // ---- Topology and workload tables ----

  function TypeOfCpu(cpu: nat): CpuType {
    if cpu < 2 then PCore else ECore
  }

  function NumaOfCpu(cpu: nat): NumaNode {
    if cpu < 2 then 0 else 1
  }

  const PERF0 := 0
  const PERF1 := 1
  const LOW_LAT := 6
  const NUMA := 7

  predicate IsEfficiency(i: int) {
    2 <= i < 6
  }

  function ProfileOf(i: nat): Profile {
    if i == PERF0 then Profile(Performance, PCore, 0, 12, 0, 0, 0, 0)
    else if i == PERF1 then Profile(Performance, PCore, 1, 11, 0, 0, 0, 0)
    else if IsEfficiency(i) then Profile(Efficiency, ECore, 1, 10, 5, 1, 0, 0)
    else if i == LOW_LAT then Profile(LowLatency, PCore, 0, 10, 0, 0, 16, 2)
    else Profile(Performance, ECore, 1, 10, 0, 0, 0, 0)
  }

  function InitialTask(i: nat): SimTask {
    SimTask(ProfileOf(i), 0, 0, if i == LOW_LAT then 16 else 0, 0, false, false, false, 0, 0, 0, 0, 0, 0, 0, 0, false)
  }

  const NO_INTENT_STATS := IntentStats(0, 0)

  function Initial(): (s: Sim)
    ensures Shape(s)
  {
    Sim(seq(SIM_TASK_COUNT, i requires 0 <= i => InitialTask(i)),
        [-1, -1, -1, -1],
        0, 0, 0, 0, 0,
        Stats(0, 0, 0, 0, 0,
              map[Performance := NO_INTENT_STATS, Efficiency := NO_INTENT_STATS,
                  LowLatency := NO_INTENT_STATS, Default := NO_INTENT_STATS], 0))
  }

  // ---- One tick ----

  function PrepareTask(t: SimTask): SimTask {
    var u := t.(selected := false, scheduled := false);
    var p := t.profile;
    if p.intent.LowLatency? then
      if u.workRemaining != 0 then u.(ready := true)
      else if u.timeSinceRelease < p.periodMs then u.(timeSinceRelease := u.timeSinceRelease + 1, ready := false)
      else
        var v := if !u.ready then u.(workRemaining := p.workMs, waitingSinceReady := 0) else u;
        v.(ready := v.workRemaining > 0)
    else if p.dutyCycle > 0 then
      u.(ready := u.dutyPhase < p.activeTicks, dutyPhase := (u.dutyPhase + 1) % p.dutyCycle)
    else u.(ready := true)
  }

  function Prepared(s: Sim): (r: Sim)
    ensures r == s.(tasks := r.tasks) && |r.tasks| == |s.tasks|
    ensures forall i :: 0 <= i < |s.tasks| ==> r.tasks[i] == PrepareTask(s.tasks[i])
  {
    s.(tasks := seq(|s.tasks|, i requires 0 <= i < |s.tasks| => PrepareTask(s.tasks[i])))
  }

  predicate Eligible(ts: seq<SimTask>, i: int) {
    0 <= i < |ts| && ts[i].ready && !ts[i].selected
  }

  function Affinity(cpu: nat, wanted: CpuType): int {
    match wanted
    case PCore => if TypeOfCpu(cpu).PCore? then 12 else -8
    case ECore => if TypeOfCpu(cpu).ECore? then 12 else -6
  }

  function Locality(cpu: nat, node: NumaNode): int {
    if NumaOfCpu(cpu) == node then 8 else -6
  }

  /** Ticks since the last dispatch, in the 32-bit arithmetic of the source, in units of four. */
  function Age(t: SimTask, tick: nat): nat {
    (tick - t.lastScheduledTick) % WRAP / 4
  }

  function HtasScore(t: SimTask, cpu: nat, tick: nat): int {
    t.profile.basePriority
    + Affinity(cpu, t.profile.preferredType)
    + Locality(cpu, t.profile.preferredNuma)
    + (if t.profile.intent.LowLatency? then if t.waitingSinceReady > 0 then 30 else 15 else 0)
    + Age(t, tick) + t.boostAging
  }

  function DynamicScore(t: SimTask, cpu: nat, tick: nat): int {
    t.profile.basePriority
    + Affinity(cpu, if t.recentCpuTicks > DYNAMIC_LOAD_THRESHOLD then PCore else ECore)
    + Locality(cpu, t.inferredNuma)
    + (if t.waitingSinceReady > 0 then 5 else 0)
    + Age(t, tick) + t.boostAging
  }

  function Score(policy: Policy, t: SimTask, cpu: nat, tick: nat): int {
    if policy.Dynamic? then DynamicScore(t, cpu, tick) else HtasScore(t, cpu, tick)
  }

  const WORST_SCORE := -1000

  /** The highest score among the first `n` tasks, the lowest index winning ties. */
  ghost predicate IsBest(policy: Policy, ts: seq<SimTask>, cpu: nat, tick: nat, n: nat, r: int)
    requires n <= |ts|
  {
    if r == -1 then forall j :: 0 <= j < n && Eligible(ts, j) ==> Score(policy, ts[j], cpu, tick) <= WORST_SCORE
    else
      && 0 <= r < n && Eligible(ts, r) && Score(policy, ts[r], cpu, tick) > WORST_SCORE
      && forall j :: 0 <= j < n && Eligible(ts, j) && j != r ==>
           || Score(policy, ts[j], cpu, tick) < Score(policy, ts[r], cpu, tick)
           || (Score(policy, ts[j], cpu, tick) == Score(policy, ts[r], cpu, tick) && r < j)
  }

  function Best(policy: Policy, ts: seq<SimTask>, cpu: nat, tick: nat, n: nat): (r: int)
    requires n <= |ts|
    ensures r == -1 || Eligible(ts, r)
  {
    if n == 0 then -1
    else
      var b := Best(policy, ts, cpu, tick, n - 1);
      var bestScore := if b < 0 then WORST_SCORE else Score(policy, ts[b], cpu, tick);
      if Eligible(ts, n - 1) && Score(policy, ts[n - 1], cpu, tick) > bestScore then n - 1 else b
  }

  lemma {:induction false} BestIsBest(policy: Policy, ts: seq<SimTask>, cpu: nat, tick: nat, n: nat)
    requires n <= |ts|
    ensures IsBest(policy, ts, cpu, tick, n, Best(policy, ts, cpu, tick, n))
  {
    if n > 0 { BestIsBest(policy, ts, cpu, tick, n - 1); }
  }

  function Slot(start: nat, k: nat): nat {
    (start + k) % SIM_TASK_COUNT
  }

  /** The first eligible task at cyclic distance `from` or more from `start`. */
  ghost predicate IsNext(ts: seq<SimTask>, start: nat, from: nat, r: int) {
    if r == -1 then forall k :: from <= k < SIM_TASK_COUNT ==> !Eligible(ts, Slot(start, k))
    else exists k :: from <= k < SIM_TASK_COUNT && r == Slot(start, k) && Eligible(ts, r)
                     && forall j :: from <= j < k ==> !Eligible(ts, Slot(start, j))
  }

  /** The last `left` of the eight attempts. */
  function RoundRobin(ts: seq<SimTask>, start: nat, left: nat): (r: int)
    requires |ts| == SIM_TASK_COUNT && start < SIM_TASK_COUNT && left <= SIM_TASK_COUNT
    ensures r == -1 || Eligible(ts, r)
  {
    if left == 0 then -1
    else
      var slot := Slot(start, SIM_TASK_COUNT - left);
      if Eligible(ts, slot) then slot else RoundRobin(ts, start, left - 1)
  }

  lemma {:induction false} RoundRobinIsNext(ts: seq<SimTask>, start: nat, left: nat)
    requires |ts| == SIM_TASK_COUNT && start < SIM_TASK_COUNT && left <= SIM_TASK_COUNT
    ensures IsNext(ts, start, SIM_TASK_COUNT - left, RoundRobin(ts, start, left))
  {
    if left > 0 { RoundRobinIsNext(ts, start, left - 1); }
  }

  function Choice(s: Sim, policy: Policy, cpu: nat): (r: int)
    requires Shape(s)
    ensures r == -1 || Eligible(s.tasks, r)
  {
    if policy.Baseline? then RoundRobin(s.tasks, s.rrIndex, |s.tasks|)
    else Best(policy, s.tasks, cpu, s.tick, |s.tasks|)
  }

  function Selected(s: Sim, policy: Policy, r: int): Sim
    requires r == -1 || 0 <= r < |s.tasks|
  {
    if r < 0 then s
    else s.(tasks := s.tasks[r := s.tasks[r].(selected := true)],
            rrIndex := if policy.Baseline? then (r + 1) % SIM_TASK_COUNT else s.rrIndex)
  }

  /** The selections for CPUs 0..cpus-1, in that order. */
  function Assign(s: Sim, policy: Policy, cpus: nat): (r: (Sim, seq<int>))
    requires Shape(s)
    ensures Shape(r.0) && |r.1| == cpus
    ensures r.0 == s.(tasks := r.0.tasks, rrIndex := r.0.rrIndex)
    ensures forall c :: 0 <= c < cpus ==> r.1[c] == -1 || 0 <= r.1[c] < SIM_TASK_COUNT
  {
    if cpus == 0 then (s, [])
    else
      var (t, a) := Assign(s, policy, cpus - 1);
      var c := Choice(t, policy, cpus - 1);
      (Selected(t, policy, c), a + [c])
  }

  /** What one tick of processor time does to the simulated task that got it. */
  function RunTask(t: SimTask, cpu: nat, tick: nat, switched: bool): SimTask {
    var p := t.profile;
    var node := NumaOfCpu(cpu);
    var learns := !t.inferredLocked && node == p.preferredNuma;
    var finished := t.workRemaining == 1;
    t.(waitTime := 0,
       boostAging := 0,
       scheduled := true,
       recentCpuTicks := t.recentCpuTicks + 1,
       inferredNuma := if learns then p.preferredNuma else t.inferredNuma,
       inferredLocked := t.inferredLocked || learns,
       switches := t.switches + if switched then 1 else 0,
       runtimeUs := t.runtimeUs + SIM_TICK_US,
       numaPenalties := t.numaPenalties + if p.preferredNuma != node then 1 else 0,
       workRemaining := if t.workRemaining > 0 then t.workRemaining - 1 else 0,
       timeSinceRelease := if finished then 0 else t.timeSinceRelease,
       ready := t.ready && !finished,
       lastScheduledTick := tick)
  }

  /** The first dispatch after a release is the one whose latency is sampled. */
  predicate Sampled(t: SimTask) {
    t.profile.intent.LowLatency? && t.workRemaining == t.profile.workMs
  }

  /** The latency counter is 32 bits wide. */
  function JitterUs(t: SimTask): nat {
    t.waitingSinceReady * SIM_TICK_US % WRAP
  }

  function Charge(st: Stats, cpu: nat, t: SimTask, switched: bool): Stats
    requires t.profile.intent in st.intents
  {
    var pcore := TypeOfCpu(cpu).PCore?;
    var i := st.intents[t.profile.intent];
    st.(contextSwitches := st.contextSwitches + if switched then 1 else 0,
        power := st.power + if pcore then 120 else 70,
        pcoreTimeUs := st.pcoreTimeUs + if pcore then SIM_TICK_US else 0,
        ecoreTimeUs := st.ecoreTimeUs + if pcore then 0 else SIM_TICK_US,
        numaPenalties := st.numaPenalties + if t.profile.preferredNuma != NumaOfCpu(cpu) then 1 else 0,
        intents := st.intents[t.profile.intent :=
          IntentStats(i.runtimeUs + SIM_TICK_US, i.switches + if switched then 1 else 0)])
  }

  /** sim_update_task_stats: CPU `cpu` spends the tick on task `r`, or idles when `r` is -1. */
  function Update(s: Sim, cpu: nat, r: int): (u: Sim)
    requires Shape(s) && cpu < NUM_CPUS && (r == -1 || 0 <= r < SIM_TASK_COUNT)
    ensures Shape(u) && u.tick == s.tick && u.stats.totalTicks == s.stats.totalTicks
  {
    if r < 0 then s.(stats := s.stats.(power := s.stats.power + if TypeOfCpu(cpu).PCore? then 30 else 20))
    else
      var t := s.tasks[r];
      var switched := s.lastTask[cpu] != r;
      var sampled := Sampled(t);
      s.(tasks := s.tasks[r := RunTask(t, cpu, s.tick, switched)],
         lastTask := s.lastTask[cpu := r],
         latencyTotalUs := s.latencyTotalUs + if sampled then JitterUs(t) else 0,
         latencySamples := s.latencySamples + if sampled then 1 else 0,
         latencyMaxUs := if sampled && JitterUs(t) > s.latencyMaxUs then JitterUs(t) else s.latencyMaxUs,
         stats := Charge(s.stats, cpu, t, switched))
  }

  function UpdateAll(s: Sim, plan: seq<int>, cpus: nat): (u: Sim)
    requires Shape(s) && cpus <= NUM_CPUS == |plan|
    requires forall c :: 0 <= c < NUM_CPUS ==> plan[c] == -1 || 0 <= plan[c] < SIM_TASK_COUNT
    ensures Shape(u) && u.tick == s.tick && u.stats.totalTicks == s.stats.totalTicks
  {
    if cpus == 0 then s else Update(UpdateAll(s, plan, cpus - 1), cpus - 1, plan[cpus - 1])
  }

  function FinalizeTask(t: SimTask): SimTask {
    var w := if !t.profile.intent.LowLatency? then t.waitingSinceReady
             else if t.workRemaining > 0 && !t.scheduled then t.waitingSinceReady + 1
             else if t.workRemaining == 0 then 0
             else t.waitingSinceReady;
    var waited := t.ready && !t.scheduled;
    t.(waitingSinceReady := w,
       waitTime := if waited then t.waitTime + 1 else t.waitTime,
       boostAging := if waited && t.waitTime + 1 > AGING_THRESHOLD then AGING_PRIORITY_BOOST else t.boostAging,
       recentCpuTicks := if t.recentCpuTicks > 0 then t.recentCpuTicks - 1 else 0,
       selected := false,
       scheduled := false)
  }

  function Finalized(s: Sim): (r: Sim)
    ensures r == s.(tasks := r.tasks) && |r.tasks| == |s.tasks|
    ensures forall i :: 0 <= i < |s.tasks| ==> r.tasks[i] == FinalizeTask(s.tasks[i])
  {
    s.(tasks := seq(|s.tasks|, i requires 0 <= i < |s.tasks| => FinalizeTask(s.tasks[i])))
  }

  /** The state after sim_prepare_tick of the next tick. */
  function Started(s: Sim): (r: Sim)
    requires Shape(s)
    ensures Shape(r)
  {
    Prepared(s.(stats := s.stats.(totalTicks := s.stats.totalTicks + 1)))
  }

  function Tick(s: Sim, policy: Policy): (r: Sim)
    requires Shape(s)
    ensures Shape(r) && r.tick == s.tick + 1 && r.stats.totalTicks == s.stats.totalTicks + 1
  {
    var (chosen, plan) := Assign(Started(s), policy, |s.lastTask|);
    var u := Finalized(UpdateAll(chosen, plan, |plan|));
    u.(tick := u.tick + 1)
  }

  /** The state after `ticks` iterations of the main loop of simulate_workload. */
  function Simulated(policy: Policy, ticks: nat): (r: Sim)
    ensures Shape(r) && r.tick == ticks == r.stats.totalTicks
  {
    if ticks == 0 then Initial() else Tick(Simulated(policy, ticks - 1), policy)
  }
}
