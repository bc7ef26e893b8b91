/** Release-to-dispatch latency of the LOW_LAT task: exact schedules under HTAS, one tick of slack
    under round-robin. */
module SimulationLatency {
  import opened Simulation
  import opened SimulationTicks

  ghost predicate Profiles(s: Sim)
    requires Shape(s)
  {
    forall i :: 0 <= i < SIM_TASK_COUNT ==> s.tasks[i].profile == ProfileOf(i)
  }

  /** The background tasks are released together on every fifth tick. */
  ghost predicate Phased(s: Sim)
    requires Shape(s)
  {
    forall i :: IsEfficiency(i) ==> s.tasks[i].dutyPhase == s.tick % 5
  }

  predicate BackgroundTick(tick: nat) {
    tick % 5 == 0
  }

  // ---- HTAS: the schedule repeats, so every age is known ----

  /** LOW_LAT works on ticks 0 and 1 of every 18 and never waits. */
  ghost predicate LowLatPunctual(t: SimTask, tick: nat) {
    var p := tick % 18;
    && t.waitingSinceReady == 0
    && t.boostAging >= 0
    && t.workRemaining == (if p == 1 then 1 else 0)
    && (p == 0 ==> t.timeSinceRelease == 16 && !t.ready)
    && (p >= 2 ==> t.timeSinceRelease == p - 2)
  }

  /** A task that misses at most the ticks on which the background tasks are released. */
  ghost predicate Steady(t: SimTask, tick: nat) {
    && t.lastScheduledTick <= tick
    && t.boostAging == 0
    && if tick > 0 && BackgroundTick(tick - 1)
       then tick - t.lastScheduledTick <= 2 && t.waitTime <= 1
       else tick - t.lastScheduledTick <= 1 && t.waitTime == 0
  }

  /** Last dispatch and waiting time of a background task. */
  datatype Stamp = Stamp(last: nat, wait: nat)

  ghost predicate Stamped(t: SimTask, st: Stamp) {
    t.lastScheduledTick == st.last && t.waitTime == st.wait && t.boostAging == 0
  }

  /** The background tasks run in pairs that alternate, after a first round that pair 2, 3 wins twice. */
  ghost function RecentStamp(tick: nat): Stamp {
    if tick == 0 then Stamp(0, 0) else Stamp((tick - 1) / 5 * 5, 0)
  }

  ghost function OtherStamp(tick: nat): Stamp {
    if tick == 0 then Stamp(0, 0)
    else
      var q := (tick - 1) / 5;
      Stamp(if q <= 1 then 0 else (q - 1) * 5, if q == 1 then 2 else 1)
  }

  /** Whether the pair 2, 3 was the last one dispatched. */
  ghost predicate FirstPairRecent(tick: nat) {
    tick == 0 || (tick - 1) / 5 == 0 || (tick - 1) / 5 % 2 == 1
  }

  ghost function StampOf(i: int, tick: nat): Stamp {
    if (i < 4) == FirstPairRecent(tick) then RecentStamp(tick) else OtherStamp(tick)
  }

  ghost predicate OnSchedule(t: SimTask, i: int, tick: nat) {
    if IsEfficiency(i) then Stamped(t, StampOf(i, tick))
    else if i == LOW_LAT then LowLatPunctual(t, tick)
    else Steady(t, tick)
  }

  ghost predicate HtasInv(s: Sim)
    requires Shape(s)
  {
    && Profiles(s) && Phased(s)
    && (forall i :: 0 <= i < SIM_TASK_COUNT ==> OnSchedule(s.tasks[i], i, s.tick))
    && s.latencyMaxUs == 0
  }

  /** Which pair HTAS dispatches on a background tick. */
  ghost predicate FirstPairRuns(tick: nat) {
    tick <= 5 || !FirstPairRecent(tick)
  }

  ghost predicate LowLatRuns(tick: nat) {
    tick % 18 <= 1
  }

  /** The complete assignment of CPUs 0..3 on a given tick. */
  ghost function HtasPlan(tick: nat): (plan: seq<int>)
    ensures |plan| == NUM_CPUS
  {
    [if LowLatRuns(tick) then LOW_LAT else PERF0,
     if LowLatRuns(tick) then PERF0 else PERF1,
     if BackgroundTick(tick) then if FirstPairRuns(tick) then 2 else 4 else NUMA,
     if BackgroundTick(tick) then if FirstPairRuns(tick) then 3 else 5
     else if LowLatRuns(tick) then PERF1 else -1]
  }

  /** `e` wins the selection for `cpu` among the ready tasks not in `plan`. */
  ghost predicate Wins(s: Sim, plan: seq<int>, cpu: nat, e: int)
    requires Shape(s)
  {
    && 0 <= e < SIM_TASK_COUNT && s.tasks[e].ready && e !in plan
    && HtasScore(s.tasks[e], cpu, s.tick) > WORST_SCORE
    && forall j :: 0 <= j < SIM_TASK_COUNT && s.tasks[j].ready && j !in plan && j != e ==>
         || HtasScore(s.tasks[j], cpu, s.tick) < HtasScore(s.tasks[e], cpu, s.tick)
         || (HtasScore(s.tasks[j], cpu, s.tick) == HtasScore(s.tasks[e], cpu, s.tick) && e < j)
  }

  lemma WinnerIsChosen(s: Sim, cpu: nat, e: int)
    requires Shape(s) && NothingSelected(s)
    requires var plan := Assign(s, Htas, cpu).1;
      if e == -1 then forall j :: 0 <= j < SIM_TASK_COUNT && s.tasks[j].ready ==> j in plan
      else Wins(s, plan, cpu, e)
    ensures Assign(s, Htas, cpu + 1).1 == Assign(s, Htas, cpu).1 + [e]
  {
    hide Score, HtasScore, Eligible;
    AssignMarks(s, Htas, cpu);
    var (u, plan) := Assign(s, Htas, cpu);
    MarksKeepScores(s, cpu);
    BestIsBest(Htas, u.tasks, cpu, u.tick, |u.tasks|);
  }

  /** The dispatches made so far this tick change neither the scores nor the readiness of the other tasks. */
  lemma MarksKeepScores(s: Sim, cpu: nat)
    requires Shape(s) && NothingSelected(s)
    ensures var (u, plan) := Assign(s, Htas, cpu);
      && |u.tasks| == SIM_TASK_COUNT && u.tick == s.tick
      && (forall j :: 0 <= j < SIM_TASK_COUNT ==>
           Score(Htas, u.tasks[j], cpu, u.tick) == HtasScore(s.tasks[j], cpu, s.tick))
      && (forall j :: 0 <= j < SIM_TASK_COUNT ==> (Eligible(u.tasks, j) <==> s.tasks[j].ready && j !in plan))
  {
    AssignMarks(s, Htas, cpu);
  }

  ghost predicate ReadyOn(i: int, tick: nat) {
    || i == PERF0 || i == PERF1 || i == NUMA
    || (IsEfficiency(i) && BackgroundTick(tick)) || (i == LOW_LAT && LowLatRuns(tick))
  }

  lemma HtasReady(s: Sim, i: int)
    requires Shape(s) && HtasInv(s) && 0 <= i < SIM_TASK_COUNT
    ensures Started(s).tasks[i].ready <==> ReadyOn(i, s.tick)
  {
    assert s.tasks[i].profile == ProfileOf(i) && OnSchedule(s.tasks[i], i, s.tick);
    assert IsEfficiency(i) ==> s.tasks[i].dutyPhase == s.tick % 5;
  }

  /** The HTAS score of a ready task; for the background tasks it depends on the last dispatch. */
  ghost function ScoreOn(i: int, cpu: nat, tick: nat): int {
    if cpu < 2 then
      if i == PERF0 then 32 else if i == PERF1 then 17 else if i == LOW_LAT then 45 else if i == NUMA then -2
      else -2 + StampAge(i, tick)
    else
      if i == PERF0 then -2 else if i == PERF1 then 11 else if i == LOW_LAT then 11 else if i == NUMA then 30
      else 30 + StampAge(i, tick)
  }

  ghost function StampAge(i: int, tick: nat): nat {
    if StampOf(i, tick).last <= tick then (tick - StampOf(i, tick).last) / 4 else 0
  }

  lemma StampAges(i: int, tick: nat)
    requires IsEfficiency(i)
    ensures StampAge(i, tick) <= 2
    ensures BackgroundTick(tick) ==>
      StampAge(i, tick) == if tick == 0 then 0 else if tick >= 10 && ((i < 4) == FirstPairRuns(tick)) then 2 else 1
  {
  }

  lemma HtasScores(s: Sim, i: int, cpu: nat)
    requires Shape(s) && HtasInv(s) && 0 <= i < SIM_TASK_COUNT
    ensures var score := HtasScore(Started(s).tasks[i], cpu, s.tick);
      if i == LOW_LAT then score >= ScoreOn(i, cpu, s.tick) else score == ScoreOn(i, cpu, s.tick)
  {
    hide HtasScore, ScoreOn;
    if IsEfficiency(i) { BackgroundScores(s, i, cpu); } else { ForegroundScores(s, i, cpu); }
  }

  lemma BackgroundScores(s: Sim, i: int, cpu: nat)
    requires Shape(s) && HtasInv(s) && IsEfficiency(i)
    ensures HtasScore(Started(s).tasks[i], cpu, s.tick) == ScoreOn(i, cpu, s.tick)
  {
    assert s.tasks[i].profile == ProfileOf(i) && OnSchedule(s.tasks[i], i, s.tick);
  }

  lemma ForegroundScores(s: Sim, i: int, cpu: nat)
    requires Shape(s) && HtasInv(s) && 0 <= i < SIM_TASK_COUNT && !IsEfficiency(i)
    ensures var score := HtasScore(Started(s).tasks[i], cpu, s.tick);
      if i == LOW_LAT then score >= ScoreOn(i, cpu, s.tick) else score == ScoreOn(i, cpu, s.tick)
  {
    assert s.tasks[i].profile == ProfileOf(i) && OnSchedule(s.tasks[i], i, s.tick);
  }

  /** The same competition decided on the tables alone. */
  ghost predicate WinsOnPaper(tick: nat, plan: seq<int>, cpu: nat, e: int) {
    && 0 <= e < SIM_TASK_COUNT && ReadyOn(e, tick) && e !in plan
    && (LowLatRuns(tick) && LOW_LAT !in plan ==> e == LOW_LAT)
    && forall j :: 0 <= j < SIM_TASK_COUNT && ReadyOn(j, tick) && j !in plan && j != e ==>
         || ScoreOn(j, cpu, tick) < ScoreOn(e, cpu, tick)
         || (ScoreOn(j, cpu, tick) == ScoreOn(e, cpu, tick) && e < j)
  }

  lemma PaperDecides(s: Sim, plan: seq<int>, cpu: nat, e: int)
    requires Shape(s) && HtasInv(s) && WinsOnPaper(s.tick, plan, cpu, e)
    ensures Wins(Started(s), plan, cpu, e)
  {
    HtasReady(s, e);
    HtasScores(s, e, cpu);
    var s0 := Started(s);
    forall j | 0 <= j < SIM_TASK_COUNT && s0.tasks[j].ready && j !in plan && j != e
      ensures HtasScore(s0.tasks[j], cpu, s0.tick) < HtasScore(s0.tasks[e], cpu, s0.tick)
           || (HtasScore(s0.tasks[j], cpu, s0.tick) == HtasScore(s0.tasks[e], cpu, s0.tick) && e < j)
    {
      HtasReady(s, j);
      HtasScores(s, j, cpu);
    }
  }

  lemma HtasPlanWins(tick: nat, cpu: nat)
    requires cpu < NUM_CPUS && HtasPlan(tick)[cpu] != -1
    ensures WinsOnPaper(tick, HtasPlan(tick)[..cpu], cpu, HtasPlan(tick)[cpu])
  {
    var plan := HtasPlan(tick);
    assert cpu > 0 ==> plan[..cpu][0] == plan[0];
    assert cpu > 1 ==> plan[..cpu][1] == plan[1];
    assert cpu > 2 ==> plan[..cpu][2] == plan[2];
    forall j | IsEfficiency(j)
      ensures StampAge(j, tick) <= 2
      ensures BackgroundTick(tick) ==>
        StampAge(j, tick) == if tick == 0 then 0 else if tick >= 10 && ((j < 4) == FirstPairRuns(tick)) then 2 else 1
    {
      StampAges(j, tick);
    }
  }

  /** Under HTAS every tick's assignment is the periodic one. */
  lemma HtasAssigns(s: Sim)
    requires Shape(s) && HtasInv(s)
    ensures Plan(s, Htas) == HtasPlan(s.tick)
  {
    var plan := HtasPlan(s.tick);
    for cpu := 0 to |s.lastTask|
      invariant Assign(Started(s), Htas, cpu).1 == plan[..cpu]
    {
      HtasAssignsNext(s, Started(s), cpu);
    }
    assert plan[..4] == plan;
  }

  lemma HtasAssignsNext(s: Sim, s0: Sim, cpu: nat)
    requires Shape(s) && HtasInv(s) && cpu < NUM_CPUS && s0 == Started(s)
    requires Assign(s0, Htas, cpu).1 == HtasPlan(s.tick)[..cpu]
    ensures Assign(s0, Htas, cpu + 1).1 == HtasPlan(s.tick)[..cpu + 1]
  {
    HtasNextWinner(s, cpu);
    WinnerIsChosen(s0, cpu, HtasPlan(s.tick)[cpu]);
  }

  lemma HtasNextWinner(s: Sim, cpu: nat)
    requires Shape(s) && HtasInv(s) && cpu < NUM_CPUS
    ensures var plan, s0 := HtasPlan(s.tick), Started(s);
      && NothingSelected(s0)
      && if plan[cpu] == -1 then forall j :: 0 <= j < SIM_TASK_COUNT && s0.tasks[j].ready ==> j in plan[..cpu]
         else Wins(s0, plan[..cpu], cpu, plan[cpu])
  {
    var plan := HtasPlan(s.tick);
    if plan[cpu] != -1 {
      HtasPlanWins(s.tick, cpu);
      PaperDecides(s, plan[..cpu], cpu, plan[cpu]);
    } else {
      NobodyLeft(s);
    }
  }

  lemma NobodyLeft(s: Sim)
    requires Shape(s) && HtasInv(s) && HtasPlan(s.tick)[3] == -1
    ensures forall j :: 0 <= j < SIM_TASK_COUNT && Started(s).tasks[j].ready ==> j in HtasPlan(s.tick)[..3]
  {
    var plan := HtasPlan(s.tick);
    forall j | 0 <= j < SIM_TASK_COUNT && Started(s).tasks[j].ready ensures j in plan[..3] {
      HtasReady(s, j);
      assert plan[..3][0] == plan[0] && plan[..3][1] == plan[1] && plan[..3][2] == plan[2];
    }
  }

  // ---- One tick keeps the schedule going ----

  lemma SteadyAfter(t: SimTask, cpu: int, tick: nat, switched: bool)
    requires Steady(t, tick) && t.profile.intent.Performance? && t.profile.dutyCycle == 0
    requires cpu >= 0 || BackgroundTick(tick)
    ensures Steady(TaskAfter(t, cpu, tick, switched), tick + 1)
  {
  }

  lemma StampAfter(t: SimTask, i: int, cpu: int, tick: nat, switched: bool)
    requires IsEfficiency(i) && t.profile == ProfileOf(i) && t.dutyPhase == tick % 5
    requires Stamped(t, StampOf(i, tick))
    requires cpu >= 0 <==> BackgroundTick(tick) && ((i < 4) == FirstPairRuns(tick))
    ensures Stamped(TaskAfter(t, cpu, tick, switched), StampOf(i, tick + 1))
  {
    StampStep(i, tick);
  }

  /** The stamps advance exactly as the dispatches and the waiting do. */
  lemma StampStep(i: int, tick: nat)
    requires IsEfficiency(i)
    ensures StampOf(i, tick + 1) ==
      if BackgroundTick(tick) && ((i < 4) == FirstPairRuns(tick)) then Stamp(tick, 0)
      else Stamp(StampOf(i, tick).last, StampOf(i, tick).wait + if BackgroundTick(tick) then 1 else 0)
    ensures StampOf(i, tick).wait <= 2
  {
  }

  lemma LowLatAfter(t: SimTask, cpu: int, tick: nat, switched: bool)
    requires t.profile == ProfileOf(LOW_LAT) && LowLatPunctual(t, tick)
    requires cpu >= 0 <==> LowLatRuns(tick)
    ensures LowLatPunctual(TaskAfter(t, cpu, tick, switched), tick + 1)
  {
  }

  ghost predicate RunsOn(i: int, tick: nat) {
    if i == PERF0 then true
    else if i == PERF1 then !(LowLatRuns(tick) && BackgroundTick(tick))
    else if i == LOW_LAT then LowLatRuns(tick)
    else if i == NUMA then !BackgroundTick(tick)
    else BackgroundTick(tick) && ((i < 4) == FirstPairRuns(tick))
  }

  lemma HtasPlanMembers(tick: nat, i: int)
    requires 0 <= i < SIM_TASK_COUNT
    ensures CpuOf(HtasPlan(tick), 4, i) >= 0 <==> RunsOn(i, tick)
  {
    var plan := HtasPlan(tick);
    assert plan == [plan[0], plan[1], plan[2], plan[3]];
  }

  lemma TaskStaysOnSchedule(t: SimTask, i: int, cpu: int, tick: nat, switched: bool)
    requires 0 <= i < SIM_TASK_COUNT && t.profile == ProfileOf(i) && OnSchedule(t, i, tick)
    requires IsEfficiency(i) ==> t.dutyPhase == tick % 5
    requires cpu >= 0 <==> RunsOn(i, tick)
    ensures OnSchedule(TaskAfter(t, cpu, tick, switched), i, tick + 1)
  {
    if IsEfficiency(i) {
      StampAfter(t, i, cpu, tick, switched);
    } else if i == LOW_LAT {
      LowLatAfter(t, cpu, tick, switched);
    } else {
      SteadyAfter(t, cpu, tick, switched);
    }
  }

  /** Latency samples are taken only from tasks on their first dispatch after a release. */
  lemma {:induction false} UpdateAllLatency(s: Sim, plan: seq<int>, cpus: nat, bound: nat)
    requires Shape(s) && cpus <= NUM_CPUS == |plan| && Distinct(plan)
    requires forall c :: 0 <= c < NUM_CPUS ==> plan[c] == -1 || 0 <= plan[c] < SIM_TASK_COUNT
    requires forall c :: 0 <= c < cpus && plan[c] != -1 && Sampled(s.tasks[plan[c]]) ==>
      JitterUs(s.tasks[plan[c]]) <= bound
    requires s.latencyMaxUs <= bound
    ensures UpdateAll(s, plan, cpus).latencyMaxUs <= bound
  {
    if cpus > 0 {
      UpdateAllLatency(s, plan, cpus - 1, bound);
      if plan[cpus - 1] != -1 { UpdateAllTasks(s, plan, cpus - 1, plan[cpus - 1]); }
    }
  }

  lemma TickLatency(s: Sim, policy: Policy, bound: nat)
    requires Shape(s) && s.latencyMaxUs <= bound
    requires var t := Started(s).tasks[LOW_LAT];
      LOW_LAT in Plan(s, policy) && Sampled(t) ==> JitterUs(t) <= bound
    requires Profiles(s)
    ensures Tick(s, policy).latencyMaxUs <= bound
  {
    var s0 := Started(s);
    var (chosen, plan) := Assign(s0, policy, |s.lastTask|);
    AssignMarks(s0, policy, |s.lastTask|);
    forall c | 0 <= c < NUM_CPUS && plan[c] != -1 && Sampled(chosen.tasks[plan[c]])
      ensures JitterUs(chosen.tasks[plan[c]]) <= bound
    {
      assert s.tasks[plan[c]].profile == ProfileOf(plan[c]);
      assert plan[c] == LOW_LAT;
    }
    UpdateAllLatency(chosen, plan, |plan|, bound);
  }

  lemma TaskKeepsProfile(t: SimTask, i: int, cpu: int, tick: nat, switched: bool)
    requires 0 <= i < SIM_TASK_COUNT && t.profile == ProfileOf(i)
    requires IsEfficiency(i) ==> t.dutyPhase == tick % 5
    ensures TaskAfter(t, cpu, tick, switched).profile == ProfileOf(i)
    ensures IsEfficiency(i) ==> TaskAfter(t, cpu, tick, switched).dutyPhase == (tick + 1) % 5
  {
  }

  lemma ProfilesKept(s: Sim, policy: Policy)
    requires Shape(s) && Profiles(s) && Phased(s)
    ensures Profiles(Tick(s, policy)) && Phased(Tick(s, policy))
  {
    forall i | 0 <= i < SIM_TASK_COUNT
      ensures Tick(s, policy).tasks[i].profile == ProfileOf(i)
      ensures IsEfficiency(i) ==> Tick(s, policy).tasks[i].dutyPhase == (s.tick + 1) % 5
    {
      var c := CpuOf(Plan(s, policy), |s.lastTask|, i);
      TickTask(s, policy, i);
      TaskKeepsProfile(s.tasks[i], i, c, s.tick, c >= 0 && s.lastTask[c] != i);
    }
  }

  lemma HtasTask(s: Sim, i: int)
    requires Shape(s) && HtasInv(s) && 0 <= i < SIM_TASK_COUNT
    ensures OnSchedule(Tick(s, Htas).tasks[i], i, s.tick + 1)
  {
    HtasAssigns(s);
    TickTask(s, Htas, i);
    HtasPlanMembers(s.tick, i);
    var c := CpuOf(HtasPlan(s.tick), |s.lastTask|, i);
    TaskStaysOnSchedule(s.tasks[i], i, c, s.tick, c >= 0 && s.lastTask[c] != i);
  }

  lemma HtasKept(s: Sim)
    requires Shape(s) && HtasInv(s)
    ensures HtasInv(Tick(s, Htas))
  {
    hide Tick, Plan, ProfileOf;
    ProfilesKept(s, Htas);
    forall i | 0 <= i < SIM_TASK_COUNT ensures OnSchedule(Tick(s, Htas).tasks[i], i, s.tick + 1) {
      HtasTask(s, i);
    }
    assert s.tasks[LOW_LAT].profile == ProfileOf(LOW_LAT) && OnSchedule(s.tasks[LOW_LAT], LOW_LAT, s.tick);
    TickLatency(s, Htas, 0);
  }

  lemma InitialHtas(s: Sim)
    requires s == Initial()
    ensures HtasInv(s)
  {
  }

  lemma HtasReachable(n: nat)
    ensures HtasInv(Simulated(Htas, n))
  {
    InitialHtas(Simulated(Htas, 0));
    for k := 0 to n
      invariant HtasInv(Simulated(Htas, k))
    {
      HtasKept(Simulated(Htas, k));
    }
  }

  /** For every duration: under HTAS the CPUs follow the periodic schedule, LOW_LAT runs on CPU 0 on
      every tick on which it has work, and its recorded worst jitter is 0. */
  lemma HtasNeverLate(n: nat)
    ensures Plan(Simulated(Htas, n), Htas) == HtasPlan(n)
    ensures Started(Simulated(Htas, n)).tasks[LOW_LAT].ready ==> Plan(Simulated(Htas, n), Htas)[0] == LOW_LAT
    ensures Simulated(Htas, n).latencyMaxUs == 0
  {
    HtasReachable(n);
    HtasAssigns(Simulated(Htas, n));
    HtasReady(Simulated(Htas, n), LOW_LAT);
  }

  // ---- Round-robin: at most one tick late ----

  /** LOW_LAT has missed at most the one tick on which it competes with the background tasks. */
  ghost predicate LowLatPrompt(t: SimTask, tick: nat) {
    && t.workRemaining <= 2
    && (t.workRemaining == 0 ==> !t.ready)
    && (t.workRemaining == 2 ==> t.waitingSinceReady == 1 && !BackgroundTick(tick))
  }

  ghost predicate BaselineInv(s: Sim)
    requires Shape(s)
  {
    && Profiles(s) && Phased(s)
    && LowLatPrompt(s.tasks[LOW_LAT], s.tick)
    && s.latencyMaxUs <= SIM_TICK_US
  }

  /** Round-robin leaves a CPU idle only when no ready task is left. */
  lemma RoundRobinFindsReady(s: Sim, cpu: nat, j: int)
    requires Shape(s) && NothingSelected(s)
    requires 0 <= j < SIM_TASK_COUNT && s.tasks[j].ready && j !in Assign(s, Baseline, cpu).1
    ensures Assign(s, Baseline, cpu + 1).1[cpu] != -1
  {
    AssignMarks(s, Baseline, cpu);
    var (u, plan) := Assign(s, Baseline, cpu);
    RoundRobinIsNext(u.tasks, u.rrIndex, |u.tasks|);
    var k := SlotIndex(u.rrIndex, j);
    assert Eligible(u.tasks, Slot(u.rrIndex, k));
  }

  /** The eight attempts visit every task. */
  lemma SlotIndex(start: nat, j: nat) returns (k: nat)
    requires start < SIM_TASK_COUNT && j < SIM_TASK_COUNT
    ensures k < SIM_TASK_COUNT && Slot(start, k) == j
  {
    k := if j >= start then j - start else j + SIM_TASK_COUNT - start;
  }

  ghost predicate AlwaysReady(j: int) {
    j == PERF0 || j == PERF1 || j == NUMA
  }

  /** Three of the four candidates cannot fill four places. */
  lemma SomebodyLeft(plan: seq<int>) returns (j: int)
    requires |plan| <= 3
    ensures j !in plan && (AlwaysReady(j) || j == LOW_LAT)
  {
    j := if PERF0 !in plan then PERF0 else if PERF1 !in plan then PERF1 else if NUMA !in plan then NUMA else LOW_LAT;
    if j in plan {
      var a, b, c, d :| 0 <= a < |plan| && 0 <= b < |plan| && 0 <= c < |plan| && 0 <= d < |plan|
        && plan[a] == PERF0 && plan[b] == PERF1 && plan[c] == NUMA && plan[d] == LOW_LAT;
      assert false;
    }
  }

  lemma {:induction false} BaselineFills(s: Sim, cpus: nat)
    requires Shape(s) && NothingSelected(s) && cpus <= NUM_CPUS
    requires forall j :: 0 <= j < SIM_TASK_COUNT && (AlwaysReady(j) || j == LOW_LAT) ==> s.tasks[j].ready
    ensures -1 !in Assign(s, Baseline, cpus).1
  {
    if cpus > 0 {
      BaselineFills(s, cpus - 1);
      var j := SomebodyLeft(Assign(s, Baseline, cpus - 1).1);
      RoundRobinFindsReady(s, cpus - 1, j);
    }
  }

  lemma BaselineReady(s: Sim, i: int)
    requires Shape(s) && BaselineInv(s) && 0 <= i < SIM_TASK_COUNT
    ensures AlwaysReady(i) ==> Started(s).tasks[i].ready
    ensures IsEfficiency(i) ==> (Started(s).tasks[i].ready <==> BackgroundTick(s.tick))
    ensures i == LOW_LAT ==> (Started(s).tasks[i].ready <==> Started(s).tasks[i].workRemaining > 0)
  {
    assert s.tasks[i].profile == ProfileOf(i);
    assert IsEfficiency(i) ==> s.tasks[i].dutyPhase == s.tick % 5;
  }

  /** On a tick without background tasks everything that is ready runs. */
  lemma BaselineDispatches(s: Sim)
    requires Shape(s) && BaselineInv(s) && !BackgroundTick(s.tick) && Started(s).tasks[LOW_LAT].ready
    ensures LOW_LAT in Plan(s, Baseline)
  {
    var s0 := Started(s);
    var plan := Plan(s, Baseline);
    forall j | 0 <= j < SIM_TASK_COUNT
      ensures s0.tasks[j].ready <==> AlwaysReady(j) || j == LOW_LAT
    {
      BaselineReady(s, j);
    }
    BaselineFills(s0, |s.lastTask|);
    AssignMarks(s0, Baseline, |s.lastTask|);
    assert forall c :: 0 <= c < NUM_CPUS ==> plan[c] in plan;
    FourFillFour(plan);
  }

  lemma FourFillFour(plan: seq<int>)
    requires |plan| == 4 && Distinct(plan)
    requires forall c :: 0 <= c < 4 ==> plan[c] != -1 && (AlwaysReady(plan[c]) || plan[c] == LOW_LAT)
    ensures LOW_LAT in plan
  {
    assert plan[0] != plan[1] && plan[0] != plan[2] && plan[0] != plan[3];
    assert plan[1] != plan[2] && plan[1] != plan[3] && plan[2] != plan[3];
  }

  lemma LowLatStaysPrompt(t: SimTask, cpu: int, tick: nat, switched: bool)
    requires t.profile == ProfileOf(LOW_LAT) && LowLatPrompt(t, tick)
    requires PrepareTask(t).ready && !BackgroundTick(tick) ==> cpu >= 0
    requires cpu >= 0 ==> PrepareTask(t).ready
    ensures LowLatPrompt(TaskAfter(t, cpu, tick, switched), tick + 1)
    ensures Sampled(PrepareTask(t)) ==> JitterUs(PrepareTask(t)) <= SIM_TICK_US
  {
  }

  lemma BaselineKept(s: Sim)
    requires Shape(s) && BaselineInv(s)
    ensures BaselineInv(Tick(s, Baseline))
  {
    var plan := Plan(s, Baseline);
    var c := CpuOf(plan, |s.lastTask|, LOW_LAT);
    assert s.tasks[LOW_LAT].profile == ProfileOf(LOW_LAT);
    ProfilesKept(s, Baseline);
    PlanIsExclusive(s, Baseline);
    TickTask(s, Baseline, LOW_LAT);
    if PrepareTask(s.tasks[LOW_LAT]).ready && !BackgroundTick(s.tick) { BaselineDispatches(s); }
    LowLatStaysPrompt(s.tasks[LOW_LAT], c, s.tick, c >= 0 && s.lastTask[c] != LOW_LAT);
    TickLatency(s, Baseline, SIM_TICK_US);
  }

  lemma BaselineReachable(n: nat)
    ensures BaselineInv(Simulated(Baseline, n))
  {
    InitialBaseline(Simulated(Baseline, 0));
    for k := 0 to n
      invariant BaselineInv(Simulated(Baseline, k))
    {
      BaselineKept(Simulated(Baseline, k));
    }
  }

  lemma InitialBaseline(s: Sim)
    requires s == Initial()
    ensures BaselineInv(s)
  {
  }

  // ---- The bound is reached ----

  /** A tick never lowers the recorded maximum, and a dispatched sample is recorded. */
  lemma {:induction false} UpdateAllRecords(s: Sim, plan: seq<int>, cpus: nat, c: nat)
    requires Shape(s) && c < cpus <= NUM_CPUS == |plan| && Distinct(plan)
    requires forall d :: 0 <= d < NUM_CPUS ==> plan[d] == -1 || 0 <= plan[d] < SIM_TASK_COUNT
    ensures UpdateAll(s, plan, cpus).latencyMaxUs >= s.latencyMaxUs
    ensures plan[c] != -1 && Sampled(s.tasks[plan[c]]) ==>
      UpdateAll(s, plan, cpus).latencyMaxUs >= JitterUs(s.tasks[plan[c]])
  {
    if cpus == 1 {
      assert UpdateAll(s, plan, 0) == s;
    } else {
      UpdateAllRecords(s, plan, cpus - 1, if c < cpus - 1 then c else 0);
      if plan[cpus - 1] != -1 { UpdateAllTasks(s, plan, cpus - 1, plan[cpus - 1]); }
    }
  }

  lemma TickRecords(s: Sim, policy: Policy)
    requires Shape(s)
    ensures Tick(s, policy).latencyMaxUs >= s.latencyMaxUs
    ensures var t := Started(s).tasks[LOW_LAT];
      LOW_LAT in Plan(s, policy) && Sampled(t) ==> Tick(s, policy).latencyMaxUs >= JitterUs(t)
  {
    var s0 := Started(s);
    var (chosen, plan) := Assign(s0, policy, |s.lastTask|);
    AssignMarks(s0, policy, |s.lastTask|);
    if LOW_LAT in plan {
      var c :| 0 <= c < |plan| && plan[c] == LOW_LAT;
      UpdateAllRecords(chosen, plan, |plan|, c);
    } else {
      UpdateAllRecords(chosen, plan, |plan|, 0);
    }
  }

  /** Round-robin takes what its cursor points at if that is ready. */
  lemma CursorTaken(u: Sim, cpu: nat)
    requires Shape(u) && Eligible(u.tasks, u.rrIndex)
    ensures Choice(u, Baseline, cpu) == u.rrIndex
  {
    assert Slot(u.rrIndex, 0) == u.rrIndex;
  }

  ghost function Counting(n: nat): (plan: seq<int>)
    ensures |plan| == n
  {
    seq(n, i => i)
  }

  lemma DispatchesCount(s: Sim, cpu: nat)
    requires Shape(s) && NothingSelected(s) && cpu < SIM_TASK_COUNT && s.tasks[cpu].ready
    requires Assign(s, Baseline, cpu).1 == Counting(cpu) && Assign(s, Baseline, cpu).0.rrIndex == cpu
    ensures Assign(s, Baseline, cpu + 1).1 == Counting(cpu + 1)
    ensures Assign(s, Baseline, cpu + 1).0.rrIndex == (cpu + 1) % SIM_TASK_COUNT
  {
    hide Choice;
    AssignMarks(s, Baseline, cpu);
    var (u, plan) := Assign(s, Baseline, cpu);
    assert cpu !in plan;
    CursorTaken(u, cpu);
    assert Counting(cpu + 1) == Counting(cpu) + [cpu];
  }

  lemma InitiallyReady(s: Sim)
    requires s == Initial()
    ensures Started(s).rrIndex == 0 && NothingSelected(Started(s)) && |s.lastTask| == 4
    ensures forall i :: 0 <= i < 4 ==> Started(s).tasks[i].ready
  {
  }

  /** On tick 0 the background tasks take two of the four CPUs, and LOW_LAT gets none. */
  lemma FirstTick(s: Sim)
    requires s == Initial()
    ensures Plan(s, Baseline) == Counting(4)
  {
    hide Initial, Started, Assign, Tick;
    InitiallyReady(s);
    var s0 := Started(s);
    NothingAssigned(s0);
    for cpu := 0 to |s.lastTask|
      invariant Assign(s0, Baseline, cpu).1 == Counting(cpu) && Assign(s0, Baseline, cpu).0.rrIndex == cpu
    {
      DispatchesCount(s0, cpu);
    }
  }

  lemma NothingAssigned(s: Sim)
    requires Shape(s)
    ensures Assign(s, Baseline, 0) == (s, Counting(0))
  {
  }

  /** LOW_LAT has waited for one tick when it is dispatched for the first time. */
  lemma FirstSample(s: Sim)
    requires s == Initial()
    ensures var s1 := Tick(s, Baseline);
            var t := Started(s1).tasks[LOW_LAT];
      t.ready && Sampled(t) && JitterUs(t) == SIM_TICK_US
  {
    hide Plan, Tick, PrepareTask, FinalizeTask, RunTask;
    FirstTick(s);
    TickTask(s, Baseline, LOW_LAT);
    NotCounted(LOW_LAT);
    MissedOnce(s.tasks[LOW_LAT]);
  }

  lemma NotCounted(i: int)
    requires i >= 4
    ensures CpuOf(Counting(4), 4, i) == -1
  {
  }

  lemma MissedOnce(t: SimTask)
    requires t == InitialTask(LOW_LAT)
    ensures var u := PrepareTask(TaskAfter(t, -1, 0, false)); u.ready && Sampled(u) && JitterUs(u) == SIM_TICK_US
  {
  }

  lemma FirstTicks(s: Sim)
    requires s == Initial()
    ensures s.latencyMaxUs == 0 && Tick(s, Baseline).latencyMaxUs == 0
    ensures Tick(Tick(s, Baseline), Baseline).latencyMaxUs >= SIM_TICK_US
  {
    FirstTick(s);
    InitialBaseline(s);
    assert LOW_LAT !in Counting(4);
    TickLatency(s, Baseline, 0);
    var s1 := Tick(s, Baseline);
    BaselineKept(s);
    FirstSample(s);
    BaselineDispatches(s1);
    TickRecords(s1, Baseline);
  }

  lemma NothingYet(n: nat)
    requires n < 2
    ensures Simulated(Baseline, n).latencyMaxUs == 0
  {
    FirstTicks(Initial());
    if n == 1 { assert Simulated(Baseline, n) == Tick(Simulated(Baseline, n - 1), Baseline); }
  }

  lemma BaselineWorst(n: nat)
    requires n >= 2
    ensures Simulated(Baseline, n).latencyMaxUs >= SIM_TICK_US
  {
    FirstTicks(Initial());
    assert Simulated(Baseline, 1) == Tick(Simulated(Baseline, 0), Baseline);
    assert Simulated(Baseline, 2) == Tick(Simulated(Baseline, 1), Baseline);
    for k := 2 to n
      invariant Simulated(Baseline, k).latencyMaxUs >= SIM_TICK_US
    {
      TickRecords(Simulated(Baseline, k), Baseline);
    }
  }

  /** For every duration: under round-robin LOW_LAT is dispatched at the latest on the tick after its
      release, so its recorded worst jitter is at most one tick. Its very first release coincides with the
      background tasks and is one tick late, so from the second tick on it is exactly that. */
  lemma BaselineOneTickLate(n: nat)
    ensures var s := Simulated(Baseline, n);
      && (Started(s).tasks[LOW_LAT].ready && !BackgroundTick(n) ==> LOW_LAT in Plan(s, Baseline))
      && s.latencyMaxUs == if n < 2 then 0 else SIM_TICK_US
  {
    BaselineReachable(n);
    var s := Simulated(Baseline, n);
    if Started(s).tasks[LOW_LAT].ready && !BackgroundTick(n) { BaselineDispatches(s); }
    if n >= 2 { BaselineWorst(n); } else { NothingYet(n); }
  }
}
