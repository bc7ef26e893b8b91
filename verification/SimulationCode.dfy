/** The benchmark's own code: the context is updated in place by the loops of one tick. */
module SimulationCode {
  import opened Basics
  import opened Simulation
  import Accounts = SimulationAccounting
  import Latency = SimulationLatency
  import Plans = SimulationPlans

  class SimContext {
    const tasks: array<SimTask>
    const lastTask: array<int>
    var latencyTotalUs: nat
    var latencySamples: nat
    var latencyMaxUs: nat
    var tick: nat
    var rrIndex: nat
    var stats: Stats

    ghost function View(): Sim
      reads this, tasks, lastTask
    {
      Sim(tasks[..], lastTask[..], latencyTotalUs, latencySamples, latencyMaxUs, tick, rrIndex, stats)
    }

    ghost predicate Valid()
      reads this, tasks, lastTask
    {
      Shape(View())
    }

    /** sim_init_tasks together with the clearing of the statistics. */
    constructor ()
      ensures Valid() && View() == Initial() && fresh(tasks) && fresh(lastTask)
    {
      tasks := new SimTask[SIM_TASK_COUNT](i requires 0 <= i => InitialTask(i));
      lastTask := new int[NUM_CPUS](_ => -1);
      latencyTotalUs, latencySamples, latencyMaxUs, tick, rrIndex := 0, 0, 0, 0, 0;
      stats := Initial().stats;
      new;
      assert tasks[..] == Initial().tasks;
      assert lastTask[..] == Initial().lastTask;
    }

    method PrepareTick()
      requires Valid()
      modifies tasks
      ensures View() == Prepared(old(View()))
    {
      for i := 0 to SIM_TASK_COUNT
        invariant forall j :: 0 <= j < i ==> tasks[j] == PrepareTask(old(tasks[j]))
        invariant forall j :: i <= j < SIM_TASK_COUNT ==> tasks[j] == old(tasks[j])
      {
        var t := tasks[i].(selected := false, scheduled := false);
        if t.profile.intent.LowLatency? {
          if t.workRemaining == 0 {
            if t.timeSinceRelease < t.profile.periodMs {
              t := t.(timeSinceRelease := t.timeSinceRelease + 1);
              t := t.(ready := false);
            } else {
              if t.workRemaining == 0 && !t.ready {
                t := t.(workRemaining := t.profile.workMs);
                t := t.(waitingSinceReady := 0);
              }
              t := t.(ready := t.workRemaining > 0);
            }
          } else {
            t := t.(ready := true);
          }
        } else if t.profile.dutyCycle > 0 {
          t := t.(ready := t.dutyPhase < t.profile.activeTicks);
          t := t.(dutyPhase := (t.dutyPhase + 1) % t.profile.dutyCycle);
        } else {
          t := t.(ready := true);
        }
        tasks[i] := t;
      }
    }

    method SelectRoundRobin() returns (r: int)
      requires Valid()
      modifies this`rrIndex, tasks
      ensures r == Choice(old(View()), Baseline, 0) && View() == Selected(old(View()), Baseline, r)
    {
      for attempts := 0 to SIM_TASK_COUNT
        invariant View() == old(View())
        invariant RoundRobin(tasks[..], rrIndex, SIM_TASK_COUNT)
          == RoundRobin(tasks[..], rrIndex, SIM_TASK_COUNT - attempts)
      {
        var idx := (rrIndex + attempts) % SIM_TASK_COUNT;
        if tasks[idx].ready && !tasks[idx].selected {
          rrIndex := (idx + 1) % SIM_TASK_COUNT;
          tasks[idx] := tasks[idx].(selected := true);
          return idx;
        }
      }
      return -1;
    }

    /** The scoring scan of sim_select_task_htas and sim_select_task_dynamic. */
    method SelectByScore(policy: Policy, cpu: nat) returns (best: int)
      requires Valid() && !policy.Baseline? && cpu < NUM_CPUS
      modifies tasks
      ensures best == Choice(old(View()), policy, cpu) && View() == Selected(old(View()), policy, best)
    {
      best := -1;
      var bestScore := WORST_SCORE;
      for i := 0 to SIM_TASK_COUNT
        invariant best == Best(policy, tasks[..], cpu, tick, i)
        invariant bestScore == if best < 0 then WORST_SCORE else Score(policy, tasks[best], cpu, tick)
      {
        if tasks[i].ready && !tasks[i].selected {
          var score := Score(policy, tasks[i], cpu, tick);
          if score > bestScore {
            bestScore := score;
            best := i;
          }
        }
      }
      if best >= 0 {
        tasks[best] := tasks[best].(selected := true);
      }
    }

    /** The aggregate half of sim_update_task_stats for a busy CPU. */
    method ChargeStats(cpu: nat, t: SimTask, switched: bool)
      requires Valid() && cpu < NUM_CPUS
      modifies this`stats
      ensures t.profile.intent in old(stats).intents && stats == Charge(old(stats), cpu, t, switched)
    {
      Accounts.EveryIntentCounted(stats, t.profile.intent);
      var i := stats.intents[t.profile.intent];
      if switched {
        stats := stats.(contextSwitches := stats.contextSwitches + 1);
        i := i.(switches := i.switches + 1);
      }
      if TypeOfCpu(cpu).PCore? {
        stats := stats.(power := stats.power + 120, pcoreTimeUs := stats.pcoreTimeUs + SIM_TICK_US);
      } else {
        stats := stats.(power := stats.power + 70, ecoreTimeUs := stats.ecoreTimeUs + SIM_TICK_US);
      }
      i := i.(runtimeUs := i.runtimeUs + SIM_TICK_US);
      stats := stats.(intents := stats.intents[t.profile.intent := i]);
      if t.profile.preferredNuma != NumaOfCpu(cpu) {
        stats := stats.(numaPenalties := stats.numaPenalties + 1);
      }
    }

    /** The per-task half: the processor tick itself. */
    method ChargeTask(cpu: nat, r: nat, switched: bool)
      requires Valid() && cpu < NUM_CPUS && r < SIM_TASK_COUNT
      modifies tasks
      ensures tasks[..] == old(tasks[..])[r := RunTask(old(tasks[r]), cpu, tick, switched)]
    {
      var t := tasks[r];
      t := t.(waitTime := 0, boostAging := 0, scheduled := true, recentCpuTicks := t.recentCpuTicks + 1);
      if !t.inferredLocked && NumaOfCpu(cpu) == t.profile.preferredNuma {
        t := t.(inferredNuma := t.profile.preferredNuma, inferredLocked := true);
      }
      if switched { t := t.(switches := t.switches + 1); }
      t := t.(runtimeUs := t.runtimeUs + SIM_TICK_US);
      if t.profile.preferredNuma != NumaOfCpu(cpu) {
        t := t.(numaPenalties := t.numaPenalties + 1);
      }
      if t.workRemaining > 0 {
        t := t.(workRemaining := t.workRemaining - 1);
        if t.workRemaining == 0 {
          t := t.(timeSinceRelease := 0, ready := false);
        }
      }
      tasks[r] := t.(lastScheduledTick := tick);
    }

    method UpdateStats(cpu: nat, r: int)
      requires Valid() && cpu < NUM_CPUS && (r == -1 || 0 <= r < SIM_TASK_COUNT)
      modifies this, tasks, lastTask
      ensures View() == Update(old(View()), cpu, r)
    {
      if r < 0 {
        stats := stats.(power := stats.power + if TypeOfCpu(cpu).PCore? then 30 else 20);
        return;
      }
      var t := tasks[r];
      var switched := lastTask[cpu] != r;
      if switched { lastTask[cpu] := r; }
      ChargeStats(cpu, t, switched);
      if t.profile.intent.LowLatency? && t.workRemaining == t.profile.workMs {
        var jitter := t.waitingSinceReady * SIM_TICK_US % WRAP;
        latencyTotalUs := latencyTotalUs + jitter;
        latencySamples := latencySamples + 1;
        if jitter > latencyMaxUs { latencyMaxUs := jitter; }
      }
      ChargeTask(cpu, r, switched);
    }

    method FinalizeTick()
      requires Valid()
      modifies tasks
      ensures View() == Finalized(old(View()))
    {
      for i := 0 to SIM_TASK_COUNT
        invariant forall j :: 0 <= j < i ==> tasks[j] == FinalizeTask(old(tasks[j]))
        invariant forall j :: i <= j < SIM_TASK_COUNT ==> tasks[j] == old(tasks[j])
      {
        var t := tasks[i];
        if t.profile.intent.LowLatency? {
          if t.workRemaining > 0 && !t.scheduled {
            t := t.(waitingSinceReady := t.waitingSinceReady + 1);
          } else if t.workRemaining == 0 {
            t := t.(waitingSinceReady := 0);
          }
        }
        if t.ready && !t.scheduled {
          t := t.(waitTime := t.waitTime + 1);
          if t.waitTime > AGING_THRESHOLD { t := t.(boostAging := AGING_PRIORITY_BOOST); }
        }
        if t.recentCpuTicks > 0 { t := t.(recentCpuTicks := t.recentCpuTicks - 1); }
        tasks[i] := t.(selected := false, scheduled := false);
      }
    }

    /** The selection loop over the CPUs. */
    method AssignCpus(policy: Policy) returns (plan: seq<int>)
      requires Valid()
      modifies this`rrIndex, tasks
      ensures Valid() && (View(), plan) == Assign(old(View()), policy, NUM_CPUS)
    {
      plan := [];
      for cpu := 0 to NUM_CPUS
        invariant Valid() && (View(), plan) == Assign(old(View()), policy, cpu)
      {
        var r;
        if policy.Baseline? { r := SelectRoundRobin(); } else { r := SelectByScore(policy, cpu); }
        plan := plan + [r];
      }
    }

    /** The accounting loop over the CPUs. */
    method ChargeCpus(plan: seq<int>)
      requires Valid() && |plan| == NUM_CPUS
      requires forall c :: 0 <= c < NUM_CPUS ==> plan[c] == -1 || 0 <= plan[c] < SIM_TASK_COUNT
      modifies this, tasks, lastTask
      ensures Valid() && View() == UpdateAll(old(View()), plan, NUM_CPUS)
    {
      for cpu := 0 to NUM_CPUS
        invariant Valid() && View() == UpdateAll(old(View()), plan, cpu)
      {
        UpdateStats(cpu, plan[cpu]);
      }
    }

    method RunTick(policy: Policy)
      requires Valid()
      modifies this, tasks, lastTask
      ensures Valid() && View() == Tick(old(View()), policy)
    {
      stats := stats.(totalTicks := stats.totalTicks + 1);
      PrepareTick();
      assert View() == Started(old(View()));
      var plan := AssignCpus(policy);
      ChargeCpus(plan);
      FinalizeTick();
      tick := tick + 1;
    }
  }

  /** simulate_workload: the statistics and the two latency figures of a whole run. */
  method SimulateWorkload(durationMs: nat, policy: Policy)
    returns (stats: Stats, avgLatencyUs: nat, maxJitterUs: nat)
    ensures var s := Simulated(policy, durationMs);
      && stats == s.stats && maxJitterUs == s.latencyMaxUs
      && if s.latencySamples == 0 then avgLatencyUs == 0
         else s.latencySamples * avgLatencyUs <= s.latencyTotalUs < s.latencySamples * (avgLatencyUs + 1)
    ensures avgLatencyUs <= maxJitterUs
    ensures stats.contextSwitches == Plans.Tally(policy, durationMs, Plans.Switched(policy))
    ensures stats.numaPenalties == Plans.Tally(policy, durationMs, Plans.Away())
    ensures policy.Htas? ==>
      && maxJitterUs == 0 && stats.contextSwitches == Plans.SwitchesBefore(durationMs)
      && stats.numaPenalties == Plans.TicksWithout(durationMs)
    ensures policy.Baseline? ==> maxJitterUs == if durationMs < 2 then 0 else SIM_TICK_US
    ensures stats.totalTicks == durationMs
    ensures stats.power
            == 100 * durationMs + 90 * (stats.pcoreTimeUs / SIM_TICK_US) + 50 * (stats.ecoreTimeUs / SIM_TICK_US)
  {
    hide Average, Plans.Tally, Plans.Switched, Plans.Away, Plans.SwitchesBefore, Plans.TicksWithout, Tick;
    var ctx := new SimContext();
    for tick := 0 to durationMs
      invariant fresh(ctx) && fresh(ctx.tasks) && fresh(ctx.lastTask)
      invariant ctx.Valid() && ctx.View() == Simulated(policy, tick)
    {
      ctx.RunTick(policy);
    }
    avgLatencyUs := Average(ctx.latencyTotalUs, ctx.latencySamples);
    stats, maxJitterUs := ctx.stats, ctx.latencyMaxUs;
    RunFigures(policy, durationMs);
  }

  function Average(total: nat, samples: nat): nat {
    if samples > 0 then total / samples else 0
  }

  /** The whole part of the quotient, which is no more than a bound of every sample. */
  lemma AverageIs(total: nat, samples: nat, worst: nat)
    ensures var a := Average(total, samples);
      if samples == 0 then a == 0 else samples * a <= total < samples * (a + 1)
    ensures total <= samples * worst ==> Average(total, samples) <= worst
  {
    var a := Average(total, samples);
    if samples > 0 {
      assert samples * a + total % samples == total;
      if a > worst { assert samples * a >= samples * (worst + 1); }
    }
  }

  lemma RunFigures(policy: Policy, n: nat)
    ensures var s := Simulated(policy, n);
            var a := Average(s.latencyTotalUs, s.latencySamples);
      && (if s.latencySamples == 0 then a == 0
          else s.latencySamples * a <= s.latencyTotalUs < s.latencySamples * (a + 1))
      && a <= s.latencyMaxUs
      && s.stats.contextSwitches == Plans.Tally(policy, n, Plans.Switched(policy))
      && s.stats.numaPenalties == Plans.Tally(policy, n, Plans.Away())
      && (policy.Htas? ==> s.latencyMaxUs == 0 && s.stats.contextSwitches == Plans.SwitchesBefore(n)
                           && s.stats.numaPenalties == Plans.TicksWithout(n))
      && (policy.Baseline? ==> s.latencyMaxUs == if n < 2 then 0 else SIM_TICK_US)
      && s.stats.power == 100 * n + 90 * (s.stats.pcoreTimeUs / SIM_TICK_US) + 50 * (s.stats.ecoreTimeUs / SIM_TICK_US)
  {
    hide Average, Plans.Tally, Plans.SwitchesBefore, Plans.TicksWithout, Simulated;
    var s := Simulated(policy, n);
    Plans.StatsOfPlans(policy, n);
    Plans.SamplesOfPlans(policy, n);
    AverageIs(s.latencyTotalUs, s.latencySamples, s.latencyMaxUs);
    Accounts.AccountingIdentities(policy, n);
    if policy.Htas? {
      Latency.HtasNeverLate(n);
      Plans.HtasSwitches(n);
      Plans.HtasPenalties(n);
    }
    if policy.Baseline? { Latency.BaselineOneTickLate(n); }
  }
}
