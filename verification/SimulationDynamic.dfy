/** What the policies make of each task: the scores in numbers, and that DYNAMIC's load inference never takes
    effect. */
module SimulationDynamic {
  import opened Simulation
  import opened SimulationTicks
  import Plans = SimulationPlans

  ghost predicate Unloaded(s: Sim)
    requires Shape(s)
  {
    forall i :: 0 <= i < SIM_TASK_COUNT ==> s.tasks[i].recentCpuTicks == 0
  }

  /** A tick raises the load counter of a task at most once and then lowers every counter. */
  lemma TickUnloads(s: Sim, policy: Policy)
    requires Shape(s) && Unloaded(s)
    ensures Unloaded(Tick(s, policy))
  {
    hide Tick, PrepareTask, Plan;
    forall i | 0 <= i < SIM_TASK_COUNT ensures Tick(s, policy).tasks[i].recentCpuTicks == 0 {
      TickTask(s, policy, i);
      var c := CpuOf(Plan(s, policy), |s.lastTask|, i);
      LoadAfter(s.tasks[i], c, s.tick, c >= 0 && s.lastTask[c] != i);
    }
  }

  lemma LoadAfter(t: SimTask, cpu: int, tick: nat, switched: bool)
    requires t.recentCpuTicks == 0
    ensures TaskAfter(t, cpu, tick, switched).recentCpuTicks == 0
  {
  }

  /** For every policy and duration the counters are zero whenever a selection is made, so the score of
      every task under DYNAMIC is the one for an efficiency task, in numbers: base priority, 12 on an E-core and
      6 less on a P-core, 8 on the node inferred and 6 less elsewhere, 5 for waiting, a quarter of the age. */
  lemma InferenceNeverFires(policy: Policy, n: nat)
    ensures Unloaded(Simulated(policy, n))
    ensures forall i, cpu: nat :: 0 <= i < 8 && cpu < 4 ==>
      var t := Started(Simulated(policy, n)).tasks[i];
      && t.recentCpuTicks <= 25
      && DynamicScore(t, cpu, n) == [12, 11, 10, 10, 10, 10, 10, 10][i] + (if cpu < 2 then -6 else 12)
                                    + (if t.inferredNuma == (if cpu < 2 then 0 else 1) then 8 else -6)
                                    + (if t.waitingSinceReady > 0 then 5 else 0)
                                    + (n - t.lastScheduledTick) % 0x1_0000_0000 / 4 + t.boostAging
  {
    hide Simulated, Started;
    AlwaysUnloaded(policy, n);
    StartKeepsLoad(Simulated(policy, n));
    Plans.TasksAlways(policy, n);
    Plans.StartKeepsTasks(Simulated(policy, n));
  }

  /** And under HTAS, from the hints: what each task is worth on P-cores and on E-cores, 15 for LOW_LAT waiting,
      a quarter of the age. */
  lemma HtasScores(policy: Policy, n: nat, i: int, cpu: nat)
    requires 0 <= i < 8 && cpu < 4
    ensures var t := Started(Simulated(policy, n)).tasks[i];
      HtasScore(t, cpu, n) == (if cpu < 2 then [32, 17, -2, -2, -2, -2, 45, -2][i]
                               else [-2, 11, 30, 30, 30, 30, 11, 30][i])
                              + (if i == 6 && t.waitingSinceReady > 0 then 15 else 0)
                              + (n - t.lastScheduledTick) % 0x1_0000_0000 / 4 + t.boostAging
  {
    hide Simulated, Started;
    Plans.TasksAlways(policy, n);
    Plans.StartKeepsTasks(Simulated(policy, n));
  }

  lemma AlwaysUnloaded(policy: Policy, n: nat)
    ensures Unloaded(Simulated(policy, n))
  {
    hide Tick, Unloaded;
    InitiallyUnloaded(Simulated(policy, 0));
    for k := 0 to n
      invariant Unloaded(Simulated(policy, k))
    {
      TickUnloads(Simulated(policy, k), policy);
    }
  }

  lemma InitiallyUnloaded(s: Sim)
    requires s == Initial()
    ensures Unloaded(s)
  {
  }

  lemma StartKeepsLoad(s: Sim)
    requires Shape(s) && Unloaded(s)
    ensures Unloaded(Started(s))
  {
  }
}
