/** How one simulated tick acts on each task, for every policy. */
module SimulationTicks {
  import opened Simulation

  ghost predicate NothingSelected(s: Sim)
    requires Shape(s)
  {
    forall i :: 0 <= i < SIM_TASK_COUNT ==> !s.tasks[i].selected
  }

  /** No task is chosen for two CPUs. */
  ghost predicate Distinct(plan: seq<int>) {
    forall c, d :: 0 <= c < d < |plan| && plan[c] != -1 ==> plan[c] != plan[d]
  }

  ghost function Plan(s: Sim, policy: Policy): (plan: seq<int>)
    requires Shape(s)
    ensures |plan| == NUM_CPUS
    ensures forall c :: 0 <= c < NUM_CPUS ==> plan[c] == -1 || 0 <= plan[c] < SIM_TASK_COUNT
  {
    Assign(Started(s), policy, |s.lastTask|).1
  }

  /** The CPU that `plan` gives to task `i`, or -1. */
  ghost function CpuOf(plan: seq<int>, cpus: nat, i: int): (c: int)
    requires cpus <= |plan|
    ensures c == -1 ==> forall d :: 0 <= d < cpus ==> plan[d] != i
    ensures c != -1 ==> 0 <= c < cpus && plan[c] == i
  {
    if cpus == 0 then -1 else if plan[cpus - 1] == i then cpus - 1 else CpuOf(plan, cpus - 1, i)
  }

  /** `u` is `s` with exactly those in `plan` marked as selected. */
  ghost predicate Marked(s: Sim, u: Sim, plan: seq<int>) {
    && |u.tasks| == |s.tasks|
    && forall i :: 0 <= i < |s.tasks| ==> u.tasks[i] == s.tasks[i].(selected := i in plan)
  }

  lemma SelectMarks(s: Sim, u: Sim, plan: seq<int>, policy: Policy, r: int)
    requires Marked(s, u, plan) && Distinct(plan)
    requires r == -1 || Eligible(u.tasks, r)
    ensures Marked(s, Selected(u, policy, r), plan + [r]) && Distinct(plan + [r])
    ensures r == -1 || s.tasks[r].ready
  {
    assert r != -1 ==> r !in plan;
    assert forall i :: i in plan + [r] <==> i in plan || i == r;
  }

  lemma {:induction false} AssignMarks(s: Sim, policy: Policy, cpus: nat)
    requires Shape(s) && NothingSelected(s)
    ensures var (t, plan) := Assign(s, policy, cpus);
      && Distinct(plan)
      && Marked(s, t, plan)
      && (forall c :: 0 <= c < cpus && plan[c] != -1 ==> s.tasks[plan[c]].ready)
  {
    if cpus > 0 {
      AssignMarks(s, policy, cpus - 1);
      var (t, plan) := Assign(s, policy, cpus - 1);
      SelectMarks(s, t, plan, policy, Choice(t, policy, cpus - 1));
    }
  }

  lemma {:induction false} UpdateAllTasks(s: Sim, plan: seq<int>, cpus: nat, i: int)
    requires Shape(s) && cpus <= NUM_CPUS == |plan| && Distinct(plan)
    requires forall c :: 0 <= c < NUM_CPUS ==> plan[c] == -1 || 0 <= plan[c] < SIM_TASK_COUNT
    requires 0 <= i < SIM_TASK_COUNT
    ensures var u, c := UpdateAll(s, plan, cpus), CpuOf(plan, cpus, i);
      && (forall d :: cpus <= d < NUM_CPUS ==> u.lastTask[d] == s.lastTask[d])
      && u.tasks[i] == if c < 0 then s.tasks[i] else RunTask(s.tasks[i], c, s.tick, s.lastTask[c] != i)
  {
    if cpus > 0 { UpdateAllTasks(s, plan, cpus - 1, i); }
  }

  /** One task's share of a tick in which CPU `cpu` (or none, -1) is given to it. */
  ghost function TaskAfter(t: SimTask, cpu: int, tick: nat, switched: bool): SimTask {
    FinalizeTask(if cpu < 0 then PrepareTask(t) else RunTask(PrepareTask(t), cpu, tick, switched))
  }

  /** The selection mark does not outlive the tick. */
  lemma MarkForgotten(t: SimTask, mark: bool, cpu: nat, tick: nat, switched: bool)
    ensures FinalizeTask(t.(selected := mark)) == FinalizeTask(t)
    ensures FinalizeTask(RunTask(t.(selected := mark), cpu, tick, switched))
            == FinalizeTask(RunTask(t, cpu, tick, switched))
  {
  }

  /** The same for the stages of a tick after the selections. */
  lemma StagesTask(s: Sim, chosen: Sim, plan: seq<int>, i: int)
    requires Shape(chosen) && |plan| == NUM_CPUS && Distinct(plan) && |s.tasks| == SIM_TASK_COUNT
    requires forall c :: 0 <= c < NUM_CPUS ==> plan[c] == -1 || 0 <= plan[c] < SIM_TASK_COUNT
    requires Marked(s, chosen, plan) && 0 <= i < SIM_TASK_COUNT
    ensures var c := CpuOf(plan, |plan|, i);
      Finalized(UpdateAll(chosen, plan, |plan|)).tasks[i]
      == FinalizeTask(if c < 0 then s.tasks[i] else RunTask(s.tasks[i], c, chosen.tick, chosen.lastTask[c] != i))
  {
    UpdateAllTasks(chosen, plan, |plan|, i);
    var c := CpuOf(plan, |plan|, i);
    MarkForgotten(s.tasks[i], i in plan, if c < 0 then 0 else c, chosen.tick, c >= 0 && chosen.lastTask[c] != i);
  }

  lemma TickTask(s: Sim, policy: Policy, i: int)
    requires Shape(s) && 0 <= i < SIM_TASK_COUNT
    ensures var c := CpuOf(Plan(s, policy), |s.lastTask|, i);
      Tick(s, policy).tasks[i] == TaskAfter(s.tasks[i], c, s.tick, c >= 0 && s.lastTask[c] != i)
  {
    var s0 := Started(s);
    var (chosen, plan) := Assign(s0, policy, |s.lastTask|);
    AssignMarks(s0, policy, |s.lastTask|);
    StagesTask(s0, chosen, plan, i);
  }

  /** No simulated task runs on two CPUs in one tick, and only released tasks run. */
  lemma PlanIsExclusive(s: Sim, policy: Policy)
    requires Shape(s)
    ensures Distinct(Plan(s, policy))
    ensures forall c :: 0 <= c < NUM_CPUS && Plan(s, policy)[c] != -1 ==> PrepareTask(s.tasks[Plan(s, policy)[c]]).ready
  {
    AssignMarks(Started(s), policy, |s.lastTask|);
  }
}
