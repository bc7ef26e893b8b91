/** User processes: the table of kernel/proc/process.c, the selection rules of kernel/sched/htas.c and
    the register capture of the fork system call, as functions on values. */
module Processes {
  import opened Basics

  const MAX_PROCESSES := 32
  const NUM_CPUS := 4
  const AGING_THRESHOLD := 100
  const AGING_PRIORITY_BOOST := 5
  const MAX_INT := 0x7FFF_FFFF

  type Slot = i: int | -1 <= i < MAX_PROCESSES

  datatype ProcState = Unused | Ready | Running | Blocked | Zombie
  datatype Policy = Baseline | Htas | Dynamic
  datatype Intent = Performance | Efficiency | LowLatency | Default

  /** The thirteen registers that a switch saves and restores. */
  datatype Regs = Regs(eax: Word, ebx: Word, ecx: Word, edx: Word, esi: Word, edi: Word, ebp: Word,
                       esp: Word, eip: Word, eflags: Word, cs: Word, ss: Word, ds: Word)

  /** proc_context_t: the saved registers plus three segment registers that only fork writes. */
  datatype Context = Context(regs: Regs, es: Word, fs: Word, gs: Word)

  /** struct registers: `user` is the interrupted user state (its stack pointer is `useresp`); the other
      words are pushed by the stubs and left alone. */
  datatype Frame = Frame(user: Regs, kernelEsp: Word, intNum: Word, errCode: Word)

  datatype HtasInfo = HtasInfo(intent: Intent, affinity: Word, boost: int, numaNode: nat,
                               waitTime: Word, boostAging: int, switches: nat)

  datatype Process = Process(pid: int, ppid: int, state: ProcState, pageDir: Word, context: Context,
                             exitCode: int, brk: Word, htas: Option<HtasInfo>)

  datatype Stats = Stats(ticks: nat, switches: nat, intentSwitches: Intent -> nat,
                         power: nat, pcoreUs: nat, ecoreUs: nat)

  datatype Kernel = Kernel(table: seq<Process>, currentPid: int, nextPid: int, cr3: Word,
                           policy: Policy, cpu: nat, rrCursor: int, baseline: Stats, htas: Stats)

  ghost predicate Shape(k: Kernel) {
    |k.table| == MAX_PROCESSES && k.cpu < NUM_CPUS && -1 <= k.rrCursor < MAX_PROCESSES
  }

  // ---- The table ----

  /** The first slot at or above `i` in use under `pid`. */
  function FindFrom(table: seq<Process>, pid: int, i: nat): (r: int)
    requires i <= |table|
    ensures r == -1 ==> forall j :: i <= j < |table| ==> table[j].state.Unused? || table[j].pid != pid
    ensures r != -1 ==>
      && i <= r < |table| && !table[r].state.Unused? && table[r].pid == pid
      && forall j :: i <= j < r ==> table[j].state.Unused? || table[j].pid != pid
    decreases |table| - i
  {
    if i == |table| then -1
    else if !table[i].state.Unused? && table[i].pid == pid then i
    else FindFrom(table, pid, i + 1)
  }

  function Find(table: seq<Process>, pid: int): (r: int)
    ensures r == -1 ==> forall j :: 0 <= j < |table| ==> table[j].state.Unused? || table[j].pid != pid
    ensures r != -1 ==> 0 <= r < |table| && !table[r].state.Unused? && table[r].pid == pid
  {
    FindFrom(table, pid, 0)
  }

  function Current(k: Kernel): (r: int)
    ensures r == -1 || (0 <= r < |k.table| && !k.table[r].state.Unused? && k.table[r].pid == k.currentPid)
  {
    if k.currentPid < 0 then -1 else Find(k.table, k.currentPid)
  }

  function FirstUnused(table: seq<Process>, i: nat): (r: int)
    requires i <= |table|
    ensures r == -1 ==> forall j :: i <= j < |table| ==> !table[j].state.Unused?
    ensures r != -1 ==> i <= r < |table| && table[r].state.Unused?
    decreases |table| - i
  {
    if i == |table| then -1 else if table[i].state.Unused? then i else FirstUnused(table, i + 1)
  }

  const ZERO_REGS := Regs(0, 0, 0, 0, 0, 0, 0, 0, 0, 0, 0, 0, 0)
  const ZERO_CONTEXT := Context(ZERO_REGS, 0, 0, 0)

  function NewProcess(pid: int, ppid: int): Process {
    Process(pid, ppid, Ready, 0, ZERO_CONTEXT, 0, 0, None)
  }

  /** process_create: the new state and the new pid, or -1. */
  function Create(k: Kernel, ppid: int): (r: (Kernel, int))
    requires Shape(k)
    ensures Shape(r.0)
  {
    var i := FirstUnused(k.table, 0);
    if i < 0 then (k, -1)
    else (k.(table := k.table[i := NewProcess(k.nextPid, ppid)], nextPid := k.nextPid + 1), k.nextPid)
  }

  // ---- Selection ----

  predicate Runnable(p: Process) {
    p.state.Ready? || p.state.Running?
  }

  function Cyclic(start: nat, k: nat): (i: nat)
    ensures i < MAX_PROCESSES
  {
    (start + k) % MAX_PROCESSES
  }

  /** The round-robin scan over the last `left` of 32 slots, skipping slot `except`. */
  function ScanCyclic(table: seq<Process>, start: nat, left: nat, except: int): (r: int)
    requires |table| == MAX_PROCESSES && left <= MAX_PROCESSES
    ensures r == -1 || (0 <= r < MAX_PROCESSES && Runnable(table[r]) && r != except)
  {
    if left == 0 then -1
    else
      var i := Cyclic(start, MAX_PROCESSES - left);
      if Runnable(table[i]) && i != except then i else ScanCyclic(table, start, left - 1, except)
  }

  /** baseline_select_next: the chosen slot (or -1) and the new cursor. */
  function BaselineNext(k: Kernel): (r: (int, int))
    requires Shape(k)
    ensures r.0 == -1 || (0 <= r.0 < MAX_PROCESSES && Runnable(k.table[r.0]))
    ensures -1 <= r.1 < MAX_PROCESSES
  {
    var current := Current(k);
    var candidate := if current >= 0 && Runnable(k.table[current]) then current else -1;
    var cursor := if current >= 0 then current else k.rrCursor;
    var next := ScanCyclic(k.table, if cursor >= 0 then (cursor + 1) % MAX_PROCESSES else 0, |k.table|, candidate);
    if next >= 0 then (next, next)
    else if candidate >= 0 then (candidate, current)
    else (-1, -1)
  }

  /** `mask & (1 << cpu)` for the four simulated CPUs. */
  predicate AffinityBit(mask: Word, cpu: nat)
    requires cpu < NUM_CPUS
  {
    (match cpu case 0 => mask case 1 => mask / 2 case 2 => mask / 4 case _ => mask / 8) % 2 == 1
  }

  predicate CanRunOn(p: Process, cpu: nat) {
    cpu < NUM_CPUS && (p.htas.None? || AffinityBit(p.htas.value.affinity, cpu))
  }

  function NumaOfCpu(cpu: nat): nat {
    if cpu < 2 then 0 else if cpu < NUM_CPUS then 1 else 0
  }

  predicate IsPCore(cpu: nat) {
    cpu < 2 || cpu >= NUM_CPUS
  }

  function Priority(p: Process, cpu: nat): int {
    match p.htas
    case None => 0
    case Some(h) => h.boost + h.boostAging + if h.numaNode == NumaOfCpu(cpu) then 5 else 0
  }

  /** htas_select_next over the first `n` slots. */
  function HtasScan(table: seq<Process>, cpu: nat, n: nat): (r: int)
    requires n <= |table|
    ensures r == -1 || (0 <= r < n && Runnable(table[r]) && CanRunOn(table[r], cpu))
  {
    if n == 0 then -1
    else
      var best := HtasScan(table, cpu, n - 1);
      var p := table[n - 1];
      if Runnable(p) && CanRunOn(p, cpu) && (best < 0 || Priority(p, cpu) > Priority(table[best], cpu))
      then n - 1
      else best
  }

  function AgedProcess(p: Process): Process {
    if p.state.Ready? && p.htas.Some? then
      var w := (p.htas.value.waitTime + 1) % WRAP;
      var boost := if w > AGING_THRESHOLD then AGING_PRIORITY_BOOST else p.htas.value.boostAging;
      p.(htas := Some(p.htas.value.(waitTime := w, boostAging := boost)))
    else p
  }

  function Aged(table: seq<Process>, next: int): (r: seq<Process>)
    ensures |r| == |table|
    ensures forall i :: 0 <= i < |table| ==> r[i] == if i == next then table[i] else AgedProcess(table[i])
  {
    seq(|table|, i requires 0 <= i < |table| => if i == next then table[i] else AgedProcess(table[i]))
  }

  function ActiveStats(k: Kernel): Stats {
    if k.policy.Baseline? then k.baseline else k.htas
  }

  function WithStats(k: Kernel, s: Stats): Kernel {
    if k.policy.Baseline? then k.(baseline := s) else k.(htas := s)
  }

  function Selection(k: Kernel): (int, int)
    requires Shape(k)
  {
    if k.policy.Baseline? then BaselineNext(k) else (HtasScan(k.table, k.cpu, |k.table|), k.rrCursor)
  }

  /** htas_pick_next_process: with nothing runnable the caller's current process comes back. */
  function PickNext(k: Kernel, current: nat): (r: (Kernel, nat))
    requires Shape(k) && current < MAX_PROCESSES
    ensures r.1 < MAX_PROCESSES
    ensures Shape(r.0)
    ensures r.0 == k.(table := r.0.table, rrCursor := r.0.rrCursor, baseline := r.0.baseline, htas := r.0.htas)
  {
    var s := ActiveStats(k);
    var k1 := WithStats(k, s.(ticks := s.ticks + 1));
    var (next, cursor) := Selection(k1);
    var k2 := k1.(rrCursor := cursor);
    if next < 0 then (k2, current)
    else (if k.policy.Htas? then k2.(table := Aged(k2.table, next)) else k2, next)
  }

  /** htas_record_switch: statistics, the aging reset of the process that runs, and the next CPU. */
  function RecordSwitch(k: Kernel, next: nat): (r: Kernel)
    requires Shape(k) && next < MAX_PROCESSES
    ensures Shape(r) && r == k.(table := r.table, baseline := r.baseline, htas := r.htas, cpu := r.cpu)
  {
    var p := k.table[next];
    var s := ActiveStats(k);
    var s1 := s.(switches := s.switches + 1,
                 power := s.power + if IsPCore(k.cpu) then 100 else 40,
                 pcoreUs := s.pcoreUs + if IsPCore(k.cpu) then 10 else 0,
                 ecoreUs := s.ecoreUs + if IsPCore(k.cpu) then 0 else 10);
    match p.htas
    case None => WithStats(k, s1).(cpu := (k.cpu + 1) % NUM_CPUS)
    case Some(h) =>
      var q := p.(htas := Some(h.(waitTime := 0, boostAging := 0, switches := h.switches + 1)));
      WithStats(k, s1.(intentSwitches := (i: Intent) => s.intentSwitches(i) + if i == h.intent then 1 else 0))
      .(table := k.table[next := q], cpu := (k.cpu + 1) % NUM_CPUS)
  }

  // ---- The context switch ----

  function WithState(k: Kernel, i: nat, state: ProcState): Kernel
    requires i < |k.table|
  {
    k.(table := k.table[i := k.table[i].(state := state)])
  }

  /** Save the interrupted registers of a running current process and make it READY. */
  function Saved(k: Kernel, current: nat, frame: Frame): (r: Kernel)
    requires Shape(k) && current < MAX_PROCESSES
    ensures Shape(r)
  {
    var p := k.table[current];
    if p.state.Running?
    then k.(table := k.table[current := p.(context := p.context.(regs := frame.user), state := Ready)])
    else k
  }

  /** Leave the interrupt into process `next`. */
  function Resumed(k: Kernel, next: nat, frame: Frame): (r: (Kernel, Frame))
    requires Shape(k) && next < MAX_PROCESSES
    ensures Shape(r.0)
  {
    var p := k.table[next];
    (WithState(k, next, Running).(currentPid := p.pid, cr3 := p.pageDir), frame.(user := p.context.regs))
  }

  /** process_schedule. The selection sees the table after the current process has been saved. */
  function Schedule(k: Kernel, frame: Frame): (r: (Kernel, Frame))
    requires Shape(k)
    ensures Shape(r.0)
  {
    var current := Current(k);
    if current < 0 then (k, frame)
    else
      var (k1, next) := PickNext(Saved(k, current, frame), current);
      if next == current then (WithState(k1, current, Running), frame)
      else Resumed(RecordSwitch(k1, next), next, frame)
  }

  // ---- Fork and exit ----

  const USER_DATA_SEGMENT: Word := 0x23

  /** The context that the fork system call records for the parent. */
  function Captured(frame: Frame): Context {
    Context(frame.user, USER_DATA_SEGMENT, USER_DATA_SEGMENT, USER_DATA_SEGMENT)
  }

  /** process_fork for an existing parent slot: the new state and the child's pid, or -1. */
  function Fork(k: Kernel, parent: nat): (r: (Kernel, int))
    requires Shape(k) && parent < MAX_PROCESSES
    ensures Shape(r.0)
  {
    var (k1, pid) := Create(k, k.table[parent].pid);
    if pid < 0 then (k1, -1)
    else
      var child := Find(k1.table, pid);
      if child < 0 then (k1, -1)
      else
        var p := k1.table[parent];
        if p.pageDir == 0 then (WithState(k1, child, Unused), -1)
        else
          var c := k1.table[child].(pageDir := p.pageDir, context := p.context.(regs := p.context.regs.(eax := 0)),
                                    brk := p.brk, state := Ready);
          (k1.(table := k1.table[child := c]), pid)
  }

  /** The fork system call: capture, fork, and the return value in eax. */
  function SysFork(k: Kernel, frame: Frame): (r: (Kernel, Frame))
    requires Shape(k)
    ensures Shape(r.0)
  {
    var parent := Current(k);
    var (k1, pid) :=
      if parent < 0 then (k, -1)
      else Fork(k.(table := k.table[parent := k.table[parent].(context := Captured(frame))]), parent);
    (k1, frame.(user := frame.user.(eax := pid % WRAP)))
  }

  /** process_exit: the current process becomes a zombie and a blocked parent wakes up. */
  function Exit(k: Kernel, code: int): (r: Kernel)
    requires Shape(k)
    ensures Shape(r)
  {
    var current := Current(k);
    if current < 0 then k
    else
      var p := k.table[current];
      var k1 := k.(table := k.table[current := p.(exitCode := code, state := Zombie)]);
      var parent := if p.ppid > 0 then Find(k1.table, p.ppid) else -1;
      if parent >= 0 && k1.table[parent].state.Blocked? then WithState(k1, parent, Ready) else k1
  }

  // ---- Starting and removing a program ----

  const USER_CODE_SEGMENT: Word := 0x1B
  const USER_FLAGS: Word := 0x202

  function EntryRegs(regs: Regs, entry: Word, stack: Word): Regs {
    regs.(eip := entry, esp := stack, ebp := 0, eflags := USER_FLAGS,
          cs := USER_CODE_SEGMENT, ss := USER_DATA_SEGMENT, ds := USER_DATA_SEGMENT)
  }

  /** run_user_and_wait up to the jump to user mode: a new process becomes RUNNING and current. */
  function Launch(k: Kernel, entry: Word, stack: Word): (r: (Kernel, int))
    requires Shape(k)
    ensures Shape(r.0)
  {
    var (k1, pid) := Create(k, 0);
    var i := Find(k1.table, pid);
    if pid < 0 || i < 0 then (k1, -1)
    else
      var regs := EntryRegs(k1.table[i].context.regs, entry, stack);
      var p := k1.table[i].(pageDir := k1.cr3, context := k1.table[i].context.(regs := regs), state := Running);
      (k1.(table := k1.table[i := p], currentPid := pid), pid)
  }

  /** process_destroy; the memory is given back by the teardown of the page directory. */
  function Destroy(k: Kernel, pid: int): (r: Kernel)
    requires Shape(k)
    ensures Shape(r)
  {
    var i := Find(k.table, pid);
    if i < 0 then k else k.(table := k.table[i := k.table[i].(pageDir := 0, state := Unused)])
  }

  const NO_STATS := Stats(0, 0, _ => 0, 0, 0, 0)

  /** process_init and htas_init. */
  function Initial(cr3: Word): (k: Kernel)
    ensures Shape(k)
  {
    var table := seq(MAX_PROCESSES, _ => Process(0, 0, Unused, 0, ZERO_CONTEXT, 0, 0, None));
    Kernel(table, -1, 1, cr3, Baseline, 0, -1, NO_STATS, NO_STATS)
  }
}
