/** What the process manager leaves in its records, in numbers: new processes, exits, the statistics of whole runs,
    and the aging of processes that are passed over. */
module ProcessBooks {
  import opened Basics
  import opened Processes
  import opened ProcessRuns
  import opened ProcessFairness

  // ---- Records ----

  /** A new process takes the lowest free slot and the next pid, READY and otherwise blank. */
  lemma CreateGives(k: Kernel, ppid: int)
    requires |k.table| == 32 && Shape(k)
    ensures var (k', pid) := Create(k, ppid);
      if forall i :: 0 <= i < 32 ==> !k.table[i].state.Unused? then k' == k && pid == -1
      else
        && pid == k.nextPid && k' == k.(table := k'.table, nextPid := pid + 1) && |k'.table| == 32
        && forall i :: 0 <= i < 32 ==>
             k'.table[i] == if k.table[i].state.Unused? && (forall j :: 0 <= j < i ==> !k.table[j].state.Unused?)
                            then Process(pid, ppid, Ready, 0,
                              Context(Regs(0, 0, 0, 0, 0, 0, 0, 0, 0, 0, 0, 0, 0), 0, 0, 0),
                                         0, 0, None)
                            else k.table[i]
  {
    FirstFree(k.table, 0);
  }

  lemma {:induction false} FirstFree(table: seq<Process>, i: nat)
    requires i <= |table|
    ensures var r := FirstUnused(table, i);
      if r == -1 then forall j :: i <= j < |table| ==> !table[j].state.Unused?
      else i <= r < |table| && table[r].state.Unused? && forall j :: i <= j < r ==> !table[j].state.Unused?
    decreases |table| - i
  {
    if i < |table| && !table[i].state.Unused? { FirstFree(table, i + 1); }
  }

  /** A forked child in full: the parent's registers with 0 in eax, its directory and break, user data segments. */
  lemma ForkGives(k: Kernel, frame: Frame)
    requires Inv(k) && Current(k) >= 0 && FirstUnused(k.table, 0) >= 0 && k.table[Current(k)].pageDir != 0
    ensures var parent, child := Current(k), FirstUnused(k.table, 0);
            var p, k' := k.table[parent], SysFork(k, frame).0;
      && k'.table[parent] == p.(context := Context(frame.user, 0x23, 0x23, 0x23))
      && k'.table[child] == Process(k.nextPid, p.pid, Ready, p.pageDir,
           Context(frame.user.(eax := 0), 0x23, 0x23, 0x23), 0, p.brk, None)
  {
    hide FirstUnused;
    var parent := Current(k);
    var k0 := CaptureState(k, frame);
    CaptureKeepsInv(k, frame);
    UnusedSame(k.table, k0.table, 0);
    ForkChild(k0, parent, frame);
  }

  /** An exit leaves a zombie with the exit code, and a parent that was blocked READY; nothing else changes. */
  lemma ExitGives(k: Kernel, code: int)
    requires Inv(k) && Current(k) >= 0
    ensures var c, k' := Current(k), Exit(k, code);
            var p := k.table[c];
      && k' == k.(table := k'.table) && k'.table[c] == p.(exitCode := code, state := Zombie)
      && forall i :: 0 <= i < 32 && i != c ==>
           k'.table[i] == if p.ppid > 0 && k.table[i].state.Blocked? && k.table[i].pid == p.ppid
                          then k.table[i].(state := Ready) else k.table[i]
  {
    var c, p := Current(k), k.table[Current(k)];
    var k1 := k.(table := k.table[c := p.(exitCode := code, state := Zombie)]);
    forall i | Used(k1, i) ensures Used(k, i) && k1.table[i].pid == k.table[i].pid {
    }
    var parent := if p.ppid > 0 then Find(k1.table, p.ppid) else -1;
    forall i | 0 <= i < 32 && i != c && p.ppid > 0 && k.table[i].state.Blocked? && k.table[i].pid == p.ppid
      ensures i == parent
    {
      assert Used(k, i) && Used(k1, i);
    }
  }

  /** Round-robin goes on from the slot it chose last. */
  lemma CursorFollowsChoice(k: Kernel)
    requires Shape(k)
    ensures BaselineNext(k).1 == BaselineNext(k).0
  {
  }

  // ---- The HTAS choice in numbers ----

  /** How HTAS ranks a process on a CPU: profile boost and aging boost, and 5 more on the CPUs of its node. */
  function Rank(p: Process, cpu: nat): int {
    if p.htas.None? then 0
    else
      var h := p.htas.value;
      h.boost + h.boostAging + if h.numaNode == (if cpu < 2 then 0 else 1) then 5 else 0
  }

  /** A runnable process that may run on the CPU: without a profile, or with the CPU's bit in its mask. */
  predicate MayRun(p: Process, cpu: nat)
    requires cpu < 4
  {
    && (p.state.Ready? || p.state.Running?)
    && (p.htas.None? || p.htas.value.affinity / [1, 2, 4, 8][cpu] % 2 == 1)
  }

  lemma HtasChooses(table: seq<Process>, cpu: nat)
    requires cpu < 4
    ensures var r := HtasScan(table, cpu, |table|);
      if r == -1 then forall j :: 0 <= j < |table| ==> !MayRun(table[j], cpu)
      else
        && 0 <= r < |table| && MayRun(table[r], cpu)
        && forall j :: 0 <= j < |table| && MayRun(table[j], cpu) ==>
             Rank(table[j], cpu) < Rank(table[r], cpu) || (Rank(table[j], cpu) == Rank(table[r], cpu) && r <= j)
  {
    HtasPicksBest(table, cpu, |table|);
    forall j | 0 <= j < |table|
      ensures HtasEligible(table, cpu, j) <==> MayRun(table[j], cpu)
      ensures Priority(table[j], cpu) == Rank(table[j], cpu)
    {
    }
  }

  // ---- Aging ----

  /** Every one of these interrupts passes READY process `x` over. */
  ghost predicate PassedOver(k: Kernel, frames: seq<Frame>, x: nat)
    requires Shape(k)
    decreases |frames|
  {
    frames != [] ==>
      && Current(k) >= 0 && Pick(k, frames[0]) != x && Current(k) != x
      && HtasScan(Saved(k, Current(k), frames[0]).table, k.cpu, |k.table|) >= 0
      && PassedOver(Schedule(k, frames[0]).0, frames[1..], x)
  }

  ghost function Interrupted(k: Kernel, frames: seq<Frame>): (r: Kernel)
    requires Shape(k)
    ensures Shape(r)
    decreases |frames|
  {
    if frames == [] then k else Interrupted(Schedule(k, frames[0]).0, frames[1..])
  }

  /** Under HTAS a READY process with a profile counts the interrupts that pass it over, and from the hundred and
      first on its rank is raised by 5. */
  lemma {:induction false} PassedOverAges(k: Kernel, frames: seq<Frame>, x: nat)
    requires Shape(k) && k.policy.Htas? && x < 32 && k.table[x].state.Ready? && k.table[x].htas.Some?
    requires k.table[x].htas.value.waitTime + |frames| < WRAP && PassedOver(k, frames, x)
    ensures var k', h := Interrupted(k, frames), k.table[x].htas.value;
      && k'.table[x] == k.table[x].(htas := k'.table[x].htas) && k'.table[x].htas.Some?
      && var h' := k'.table[x].htas.value;
         h' == h.(waitTime := h.waitTime + |frames|,
                  boostAging := if frames != [] && h.waitTime + |frames| > 100 then 5 else h.boostAging)
    decreases |frames|
  {
    if frames != [] {
      hide Schedule;
      OnePassed(k, frames[0], x);
      PassedOverAges(Schedule(k, frames[0]).0, frames[1..], x);
    }
  }

  lemma OnePassed(k: Kernel, frame: Frame, x: nat)
    requires Shape(k) && k.policy.Htas? && x < 32 && k.table[x].state.Ready? && k.table[x].htas.Some?
    requires k.table[x].htas.value.waitTime + 1 < WRAP && Current(k) >= 0 && Current(k) != x && Pick(k, frame) != x
    requires HtasScan(Saved(k, Current(k), frame).table, k.cpu, |k.table|) >= 0
    ensures var k', h := Schedule(k, frame).0, k.table[x].htas.value;
      && k'.policy == k.policy
      && k'.table[x] == k.table[x].(htas := Some(h.(waitTime := h.waitTime + 1,
           boostAging := if h.waitTime + 1 > 100 then 5 else h.boostAging)))
  {
    hide PickNext, RecordSwitch, HtasScan;
    var s := Saved(k, Current(k), frame);
    assert s.table[x] == k.table[x];
    AgedByPick(s, Current(k), x);
    var (k1, next) := PickNext(s, Current(k));
    if next != Current(k) { RecordApart(k1, next, x); }
  }

  lemma AgedByPick(k: Kernel, current: nat, x: nat)
    requires Shape(k) && k.policy.Htas? && current < 32 && x < 32 && x != PickNext(k, current).1
    requires HtasScan(k.table, k.cpu, |k.table|) >= 0
    ensures PickNext(k, current).0.table[x] == AgedProcess(k.table[x])
  {
  }

  lemma RecordApart(k: Kernel, next: nat, x: nat)
    requires Shape(k) && next < 32 && x < 32 && x != next
    ensures RecordSwitch(k, next).table[x] == k.table[x]
  {
  }

  // ---- Statistics over whole runs ----

  /** After `n` switches the CPU is n mod 4; CPUs 0 and 1 are P-cores and cost 100 units and 10 microseconds a
      switch, the others are E-cores and cost 40 units. */
  ghost predicate Booked(st: Stats, cpu: nat) {
    var n := st.switches;
    var p := 2 * (n / 4) + if n % 4 < 2 then n % 4 else 2;
    && cpu == n % 4 && st.pcoreUs == 10 * p && st.ecoreUs == 10 * (n - p)
    && st.power == 100 * p + 40 * (n - p)
  }

  /** An interrupt counts a tick of the policy in force, if there is a current process, and a switch if another
      one is picked. */
  lemma TimerBooks(k: Kernel, frame: Frame)
    requires Shape(k)
    ensures var k' := Schedule(k, frame).0;
            var s, s' := ActiveStats(k), ActiveStats(k');
      && k'.policy == k.policy
      && (if k.policy.Baseline? then k'.htas == k.htas else k'.baseline == k.baseline)
      && (if Current(k) < 0 then s' == s && k'.cpu == k.cpu
          else if Pick(k, frame) == Current(k) then s' == s.(ticks := s.ticks + 1) && k'.cpu == k.cpu
          else
            && s'.ticks == s.ticks + 1 && s'.switches == s.switches + 1 && k'.cpu == (k.cpu + 1) % 4
            && s'.pcoreUs == s.pcoreUs + (if k.cpu < 2 then 10 else 0)
            && s'.ecoreUs == s.ecoreUs + (if k.cpu < 2 then 0 else 10)
            && s'.power == s.power + (if k.cpu < 2 then 100 else 40))
  {
    hide PickNext, RecordSwitch;
    if Current(k) >= 0 {
      var s := Saved(k, Current(k), frame);
      PickBooks(s, Current(k));
      var (k1, next) := PickNext(s, Current(k));
      if next != Current(k) { SwitchBooks(k1, next); }
    }
  }

  lemma PickBooks(k: Kernel, current: nat)
    requires Shape(k) && current < 32
    ensures var k1 := PickNext(k, current).0;
      && ActiveStats(k1) == ActiveStats(k).(ticks := ActiveStats(k).ticks + 1)
      && (if k.policy.Baseline? then k1.htas == k.htas else k1.baseline == k.baseline)
  {
    hide Selection, Aged;
  }

  lemma SwitchBooks(k: Kernel, next: nat)
    requires Shape(k) && next < 32
    ensures var k1, s := RecordSwitch(k, next), ActiveStats(k);
            var s1 := ActiveStats(k1);
      && (if k.policy.Baseline? then k1.htas == k.htas else k1.baseline == k.baseline)
      && s1.ticks == s.ticks && s1.switches == s.switches + 1 && k1.cpu == (k.cpu + 1) % 4
      && s1.pcoreUs == s.pcoreUs + (if k.cpu < 2 then 10 else 0)
      && s1.ecoreUs == s.ecoreUs + (if k.cpu < 2 then 0 else 10)
      && s1.power == s.power + (if k.cpu < 2 then 100 else 40)
  {
  }

  /** A switch counts for the intent of the process switched to, if it has a profile, and for no other; the
      process starts to age anew. */
  lemma SwitchResets(k: Kernel, frame: Frame)
    requires Shape(k) && Current(k) >= 0 && Pick(k, frame) != Current(k)
    ensures var k', x := Schedule(k, frame).0, Pick(k, frame);
            var s, s', h := ActiveStats(k), ActiveStats(k'), k.table[x].htas;
      && (forall i :: s'.intentSwitches(i) == s.intentSwitches(i) + if h.Some? && h.value.intent == i then 1 else 0)
      && (h.Some? ==> k'.table[x].htas == Some(h.value.(waitTime := 0, boostAging := 0, switches :=
           h.value.switches + 1)))
  {
    var s := Saved(k, Current(k), frame);
    var (k1, x) := PickNext(s, Current(k));
    NotAged(s, Current(k));
    assert k1.table[x].htas == k.table[x].htas;
    assert ActiveStats(k1).intentSwitches == ActiveStats(k).intentSwitches;
  }

  lemma NotAged(k: Kernel, current: nat)
    requires Shape(k) && current < 32
    ensures var (k1, x) := PickNext(k, current); x != current ==> k1.table[x] == k.table[x]
    ensures ActiveStats(PickNext(k, current).0).intentSwitches == ActiveStats(k).intentSwitches
  {
  }

  /** Events other than interrupts leave the statistics alone. */
  lemma QuietBooks(k: Kernel, e: Event)
    requires Shape(k) && !e.Timer?
    ensures var k' := Step(k, e);
      k'.policy == k.policy && k'.cpu == k.cpu && k'.baseline == k.baseline && k'.htas == k.htas
  {
  }

  lemma BooksNext(st: Stats, st': Stats, cpu: nat)
    requires Booked(st, cpu) && st'.switches == st.switches + 1
    requires st'.pcoreUs == st.pcoreUs + if cpu < 2 then 10 else 0
    requires st'.ecoreUs == st.ecoreUs + if cpu < 2 then 0 else 10
    requires st'.power == st.power + if cpu < 2 then 100 else 40
    ensures Booked(st', (cpu + 1) % 4)
  {
    NextQuarter(st.switches);
  }

  lemma NextQuarter(n: nat)
    ensures n % 4 < 3 ==> (n + 1) % 4 == n % 4 + 1 && (n + 1) / 4 == n / 4
    ensures n % 4 == 3 ==> (n + 1) % 4 == 0 && (n + 1) / 4 == n / 4 + 1
  {
  }

  /** Whatever happens, the figures of the policy in force are determined by the number of its switches, and it
      switches no more often than there are interrupts. */
  lemma {:induction false} RunBooks(k: Kernel, es: seq<Event>)
    requires Shape(k) && Booked(ActiveStats(k), k.cpu)
    ensures var k' := Run(k, es);
      && k'.policy == k.policy && Booked(ActiveStats(k'), k'.cpu)
      && ActiveStats(k).switches <= ActiveStats(k').switches <= ActiveStats(k).switches + Interrupts(es)
    decreases |es|
  {
    if es != [] {
      hide Schedule, Booked, Step;
      var init, e := es[..|es| - 1], es[|es| - 1];
      RunBooks(k, init);
      var k1 := Run(k, init);
      if e.Timer? {
        TimerBooks(k1, e.frame);
        TimerStep(k1, e);
        if Current(k1) >= 0 && Pick(k1, e.frame) != Current(k1) {
          BooksNext(ActiveStats(k1), ActiveStats(Schedule(k1, e.frame).0), k1.cpu);
        } else {
          SameBooks(ActiveStats(k1), ActiveStats(Schedule(k1, e.frame).0), k1.cpu);
        }
      } else {
        QuietBooks(k1, e);
      }
    }
  }

  lemma TimerStep(k: Kernel, e: Event)
    requires Shape(k) && e.Timer?
    ensures Step(k, e) == Schedule(k, e.frame).0
  {
  }

  lemma SameBooks(st: Stats, st': Stats, cpu: nat)
    requires Booked(st, cpu) && st' == st.(ticks := st'.ticks)
    ensures Booked(st', cpu)
  {
  }

  /** At the start, under either policy, the books are in order. */
  lemma InitialBooks(cr3: Word)
    ensures Booked(Initial(cr3).baseline, Initial(cr3).cpu) && Booked(Initial(cr3).htas, Initial(cr3).cpu)
  {
  }
}
