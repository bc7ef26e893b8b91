/** Releasing the user half of an address space (kernel/proc/process.c, free_user_address_space). */
module Teardown {
  import opened Basics
  import opened Frames
  import opened Paging
  import opened PagingRuns

  predicate UserEntry(e: Word) {
    Present(e) && UserFlag(e)
  }

  /** What the sweep leaves of a table word. In the directory in use only user pages go; in another one
      every present entry does. */
  function SweptWord(active: bool, e: Word): Word {
    if Present(e) && (active ==> UserFlag(e)) then 0 else e
  }

  function Swept(active: bool, table: Frame): Frame {
    seq(ENTRIES, k requires 0 <= k < ENTRIES => SweptWord(active, table[k]))
  }

  /** Release the frames of the user pages among the first `n` entries of a table. */
  function FreePages(p: Pmm, table: Frame, n: nat): (q: Pmm)
    requires n <= ENTRIES
    ensures |q.used| == |p.used|
  {
    if n == 0 then p
    else
      var q := FreePages(p, table, n - 1);
      if UserEntry(table[n - 1]) then FreeFrame(q, Base(table[n - 1])) else q
  }

  /** `e & ~0xFFF`. */
  function Base(e: Word): Word {
    FrameOf(e) * FRAME_SIZE
  }

  /** Directory entry `i` of directory `d` and the table it names. */
  function ReleaseEntry(m: Machine, active: bool, d: nat, i: nat): (r: Machine)
    requires Shape(m) && d < FRAMES_OF_ADDRESS_SPACE && i < ENTRIES
    ensures Shape(r)
  {
    var e := Load(m.mem, d, i);
    if !UserEntry(e) then m
    else
      var t := FrameOf(e);
      var mem := m.mem[t := Swept(active, m.mem[t])];
      Machine(Store(mem, d, i, 0), m.cr3, FreeFrame(FreePages(m.pmm, m.mem[t], ENTRIES), Base(e)))
  }

  function ReleaseEntries(m: Machine, active: bool, d: nat, n: nat): (r: Machine)
    requires Shape(m) && d < FRAMES_OF_ADDRESS_SPACE && n <= USER_ENTRIES
    ensures Shape(r)
  {
    if n == 0 then m else ReleaseEntry(ReleaseEntries(m, active, d, n - 1), active, d, n - 1)
  }

  /** The whole teardown of the directory at physical address `pd`; 0 means none. */
  function FreeUserSpace(m: Machine, pd: Word): (r: Machine)
    requires Shape(m)
    ensures Shape(r)
  {
    if pd == 0 then m
    else
      var m1 := ReleaseEntries(m, pd == m.cr3, FrameOf(pd), USER_ENTRIES);
      if pd == m.cr3 then m1 else Machine(m1.mem, m1.cr3, FreeFrame(m1.pmm, pd))
  }

  // ---- What is reachable ----

  predicate UserSlot(mem: seq<Frame>, d: nat, i: nat)
    requires |mem| == FRAMES_OF_ADDRESS_SPACE && d < FRAMES_OF_ADDRESS_SPACE
  {
    i < USER_ENTRIES && UserEntry(Load(mem, d, i))
  }

  function TableAt(mem: seq<Frame>, d: nat, i: nat): nat
    requires |mem| == FRAMES_OF_ADDRESS_SPACE && d < FRAMES_OF_ADDRESS_SPACE && i < ENTRIES
  {
    FrameOf(Load(mem, d, i))
  }

  /** Frame `t` is a user table named by one of the first `n` entries. */
  ghost predicate UserTable(mem: seq<Frame>, d: nat, n: nat, t: nat)
    requires |mem| == FRAMES_OF_ADDRESS_SPACE && d < FRAMES_OF_ADDRESS_SPACE
  {
    exists i :: 0 <= i < n && UserSlot(mem, d, i) && TableAt(mem, d, i) == t
  }

  /** A user page of table `t` lies in frame `f`. */
  ghost predicate PageIn(mem: seq<Frame>, t: nat, f: nat)
    requires |mem| == FRAMES_OF_ADDRESS_SPACE && t < FRAMES_OF_ADDRESS_SPACE
  {
    exists k :: 0 <= k < ENTRIES && UserEntry(Load(mem, t, k)) && FrameOf(Load(mem, t, k)) == f
  }

  /** Frame `f` is a user page or a user table reached through the first `n` entries. */
  ghost predicate Reached(mem: seq<Frame>, d: nat, n: nat, f: nat)
    requires |mem| == FRAMES_OF_ADDRESS_SPACE && d < FRAMES_OF_ADDRESS_SPACE
  {
    exists i :: 0 <= i < n && UserSlot(mem, d, i) && (f == TableAt(mem, d, i) || PageIn(mem, TableAt(mem, d, i), f))
  }

  /** The frames that the teardown of `pd` gives back. */
  ghost predicate Released(m: Machine, pd: Word, f: nat)
    requires Shape(m)
  {
    Reached(m.mem, FrameOf(pd), USER_ENTRIES, f) || (pd != m.cr3 && f == FrameOf(pd))
  }

  /** The directory is not one of its own user tables. */
  ghost predicate NotSelfMapped(mem: seq<Frame>, d: nat)
    requires |mem| == FRAMES_OF_ADDRESS_SPACE && d < FRAMES_OF_ADDRESS_SPACE
  {
    !UserTable(mem, d, USER_ENTRIES, d)
  }

  /** Memory after the first `n` entries have been released, word by word. */
  ghost function WordAfter(mem: seq<Frame>, active: bool, d: nat, n: nat, g: nat, k: nat): Word
    requires |mem| == FRAMES_OF_ADDRESS_SPACE && d < FRAMES_OF_ADDRESS_SPACE && g < FRAMES_OF_ADDRESS_SPACE
    requires k < ENTRIES
  {
    if g == d then if k < n && UserSlot(mem, d, k) then 0 else Load(mem, d, k)
    else if UserTable(mem, d, n, g) then SweptWord(active, Load(mem, g, k))
    else Load(mem, g, k)
  }

  // ---- Frames ----

  lemma FreeFrameFlags(p: Pmm, e: Word)
    ensures var q := FreeFrame(p, Base(e));
      && |q.used| == |p.used|
      && (forall f :: 0 <= f < |p.used| ==> (q.used[f] <==> p.used[f] && f != FrameOf(e)))
      && (p.free == CountClear(p.used) ==> q.free == CountClear(q.used))
  {
    var i := FrameOf(e);
    if i < |p.used| { CountUpdate(p.used, i, false); }
  }

  ghost predicate PageBelow(table: Frame, n: nat, f: nat)
    requires n <= ENTRIES
  {
    exists k :: 0 <= k < n && UserEntry(table[k]) && FrameOf(table[k]) == f
  }

  lemma {:induction false} FreePagesFlags(p: Pmm, table: Frame, n: nat)
    requires n <= ENTRIES
    ensures var q := FreePages(p, table, n);
      && (forall f :: 0 <= f < |p.used| ==> (q.used[f] <==> p.used[f] && !PageBelow(table, n, f)))
      && (p.free == CountClear(p.used) ==> q.free == CountClear(q.used))
  {
    hide PageBelow, UserEntry, FreeFrame;
    if n == 0 {
      forall f ensures !PageBelow(table, 0, f) { NoPageBelow(table, f); }
    } else {
      FreePagesFlags(p, table, n - 1);
      var q := FreePages(p, table, n - 1);
      if UserEntry(table[n - 1]) { FreeFrameFlags(q, table[n - 1]); }
      forall f | 0 <= f < |p.used|
        ensures PageBelow(table, n, f)
          <==> PageBelow(table, n - 1, f) || (UserEntry(table[n - 1]) && FrameOf(table[n - 1]) == f)
      {
        PageBelowStep(table, n, f);
      }
    }
  }

  lemma NoPageBelow(table: Frame, f: nat)
    ensures !PageBelow(table, 0, f)
  {
  }

  lemma PageBelowStep(table: Frame, n: nat, f: nat)
    requires 0 < n <= ENTRIES
    ensures PageBelow(table, n, f)
      <==> PageBelow(table, n - 1, f) || (UserEntry(table[n - 1]) && FrameOf(table[n - 1]) == f)
  {
  }

  // ---- One entry ----

  lemma ReleaseEntryWords(m: Machine, active: bool, d: nat, i: nat)
    requires Shape(m) && d < FRAMES_OF_ADDRESS_SPACE && i < USER_ENTRIES
    requires UserSlot(m.mem, d, i) && TableAt(m.mem, d, i) != d
    ensures var m1, t := ReleaseEntry(m, active, d, i), TableAt(m.mem, d, i);
      forall g, k :: 0 <= g < FRAMES_OF_ADDRESS_SPACE && 0 <= k < ENTRIES ==>
        Load(m1.mem, g, k) ==
          if g == d && k == i then 0 else if g == t then SweptWord(active, Load(m.mem, g, k)) else Load(m.mem, g, k)
  {
  }

  lemma ReleaseEntryFrames(m: Machine, active: bool, d: nat, i: nat)
    requires Shape(m) && d < FRAMES_OF_ADDRESS_SPACE && i < USER_ENTRIES && UserSlot(m.mem, d, i)
    ensures var m1, t := ReleaseEntry(m, active, d, i), TableAt(m.mem, d, i);
      && m1.cr3 == m.cr3 && |m1.pmm.used| == |m.pmm.used|
      && (forall f :: 0 <= f < |m.pmm.used| ==> (m1.pmm.used[f] <==> m.pmm.used[f] && f != t && !PageIn(m.mem, t, f)))
      && (m.pmm.free == CountClear(m.pmm.used) ==> m1.pmm.free == CountClear(m1.pmm.used))
  {
    var e := Load(m.mem, d, i);
    var t := FrameOf(e);
    FreePagesFlags(m.pmm, m.mem[t], ENTRIES);
    FreeFrameFlags(FreePages(m.pmm, m.mem[t], ENTRIES), e);
    forall f ensures PageBelow(m.mem[t], ENTRIES, f) <==> PageIn(m.mem, t, f) {
      if k :| 0 <= k < ENTRIES && UserEntry(m.mem[t][k]) && FrameOf(m.mem[t][k]) == f {
        assert UserEntry(Load(m.mem, t, k));
      }
      if k :| 0 <= k < ENTRIES && UserEntry(Load(m.mem, t, k)) && FrameOf(Load(m.mem, t, k)) == f {
        assert UserEntry(m.mem[t][k]);
      }
    }
  }

  // ---- All entries ----

  lemma {:induction false} EntriesWords(m: Machine, active: bool, d: nat, n: nat)
    requires Shape(m) && d < FRAMES_OF_ADDRESS_SPACE && n <= USER_ENTRIES && NotSelfMapped(m.mem, d)
    ensures var m1 := ReleaseEntries(m, active, d, n);
      forall g, k :: 0 <= g < FRAMES_OF_ADDRESS_SPACE && 0 <= k < ENTRIES ==>
        Load(m1.mem, g, k) == WordAfter(m.mem, active, d, n, g, k)
  {
    hide ReleaseEntry, Load;
    if n > 0 {
      var i := n - 1;
      EntriesWords(m, active, d, i);
      var m0 := ReleaseEntries(m, active, d, i);
      assert Load(m0.mem, d, i) == Load(m.mem, d, i) by { WordAtDirectory(m.mem, active, d, i); }
      if UserSlot(m.mem, d, i) {
        assert TableAt(m.mem, d, i) != d;
        ReleaseEntryWords(m0, active, d, i);
      } else {
        assert ReleaseEntries(m, active, d, n) == m0 by { Untouched(m0, active, d, i); }
      }
      forall g, k | 0 <= g < FRAMES_OF_ADDRESS_SPACE && 0 <= k < ENTRIES
        ensures Load(ReleaseEntries(m, active, d, n).mem, g, k) == WordAfter(m.mem, active, d, n, g, k)
      {
        WordStep(m.mem, active, d, i, g, k);
      }
    }
  }

  lemma WordStep(mem: seq<Frame>, active: bool, d: nat, i: nat, g: nat, k: nat)
    requires |mem| == FRAMES_OF_ADDRESS_SPACE && d < FRAMES_OF_ADDRESS_SPACE && i < USER_ENTRIES
    requires g < FRAMES_OF_ADDRESS_SPACE && k < ENTRIES && NotSelfMapped(mem, d)
    ensures var was := WordAfter(mem, active, d, i, g, k);
      WordAfter(mem, active, d, i + 1, g, k) ==
        if !UserSlot(mem, d, i) then was
        else if g == d && k == i then 0
        else if g == TableAt(mem, d, i) then SweptWord(active, was)
        else was
  {
    hide Load;
    assert UserTable(mem, d, i + 1, g) <==> UserTable(mem, d, i, g) || (UserSlot(mem, d, i) && TableAt(mem, d, i) == g);
  }

  lemma Untouched(m: Machine, active: bool, d: nat, i: nat)
    requires Shape(m) && d < FRAMES_OF_ADDRESS_SPACE && i < ENTRIES && !UserEntry(Load(m.mem, d, i))
    ensures ReleaseEntry(m, active, d, i) == m
  {
  }

  /** Before entry `n` is released its table holds exactly the user pages it held at the start, unless an
      earlier entry named the same table and all of them are gone. */
  lemma PagesBefore(m: Machine, m0: Machine, active: bool, d: nat, n: nat, t: nat, f: nat)
    requires Shape(m) && Shape(m0) && d < FRAMES_OF_ADDRESS_SPACE && n <= USER_ENTRIES && t < FRAMES_OF_ADDRESS_SPACE
    requires t != d
    requires forall k :: 0 <= k < ENTRIES ==> Load(m0.mem, t, k) == WordAfter(m.mem, active, d, n, t, k)
    ensures if UserTable(m.mem, d, n, t) then !PageIn(m0.mem, t, f) else PageIn(m0.mem, t, f) <==> PageIn(m.mem, t, f)
  {
    hide Load, UserTable;
    if PageIn(m0.mem, t, f) {
      var k :| 0 <= k < ENTRIES && UserEntry(Load(m0.mem, t, k)) && FrameOf(Load(m0.mem, t, k)) == f;
      assert Load(m0.mem, t, k) == WordAfter(m.mem, active, d, n, t, k);
    }
    if !UserTable(m.mem, d, n, t) && PageIn(m.mem, t, f) {
      var k :| 0 <= k < ENTRIES && UserEntry(Load(m.mem, t, k)) && FrameOf(Load(m.mem, t, k)) == f;
      assert Load(m0.mem, t, k) == WordAfter(m.mem, active, d, n, t, k);
    }
  }

  lemma {:induction false} EntriesFrames(m: Machine, active: bool, d: nat, n: nat)
    requires Shape(m) && d < FRAMES_OF_ADDRESS_SPACE && n <= USER_ENTRIES && NotSelfMapped(m.mem, d)
    ensures var m1 := ReleaseEntries(m, active, d, n);
      && m1.cr3 == m.cr3 && |m1.pmm.used| == |m.pmm.used|
      && (forall f :: 0 <= f < |m.pmm.used| ==> (m1.pmm.used[f] <==> m.pmm.used[f] && !Reached(m.mem, d, n, f)))
      && (m.pmm.free == CountClear(m.pmm.used) ==> m1.pmm.free == CountClear(m1.pmm.used))
  {
    hide ReleaseEntry, Load, WordAfter, PageIn;
    if n > 0 {
      var i := n - 1;
      EntriesFrames(m, active, d, i);
      EntriesWords(m, active, d, i);
      var m0 := ReleaseEntries(m, active, d, i);
      assert Load(m0.mem, d, i) == Load(m.mem, d, i) by { WordAtDirectory(m.mem, active, d, i); }
      if UserSlot(m.mem, d, i) {
        var t := TableAt(m.mem, d, i);
        assert t != d;
        ReleaseEntryFrames(m0, active, d, i);
        forall f | 0 <= f < |m.pmm.used|
          ensures Reached(m.mem, d, n, f) <==> Reached(m.mem, d, i, f) || f == t || PageIn(m0.mem, t, f)
        {
          PagesBefore(m, m0, active, d, i, t, f);
          ReachedStep(m, d, i, f);
        }
      } else {
        assert ReleaseEntries(m, active, d, n) == m0 by { Untouched(m0, active, d, i); }
        forall f ensures Reached(m.mem, d, n, f) <==> Reached(m.mem, d, i, f) { ReachedStep(m, d, i, f); }
      }
    }
  }

  lemma WordAtDirectory(mem: seq<Frame>, active: bool, d: nat, i: nat)
    requires |mem| == FRAMES_OF_ADDRESS_SPACE && d < FRAMES_OF_ADDRESS_SPACE && i < ENTRIES
    ensures WordAfter(mem, active, d, i, d, i) == Load(mem, d, i)
  {
  }

  lemma ReachedStep(m: Machine, d: nat, i: nat, f: nat)
    requires Shape(m) && d < FRAMES_OF_ADDRESS_SPACE && i < USER_ENTRIES
    ensures Reached(m.mem, d, i + 1, f) <==>
      || Reached(m.mem, d, i, f)
      || (UserSlot(m.mem, d, i) && (f == TableAt(m.mem, d, i) || PageIn(m.mem, TableAt(m.mem, d, i), f)))
    ensures
      UserSlot(m.mem, d, i) && UserTable(m.mem, d, i, TableAt(m.mem, d, i)) && PageIn(m.mem, TableAt(m.mem, d, i), f)
      ==> Reached(m.mem, d, i, f)
  {
    hide PageIn, Load;
  }

  // ---- Theorems ----

  /** Exactly the user pages and their tables are given back, and the directory itself when it is not in
      use; every other frame keeps its mark. */
  lemma ReleasesExactly(m: Machine, pd: Word)
    requires Shape(m) && pd != 0 && pd % FRAME_SIZE == 0 && NotSelfMapped(m.mem, FrameOf(pd))
    ensures var m1 := FreeUserSpace(m, pd);
      && m1.cr3 == m.cr3 && |m1.pmm.used| == |m.pmm.used|
      && (forall f :: 0 <= f < |m.pmm.used| ==> (m1.pmm.used[f] <==> m.pmm.used[f] && !Released(m, pd, f)))
      && (m.pmm.free == CountClear(m.pmm.used) ==> m1.pmm.free == CountClear(m1.pmm.used))
  {
    EntriesFrames(m, pd == m.cr3, FrameOf(pd), USER_ENTRIES);
    FreeFrameFlags(ReleaseEntries(m, pd == m.cr3, FrameOf(pd), USER_ENTRIES).pmm, pd);
  }

  /** Flags that were set and are now clear. */
  ghost function Dropped(was: seq<bool>, now: seq<bool>): set<nat>
    requires |was| == |now|
  {
    set f: nat | f < |was| && was[f] && !now[f]
  }

  lemma {:induction false} DroppedCounted(was: seq<bool>, now: seq<bool>)
    requires |was| == |now| && forall f :: 0 <= f < |was| ==> now[f] ==> was[f]
    ensures CountClear(now) == CountClear(was) + |Dropped(was, now)|
  {
    if was != [] {
      var n := |was| - 1;
      DroppedCounted(was[..n], now[..n]);
      var rest := Dropped(was[..n], now[..n]);
      if was[n] && !now[n] {
        assert Dropped(was, now) == rest + {n};
      } else {
        assert Dropped(was, now) == rest;
      }
    }
  }

  /** The free count rises by the number of distinct released frames that exist and were marked used. */
  lemma FreeCountRises(m: Machine, pd: Word)
    requires Shape(m) && pd != 0 && pd % FRAME_SIZE == 0 && NotSelfMapped(m.mem, FrameOf(pd))
    requires m.pmm.free == CountClear(m.pmm.used)
    ensures FreeUserSpace(m, pd).pmm.free
            == m.pmm.free + |set f: nat | f < |m.pmm.used| && m.pmm.used[f] && Released(m, pd, f)|
  {
    ReleasesExactly(m, pd);
    var m1 := FreeUserSpace(m, pd);
    DroppedCounted(m.pmm.used, m1.pmm.used);
    assert Dropped(m.pmm.used, m1.pmm.used) == set f: nat | f < |m.pmm.used| && m.pmm.used[f] && Released(m, pd, f);
  }

  /** The directory loses exactly its user entries below 768; the user tables lose their user pages, and in
      a directory not in use all their entries; no other word of memory changes. */
  lemma ErasesExactly(m: Machine, pd: Word, g: nat, k: nat)
    requires Shape(m) && pd != 0 && pd % FRAME_SIZE == 0 && NotSelfMapped(m.mem, FrameOf(pd))
    requires g < FRAMES_OF_ADDRESS_SPACE && k < ENTRIES
    ensures var d, w := FrameOf(pd), Load(FreeUserSpace(m, pd).mem, g, k);
      && (g == d ==> w == if k < 768 && UserEntry(Load(m.mem, d, k)) then 0 else Load(m.mem, d, k))
      && (g != d && !UserTable(m.mem, d, USER_ENTRIES, g) ==> w == Load(m.mem, g, k))
      && (g != d && UserTable(m.mem, d, USER_ENTRIES, g) ==> !UserEntry(w))
      && (g != d && UserTable(m.mem, d, USER_ENTRIES, g) && !UserEntry(Load(m.mem, g, k)) ==>
            w == if pd == m.cr3 || !Present(Load(m.mem, g, k)) then Load(m.mem, g, k) else 0)
  {
    hide ReleaseEntries, UserTable, Load;
    EntriesWords(m, pd == m.cr3, FrameOf(pd), USER_ENTRIES);
    assert Load(FreeUserSpace(m, pd).mem, g, k) == WordAfter(m.mem, pd == m.cr3, FrameOf(pd), USER_ENTRIES, g, k);
  }

  /** Afterwards nothing is reached through the directory's user half, so a second teardown of the
      directory in use changes nothing. */
  lemma NothingReached(m: Machine, pd: Word)
    requires Shape(m) && pd != 0 && pd % FRAME_SIZE == 0 && NotSelfMapped(m.mem, FrameOf(pd))
    ensures forall f :: !Reached(FreeUserSpace(m, pd).mem, FrameOf(pd), USER_ENTRIES, f)
    ensures pd == m.cr3 ==> FreeUserSpace(FreeUserSpace(m, pd), pd) == FreeUserSpace(m, pd)
  {
    var m1, d := FreeUserSpace(m, pd), FrameOf(pd);
    forall i | 0 <= i < USER_ENTRIES ensures !UserSlot(m1.mem, d, i) {
      ErasesExactly(m, pd, d, i);
    }
    EntriesFrames(m, pd == m.cr3, d, USER_ENTRIES);
    NoUserSlots(m1, m1.cr3 == pd, d, USER_ENTRIES);
  }

  lemma {:induction false} NoUserSlots(m: Machine, active: bool, d: nat, n: nat)
    requires Shape(m) && d < FRAMES_OF_ADDRESS_SPACE && n <= USER_ENTRIES
    requires forall i :: 0 <= i < USER_ENTRIES ==> !UserSlot(m.mem, d, i)
    ensures ReleaseEntries(m, active, d, n) == m
  {
    hide Load;
    if n > 0 {
      NoUserSlots(m, active, d, n - 1);
      assert !UserSlot(m.mem, d, n - 1);
      Untouched(m, active, d, n - 1);
    }
  }

  /** The address space in use stays sound after its teardown exactly when nothing that is still needed was
      reachable as user memory: not frame 0, not the directory, and no table that survives. */
  lemma StaysWellFormed(m: Machine)
    requires WellFormed(m) && m.cr3 != 0 && NotSelfMapped(m.mem, Dir(m))
    ensures WellFormed(FreeUserSpace(m, m.cr3)) <==> NeededSurvive(m)
  {
    hide FreeUserSpace, Reached, Load;
    var m1 := FreeUserSpace(m, m.cr3);
    ReleasesExactly(m, m.cr3);
    CountBound(m1.pmm.used);
    forall i | 0 <= i < ENTRIES
      ensures Load(m1.mem, Dir(m), i)
              == if i < USER_ENTRIES && UserEntry(Load(m.mem, Dir(m), i)) then 0 else Load(m.mem, Dir(m), i)
    {
      ErasesExactly(m, m.cr3, Dir(m), i);
    }
    forall f: nat ensures Available(m1, f) <==> Available(m, f) || (f < |m.pmm.used| && Released(m, m.cr3, f)) {
    }
    if WellFormed(m1) {
      forall i | Survives(m, i) ensures !Gone(m, FrameOf(Load(m.mem, Dir(m), i))) {
        assert Present(Load(m1.mem, Dir(m1), i));
      }
    }
    if NeededSurvive(m) {
      forall i | 0 <= i < ENTRIES && Present(Load(m1.mem, Dir(m1), i))
        ensures Owned(m1, FrameOf(Load(m1.mem, Dir(m1), i)))
      {
        assert Survives(m, i);
        assert Owned(m, FrameOf(Load(m.mem, Dir(m), i)));
      }
    }
  }

  lemma CountBound(used: seq<bool>)
    ensures CountClear(used) <= |used|
  {
  }

  ghost predicate Survives(m: Machine, i: nat)
    requires Shape(m)
  {
    i < ENTRIES && Present(Load(m.mem, Dir(m), i)) && !(i < USER_ENTRIES && UserFlag(Load(m.mem, Dir(m), i)))
  }

  ghost predicate Gone(m: Machine, f: nat)
    requires Shape(m)
  {
    f < |m.pmm.used| && Released(m, m.cr3, f)
  }

  ghost predicate NeededSurvive(m: Machine)
    requires Shape(m)
  {
    !Gone(m, 0) && !Gone(m, Dir(m)) && forall i :: Survives(m, i) ==> !Gone(m, FrameOf(Load(m.mem, Dir(m), i)))
  }
}
