/** The teardown loops themselves, over tables changed in place. */
module TeardownCode {
  import opened Basics
  import opened Frames
  import opened Paging
  import opened PagingCode
  import opened Teardown

  /** The table after its first `n` entries have been swept. */
  function PartSwept(active: bool, table: Frame, n: nat): Frame {
    seq(ENTRIES, k requires 0 <= k < ENTRIES => if k < n then SweptWord(active, table[k]) else table[k])
  }

  /** The machine after `n` entries of the table in frame `t` have been dealt with. */
  function SweepUpTo(m: Machine, active: bool, t: nat, n: nat): (r: Machine)
    requires Shape(m) && t < FRAMES_OF_ADDRESS_SPACE && n <= ENTRIES
    ensures Shape(r)
  {
    Machine(m.mem[t := PartSwept(active, m.mem[t], n)], m.cr3, FreePages(m.pmm, m.mem[t], n))
  }

  lemma SweepStart(m: Machine, active: bool, t: nat)
    requires Shape(m) && t < FRAMES_OF_ADDRESS_SPACE
    ensures SweepUpTo(m, active, t, 0) == m
  {
    assert PartSwept(active, m.mem[t], 0) == m.mem[t];
    assert m.mem[t := m.mem[t]] == m.mem;
  }

  lemma SweepStep(m: Machine, active: bool, t: nat, n: nat)
    requires Shape(m) && t < FRAMES_OF_ADDRESS_SPACE && n < ENTRIES
    ensures var m0, m1, e := SweepUpTo(m, active, t, n), SweepUpTo(m, active, t, n + 1), Load(m.mem, t, n);
      && Load(m0.mem, t, n) == e
      && m1 == Machine(Store(m0.mem, t, n, SweptWord(active, e)), m.cr3,
                       if UserEntry(e) then FreeFrame(m0.pmm, Base(e)) else m0.pmm)
      && (SweptWord(active, e) == e ==> m1.mem == m0.mem)
  {
    var part := PartSwept(active, m.mem[t], n);
    assert PartSwept(active, m.mem[t], n + 1) == part[n := SweptWord(active, m.mem[t][n])];
    assert m.mem[t := part][t := part[n := SweptWord(active, m.mem[t][n])]]
           == m.mem[t := PartSwept(active, m.mem[t], n + 1)];
    if SweptWord(active, m.mem[t][n]) == m.mem[t][n] {
      assert part[n := m.mem[t][n]] == part;
    }
  }

  lemma SweepEnd(m: Machine, active: bool, t: nat)
    requires Shape(m) && t < FRAMES_OF_ADDRESS_SPACE
    ensures SweepUpTo(m, active, t, ENTRIES)
            == Machine(m.mem[t := Swept(active, m.mem[t])], m.cr3, FreePages(m.pmm, m.mem[t], ENTRIES))
  {
    assert PartSwept(active, m.mem[t], ENTRIES) == Swept(active, m.mem[t]);
  }

  lemma SlotOf(i: nat, j: nat)
    requires i < ENTRIES && j < ENTRIES
    ensures var v := i * 0x40_0000 + j * FRAME_SIZE; v < WRAP && DirIndex(v) == i && TableIndex(v) == j
  {
  }

  /** The active branch: user pages are unmapped through the directory in use. */
  method SweepActive(mmu: Mmu, i: nat, t: nat)
    requires mmu.Valid() && i < USER_ENTRIES && t < FRAMES_OF_ADDRESS_SPACE && t != Dir(mmu.View())
    requires UserSlot(mmu.View().mem, Dir(mmu.View()), i) && TableAt(mmu.View().mem, Dir(mmu.View()), i) == t
    modifies mmu.mem, mmu.allocator`freeFrames, mmu.allocator.bitmap
    ensures mmu.Valid() && mmu.View() == SweepUpTo(old(mmu.View()), true, t, ENTRIES)
  {
    hide FreeFrame, FreePages;
    ghost var m := mmu.View();
    SweepStart(m, true, t);
    for j := 0 to ENTRIES
      invariant mmu.Valid() && mmu.View() == SweepUpTo(m, true, t, j)
    {
      SweepStep(m, true, t, j);
      var pte := mmu.ReadWord(t, j);
      if Present(pte) && UserFlag(pte) {
        SlotOf(i, j);
        var _ := mmu.VmmUnmap(i * 0x40_0000 + j * FRAME_SIZE);
        mmu.allocator.PmmFreeFrame(pte / FRAME_SIZE * FRAME_SIZE);
      }
    }
  }

  /** The other branch: every present entry is cleared directly. */
  method SweepInactive(mmu: Mmu, t: nat)
    requires mmu.Valid() && t < FRAMES_OF_ADDRESS_SPACE
    modifies mmu.mem, mmu.allocator`freeFrames, mmu.allocator.bitmap
    ensures mmu.Valid() && mmu.View() == SweepUpTo(old(mmu.View()), false, t, ENTRIES)
  {
    hide FreeFrame, FreePages;
    ghost var m := mmu.View();
    SweepStart(m, false, t);
    for j := 0 to ENTRIES
      invariant mmu.Valid() && mmu.View() == SweepUpTo(m, false, t, j)
    {
      SweepStep(m, false, t, j);
      var pte := mmu.ReadWord(t, j);
      if Present(pte) {
        if UserFlag(pte) { mmu.allocator.PmmFreeFrame(pte / FRAME_SIZE * FRAME_SIZE); }
        mmu.WriteWord(t, j, 0);
      }
    }
  }

  /** Does table `t` still hold a user page? */
  method StillUser(mmu: Mmu, t: nat) returns (still: bool)
    requires mmu.Valid() && t < FRAMES_OF_ADDRESS_SPACE
    ensures still <==> exists f :: PageIn(mmu.View().mem, t, f)
  {
    for j := 0 to ENTRIES
      invariant forall k :: 0 <= k < j ==> !UserEntry(Load(mmu.View().mem, t, k))
    {
      var pte := mmu.ReadWord(t, j);
      if Present(pte) && UserFlag(pte) {
        assert PageIn(mmu.View().mem, t, FrameOf(pte));
        return true;
      }
    }
    return false;
  }

  /** One directory entry that is present and user. */
  method ReleaseTable(mmu: Mmu, d: nat, i: nat, active: bool)
    requires mmu.Valid() && d < FRAMES_OF_ADDRESS_SPACE && i < USER_ENTRIES && (active ==> d == Dir(mmu.View()))
    requires UserSlot(mmu.View().mem, d, i) && TableAt(mmu.View().mem, d, i) != d
    modifies mmu.mem, mmu.allocator`freeFrames, mmu.allocator.bitmap
    ensures mmu.Valid() && mmu.View() == ReleaseEntry(old(mmu.View()), active, d, i)
  {
    hide FreeFrame, FreePages;
    ghost var m := mmu.View();
    var pde := mmu.ReadWord(d, i);
    var t := pde / FRAME_SIZE;
    SweepEnd(m, active, t);
    if active {
      SweepActive(mmu, i, t);
      var still := StillUser(mmu, t);
      SweptClean(m, t);
      if !still {
        mmu.WriteWord(d, i, 0);
        mmu.allocator.PmmFreeFrame(t * FRAME_SIZE);
      }
    } else {
      SweepInactive(mmu, t);
      mmu.WriteWord(d, i, 0);
      mmu.allocator.PmmFreeFrame(t * FRAME_SIZE);
    }
  }

  /** After the active sweep the table always goes: no user page is left to keep it. */
  lemma SweptClean(m: Machine, t: nat)
    requires Shape(m) && t < FRAMES_OF_ADDRESS_SPACE
    ensures forall f :: !PageIn(SweepUpTo(m, true, t, ENTRIES).mem, t, f)
  {
    forall k | 0 <= k < ENTRIES ensures !UserEntry(Load(SweepUpTo(m, true, t, ENTRIES).mem, t, k)) {
    }
  }

  /** free_user_address_space. */
  method FreeUserAddressSpace(mmu: Mmu, pd: Word)
    requires mmu.Valid() && pd % FRAME_SIZE == 0 && NotSelfMapped(mmu.View().mem, FrameOf(pd))
    modifies mmu.mem, mmu.allocator`freeFrames, mmu.allocator.bitmap
    ensures mmu.Valid() && mmu.View() == FreeUserSpace(old(mmu.View()), pd)
  {
    hide FreeFrame, ReleaseEntry, Load, WordAfter, Reached, Swept;
    if pd == 0 { return; }
    ghost var m := mmu.View();
    var active := pd == mmu.cr3;
    var d := pd / FRAME_SIZE;
    for i := 0 to USER_ENTRIES
      invariant mmu.Valid() && mmu.View() == ReleaseEntries(m, active, d, i)
    {
      EntriesWords(m, active, d, i);
      EntriesFrames(m, active, d, i);
      WordAtDirectory(m.mem, active, d, i);
      var pde := mmu.ReadWord(d, i);
      if Present(pde) && UserFlag(pde) {
        assert UserSlot(m.mem, d, i) && TableAt(m.mem, d, i) != d;
        ReleaseTable(mmu, d, i, active);
      } else {
        Untouched(mmu.View(), active, d, i);
      }
    }
    if !active { mmu.allocator.PmmFreeFrame(pd); }
  }
}
