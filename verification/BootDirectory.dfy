/** The directory that kernel/arch/i386/boot.S sets up, where kernel/arch/i386/linker.ld puts it, on a machine of
    32 MiB with a kernel of 512 KiB: the input on which a program's memory does not return, and on which the
    kernel loses sight of frames that can become page tables. */
module BootDirectory {
  import opened Basics
  import opened Frames
  import opened Paging
  import opened PagingRuns
  import opened FrameBudget
  import opened Teardown
  import opened ProgramMemory
  import opened TableReach
  import opened HeapCode

  /** The boot code fills the frame at BOOT_PHYS; the directory comes next, and its four tables follow. */
  const DIRECTORY := 0x9
  const TABLES := 0xA
  /** PAGE_PRESENT | PAGE_WRITE, for the supervisor only. */
  const SUPERVISOR := 3

  function DirectoryWords(): Frame {
    seq(ENTRIES, j requires 0 <= j < ENTRIES =>
      if j < 4 then (TABLES + j) * FRAME_SIZE + SUPERVISOR
      else if j == 768 then TABLES * FRAME_SIZE + SUPERVISOR
      else 0)
  }

  /** Table `i` maps its four megabytes onto themselves. */
  function IdentityTable(i: nat): Frame
    requires i < 4
  {
    seq(ENTRIES, k requires 0 <= k < ENTRIES => (i * ENTRIES + k) * FRAME_SIZE + SUPERVISOR)
  }

  function BootFrame(f: nat): Frame {
    if f == DIRECTORY then DirectoryWords()
    else if TABLES <= f < TABLES + 4 then IdentityTable(f - TABLES)
    else ZeroFrame()
  }

  function Memory(): (mem: seq<Frame>)
    ensures |mem| == FRAMES_OF_ADDRESS_SPACE
    ensures forall f, j :: 0 <= f < FRAMES_OF_ADDRESS_SPACE && 0 <= j < ENTRIES ==> Load(mem, f, j) == BootFrame(f)[j]
  {
    seq(FRAMES_OF_ADDRESS_SPACE, f requires 0 <= f < FRAMES_OF_ADDRESS_SPACE => BootFrame(f))
  }

  /** The kernel ends here. */
  const FIRST_CLEAR := 0x180

  /** 31 MiB above the first one. Behind the tables lie the boot stack and two words. */
  function Info(): BootInfo {
    BootInfo(false, [], 31 * 1024, false, [], Module(0x8000, 0x1_2008), Module(0x10_0000, 0x18_0000))
  }

  function BootMachine(): Machine {
    Machine(Memory(), DIRECTORY * FRAME_SIZE, Init(Info()))
  }

  /** The frames below the kernel's end are in use, all others are clear. */
  lemma BootFrames(f: nat)
    requires f < 0x2000
    ensures |Init(Info()).used| == 0x2000 && Accounted(Init(Info())) && (Init(Info()).used[f] <==> f < FIRST_CLEAR)
  {
    hide Touches, Init;
    InitExact(Info());
    Region(0, 0x10_0000, f);
    BootRegion(f);
    Region(0x10_0000, 0x18_0000, f);
    Region(0xB8000, 0xB9000, f);
    assert 31 * 1024 + 1024 == 0x8000;
  }

  /** A region of whole frames touches those frames. */
  lemma Region(start: nat, end: nat, f: nat)
    requires start % FRAME_SIZE == 0 && end % FRAME_SIZE == 0
    ensures Touches(start, end, f) <==> start / FRAME_SIZE <= f < end / FRAME_SIZE
  {
    if start / FRAME_SIZE <= f < end / FRAME_SIZE {
      assert start <= f * FRAME_SIZE < end && f * FRAME_SIZE / FRAME_SIZE == f;
    }
  }

  /** The boot code lies in the first megabyte. */
  lemma BootRegion(f: nat)
    ensures Touches(0x8000, 0x1_2008, f) ==> f < 0x100
  {
  }

  lemma BootEntries(j: nat)
    requires j < ENTRIES
    ensures Shape(BootMachine()) && Dir(BootMachine()) == DIRECTORY
    ensures var e := Load(BootMachine().mem, DIRECTORY, j);
      && (Present(e) <==> j < 4 || j == 768)
      && (j < 4 ==> FrameOf(e) == TABLES + j) && (j == 768 ==> FrameOf(e) == TABLES)
      && !UserFlag(e)
  {
    BootFrames(0);
    var e := Load(BootMachine().mem, DIRECTORY, j);
    assert e == DirectoryWords()[j];
    LowFlags(if j < 4 then TABLES + j else TABLES, SUPERVISOR);
  }

  lemma BootPages(i: nat, k: nat)
    requires i < 4 && k < ENTRIES
    ensures var e := Load(BootMachine().mem, TABLES + i, k);
      Present(e) && FrameOf(e) == i * ENTRIES + k && !UserFlag(e)
  {
    assert Load(BootMachine().mem, TABLES + i, k) == IdentityTable(i)[k];
    LowFlags(i * ENTRIES + k, SUPERVISOR);
  }

  lemma NoUserPage(p: nat)
    ensures Shape(BootMachine()) && !UserPage(BootMachine(), p)
  {
    hide Init, Memory, Load;
    BootEntries(0);
    if p < USER_PAGES {
      BootEntries(p / ENTRIES);
      if p / ENTRIES < 4 { BootPages(p / ENTRIES, p % ENTRIES); }
    }
  }

  /** The boot directory is sound and holds no user page. Slots 0 and 768 share a table. */
  lemma BootLoadable()
    ensures Shape(BootMachine()) && Loadable(BootMachine()) && BootMachine().cr3 != 0
    ensures forall i: nat :: HasTable(BootMachine(), i) <==> i < 4
    ensures forall j :: 0 <= j < ENTRIES ==> (Present(Load(BootMachine().mem, DIRECTORY, j)) <==> j < 4 || j == 768)
    ensures forall i :: 0 <= i < 4 ==> TableAt(BootMachine().mem, DIRECTORY, i) == TABLES + i
    ensures TableAt(BootMachine().mem, DIRECTORY, 768) == TABLES && |BootMachine().pmm.used| == 0x2000
  {
    hide Init, Memory, Load;
    var m := BootMachine();
    forall j | 0 <= j < ENTRIES
      ensures var e := Load(m.mem, Dir(m), j);
        && (Present(e) <==> j < 4 || j == 768)
        && (Present(e) ==> FrameOf(e) == TABLES + j % 768 && Owned(m, FrameOf(e)))
        && !UserFlag(e)
    {
      BootEntries(j);
      BootFrames(TABLES + j % 4);
      if j == 768 { BootFrames(TABLES); }
    }
    BootEntries(0);
    BootFrames(DIRECTORY);
    forall p: nat ensures !UserPage(m, p) {
      NoUserPage(p);
    }
  }

  /** The failing input. On this directory a program that has a single page, at 0x400000 where the stack
      begins, is loaded and torn down: the table of slot 1, in use since boot, is clear afterwards. */
  lemma BootTableLost()
    ensures var m, pages := BootMachine(), [0x400];
      && Shape(m) && Loadable(m) && PagesExist(pages) && MapAll(m, pages, USER_RW).1
      && FreeUserSpace(MapAll(m, pages, USER_RW).0, m.cr3).pmm != m.pmm
  {
    hide Init, Memory, Loadable, MapAll;
    var m, pages := BootMachine(), [0x400];
    BootLoadable();
    BootMaps(0x400, USER_RW);
    BootSound();
    ProgramMemoryReturns(m, pages, USER_RW);
    BootEntries(1);
    assert pages[0] / ENTRIES == 1 && HasPageIn(pages, 1);
    assert HasTable(m, 1) && TableLost(m, pages, 1);
  }

  /** The directory itself survives that: the kernel half shares the table of slot 0 only. */
  lemma BootStaysSound()
    ensures var m, pages := BootMachine(), [0x400];
      && Shape(m) && PagesExist(pages) && MapAll(m, pages, USER_RW).1
      && WellFormed(FreeUserSpace(MapAll(m, pages, USER_RW).0, m.cr3))
  {
    hide Init, Memory, Loadable, MapAll, FreeUserSpace;
    var m, pages := BootMachine(), [0x400];
    BootLoadable();
    BootTableLost();
    forall i: nat ensures !KernelLoses(m, pages, i) {
      if USER_ENTRIES <= i < ENTRIES {
        BootEntries(i);
        forall j | TableLost(m, pages, j) ensures j == 1 && TableAt(m.mem, Dir(m), j) == TABLES + 1 {
          BootEntries(j);
        }
      }
    }
    DirectoryStaysSound(m, pages, USER_RW);
  }

  /** But a program with a page in slot 0 takes the kernel's own table with it. */
  lemma BootBreaks(m: Machine, pages: seq<nat>)
    requires m == BootMachine() && Shape(m) && UserPages(pages) && PagesExist(pages) && MapAll(m, pages, USER_RW).1
    requires HasPageIn(pages, 0)
    ensures !WellFormed(FreeUserSpace(MapAll(m, pages, USER_RW).0, m.cr3))
  {
    hide Init, Memory, Loadable, MapAll, FreeUserSpace;
    BootLoadable();
    BootEntries(0);
    BootEntries(768);
    BootFrames(0);
    assert TableLost(m, pages, 0) && TableAt(m.mem, Dir(m), 0) == TableAt(m.mem, Dir(m), 768) == TABLES;
    assert KernelLoses(m, pages, 768);
    DirectoryStaysSound(m, pages, USER_RW);
  }

  /** The simplest such program is mapped. */
  lemma BootBreaksAtZero()
    ensures var m, pages := BootMachine(), [0];
      && Shape(m) && UserPages(pages) && PagesExist(pages) && MapAll(m, pages, USER_RW).1
      && !WellFormed(FreeUserSpace(MapAll(m, pages, USER_RW).0, m.cr3))
  {
    hide Init, Memory, Loadable, MapAll, FreeUserSpace;
    var m, pages := BootMachine(), [0];
    BootMaps(0, USER_RW);
    assert HasPageIn(pages, 0) by { assert pages[0] / ENTRIES == 0; }
    BootBreaks(m, pages);
  }

  /** On the boot directory every single page of a slot with a table can be mapped. */
  lemma BootMaps(page: nat, flags: Word)
    requires page < FRAMES_OF_ADDRESS_SPACE && (page < 4 * ENTRIES || page / ENTRIES == 768)
    ensures Shape(BootMachine()) && PagesExist([page]) && MapAll(BootMachine(), [page], flags).1
  {
    hide Init, Memory, Loadable, MapAll;
    var m, pages := BootMachine(), [page];
    BootLoadable();
    assert !NeedsTable(m, pages) && pages[..0] == [];
    BootFrames(FIRST_CLEAR);
    ClearCounted(m.pmm.used, FIRST_CLEAR);
    assert TablesNeeded(m, pages) == TablesNeeded(m, pages[..0]) == 0;
    assert LastTable(m, pages) == LastTable(m, pages[..0]) == 0;
    assert m.pmm.free >= 1;
    assert Suffices(m, pages);
    BootSound();
    ExactlyEnough(m, pages, flags);
  }

  lemma BootSound()
    ensures WellFormed(BootMachine())
  {
    hide Init, Memory;
    BootLoadable();
  }

  // ---- Where the kernel finds its tables ----

  /** The first 16 MiB are translated to themselves, and the first four of them again from 0xC0000000 up. */
  lemma BootWalk(f: nat)
    requires f < 4 * ENTRIES
    ensures Shape(BootMachine()) && Walk(BootMachine(), PageBase(f)) == Some(PageBase(f))
    ensures f < ENTRIES ==> Walk(BootMachine(), PageBase(768 * ENTRIES + f)) == Some(PageBase(f))
  {
    hide Init, Memory, Load, Walk, Loadable;
    BootLoadable();
    BootEntries(0);
    BootPages(f / ENTRIES, f % ENTRIES);
    WalkOf(BootMachine(), f, f);
    if f < ENTRIES { WalkOf(BootMachine(), 768 * ENTRIES + f, f); }
  }

  lemma WalkOf(m: Machine, page: nat, f: nat)
    requires Shape(m) && page < FRAMES_OF_ADDRESS_SPACE && f < FRAMES_OF_ADDRESS_SPACE
    requires var e := Load(m.mem, Dir(m), page / ENTRIES);
      Present(e) && Present(Load(m.mem, FrameOf(e), page % ENTRIES))
        && FrameOf(Load(m.mem, FrameOf(e), page % ENTRIES)) == f
    ensures Walk(m, PageBase(page)) == Some(PageBase(f))
  {
    PageStart(page);
  }

  /** So at first the kernel finds the directory, its tables, and every frame that can become one. */
  lemma BootFindable()
    ensures Shape(BootMachine()) && Findable(BootMachine())
  {
    hide Init, Memory, Load, Walk;
    var m := BootMachine();
    BootLoadable();
    BootEntries(0);
    forall f: nat | f < FRAMES_OF_ADDRESS_SPACE && Needed(m, f) ensures Identity(m, f) {
      if IsTable(m, f) {
        var i :| 0 <= i < ENTRIES && Present(Load(m.mem, Dir(m), i)) && FrameOf(Load(m.mem, Dir(m), i)) == f;
        BootEntries(i);
      }
      BootWalk(f);
    }
  }

  lemma FirstFrame()
    ensures AllocFrame(BootMachine().pmm).1 == FIRST_CLEAR * FRAME_SIZE
    ensures forall f: nat :: FIRST_CLEAR < f < 0x2000 ==> Available(Allocated(BootMachine()), f)
  {
    hide Init, Memory;
    var m := BootMachine();
    BootFrames(0);
    forall f: nat | f < 0x2000 ensures m.pmm.used[f] <==> f < FIRST_CLEAR { BootFrames(f); }
    AllocSound(m.pmm, |m.pmm.used|);
    LowestClear(m.pmm.used, FIRST_CLEAR);
  }

  lemma LowestClear(used: seq<bool>, f: nat)
    requires f < |used| && !used[f] && forall j :: 0 <= j < f ==> used[j]
    ensures FirstClear(used, 0, |used|) == f
  {
  }

  /** The pages whose entry is the one that translates the address of frame `f`. */
  ghost predicate Shadows(page: nat, f: nat) {
    f < 4 * ENTRIES && (page == f || (f < ENTRIES && page == 768 * ENTRIES + f))
  }

  /** The failing input. Mapping any single page of the identity window, or of the first four megabytes of the
      kernel half, onto the first clear frame hides another clear frame: its address now leads to that first
      frame, so once it becomes a page table the code clears and fills the wrong frame. */
  lemma BootHides(page: nat, f: nat, flags: Word)
    requires Shadows(page, f) && FIRST_CLEAR < f
    ensures Shape(BootMachine()) && page < FRAMES_OF_ADDRESS_SPACE && MapFresh(BootMachine(), page, flags).1 == 0
    ensures var m1 := MapFresh(BootMachine(), page, flags).0;
      && Available(m1, f) && f < TABLE_LIMIT / FRAME_SIZE
      && Walk(m1, PageBase(f)) == Some(PageBase(FIRST_CLEAR))
      && !Findable(m1)
  {
    hide Init, Memory, Load, Walk, Map, Alloc, Loadable, Needed, Findable;
    var m := BootMachine();
    BootSlots(page, f);
    BootFindable();
    FirstFrame();
    BootSound();
    TakeReaches(m, |m.pmm.used|);
    AllocFrameHolds(m);
    ShadowMapped(Allocated(m), page, f, FIRST_CLEAR, flags);
  }

  lemma BootSlots(page: nat, f: nat)
    requires Shadows(page, f)
    ensures Shape(BootMachine()) && page < FRAMES_OF_ADDRESS_SPACE
    ensures SameSlot(Allocated(BootMachine()), PageBase(page), PageBase(f))
  {
    hide Init, Memory, Load, Loadable, AllocFrame;
    BootLoadable();
    BootEntries(0);
    PageStart(page);
    PageStart(f);
  }

  lemma ShadowMapped(m: Machine, page: nat, f: nat, g: nat, flags: Word)
    requires WellFormed(m) && Findable(m) && page < FRAMES_OF_ADDRESS_SPACE && f < TABLE_LIMIT / FRAME_SIZE
    requires Available(m, f) && SameSlot(m, PageBase(page), PageBase(f)) && f != g < FRAMES_OF_ADDRESS_SPACE
    ensures var (m1, r) := Map(m, PageBase(page), PageBase(g), flags);
      && r == 0 && Available(m1, f) && Walk(m1, PageBase(f)) == Some(PageBase(g)) && !Findable(m1)
  {
    hide Walk, Map, Findable;
    var v, phys := PageBase(page), PageBase(g);
    TablePresent(m, v, phys, flags);
    MapReaches(m, v, phys, flags);
    MapTranslates(m, v, phys, flags);
    PageStart(f);
    assert FoundThrough(m, v, f);
    MapNeeds(m, v, phys, flags);
    assert SameSlot(Map(m, v, phys, flags).0, v, PageBase(f));
  }

  lemma TablePresent(m: Machine, v: Word, phys: Word, flags: Word)
    requires WellFormed(m) && Present(Pde(m, v))
    ensures Map(m, v, phys, flags).1 == 0 && Map(m, v, phys, flags).0.pmm == m.pmm
  {
    assert Owned(m, FrameOf(Pde(m, v)));
  }

  /** The kernel heap begins inside that window, at 0xC0200000 (kernel/core/kernel.c:73), and the user stack at
      0x400000: their first pages hide the frames 0x200 and 0x400. */
  lemma HeapAndStackHide()
    ensures Shadows(0xC_0200, 0x200) && Shadows(0x400, 0x400)
    ensures Shape(BootMachine()) && !Findable(GrowMany(BootMachine(), 0xC_0200, 1).0)
    ensures PagesExist([0x400]) && !Findable(MapAll(BootMachine(), [0x400], USER_RW).0)
  {
    hide Init, Memory, Findable, MapFresh;
    BootHides(0xC_0200, 0x200, KERNEL_RW);
    BootHides(0x400, 0x400, USER_RW);
    FirstFrame();
    OneOfOne(BootMachine(), 0xC_0200, KERNEL_RW);
    OneOfOne(BootMachine(), 0x400, USER_RW);
    assert Consecutive(0xC_0200, 1) == [0xC_0200];
  }

  lemma OneOfOne(m: Machine, page: nat, flags: Word)
    requires Shape(m) && page < FRAMES_OF_ADDRESS_SPACE && AllocFrame(m.pmm).1 != 0
    ensures PagesExist([page]) && MapAll(m, [page], flags).0 == MapFresh(m, page, flags).0
  {
    MapAllStep(m, [], page, flags);
    assert [] + [page] == [page];
  }

  /** The heap's part of the boot address space is its own, and its tables are in order. */
  lemma BootHeap(n: nat)
    ensures Shape(BootMachine()) && Private(BootMachine(), 0xC020_0000) && Orderly(BootMachine(), 0xC_0200, n)
  {
    hide Init, Memory, Load, Loadable;
    BootLoadable();
    BootEntries(0);
    BootSound();
    forall p: nat | 0xC_0200 <= p < FRAMES_OF_ADDRESS_SPACE && Walk(BootMachine(), PageBase(p)).Some?
      ensures p / ENTRIES == 768
    {
      PageStart(p);
    }
  }
}
