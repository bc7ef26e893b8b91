/** The page-table code itself: words of table frames are read and written in place. */
module PagingCode {
  import opened Basics
  import opened Frames
  import opened FramesCode
  import opened Paging

  class Mmu {
    /** Physical memory, one entry per frame. */
    const mem: array<Frame>
    var cr3: Word
    const allocator: FrameAllocator

    ghost predicate Valid()
      reads this, mem, allocator, allocator.bitmap
    {
      && mem.Length == FRAMES_OF_ADDRESS_SPACE && cr3 % FRAME_SIZE == 0
      && allocator.Valid()
    }

    ghost function View(): (m: Machine)
      requires Valid()
      reads this, mem, allocator, allocator.bitmap
      ensures Shape(m)
    {
      Machine(mem[..], cr3, allocator.View())
    }

    /** The state handed over by the boot code. */
    constructor (mem: array<Frame>, cr3: Word, allocator: FrameAllocator)
      requires mem.Length == FRAMES_OF_ADDRESS_SPACE && cr3 % FRAME_SIZE == 0 && allocator.Valid()
      ensures Valid() && this.mem == mem && this.allocator == allocator
      ensures View() == Machine(mem[..], cr3, allocator.View())
    {
      this.mem := mem;
      this.cr3 := cr3;
      this.allocator := allocator;
    }

    method ReadWord(frame: nat, i: nat) returns (w: Word)
      requires Valid() && frame < FRAMES_OF_ADDRESS_SPACE && i < ENTRIES
      ensures w == Load(View().mem, frame, i)
    {
      w := mem[frame][i];
    }

    method WriteWord(frame: nat, i: nat, w: Word)
      requires Valid() && frame < FRAMES_OF_ADDRESS_SPACE && i < ENTRIES
      modifies mem
      ensures Valid()
      ensures View() == Machine(Store(old(View().mem), frame, i, w), old(cr3), old(View().pmm))
    {
      mem[frame] := mem[frame][i := w];
    }

    method ClearTable(frame: nat)
      requires Valid() && frame < FRAMES_OF_ADDRESS_SPACE
      modifies mem
      ensures Valid() && View() == Machine(Cleared(old(View().mem), frame), old(cr3), old(View().pmm))
    {
      for i := 0 to ENTRIES
        invariant Valid()
        invariant forall g :: 0 <= g < FRAMES_OF_ADDRESS_SPACE && g != frame ==> mem[g] == old(mem[g])
        invariant forall j :: 0 <= j < i ==> mem[frame][j] == 0
      {
        mem[frame] := mem[frame][i := 0];
      }
      assert mem[frame] == ZeroFrame();
    }

    /** get_pt with `create` set: the table's frame, or 0 without memory. */
    method GetPt(v: Word, flags: Word) returns (table: Found)
      requires Valid()
      modifies mem, allocator, allocator.bitmap
      ensures Valid() && (View(), table) == GetTable(old(View()), v, flags)
    {
      hide Widened, WithUser, WithWrite, UserFlag, Writable, Present, Entry, AllocFrameBelow, Store, Cleared;
      var pde := ReadWord(cr3 / FRAME_SIZE, v / 0x40_0000);
      if !Present(pde) {
        var phys := allocator.PmmAllocFrameBelow(TABLE_LIMIT);
        if phys == 0 { return 0; }
        ClearTable(phys / FRAME_SIZE);
        WriteWord(cr3 / FRAME_SIZE, v / 0x40_0000, Entry(phys / FRAME_SIZE, flags));
        return phys / FRAME_SIZE;
      }
      WidenedIs(pde, flags);
      var widened := pde;
      if UserFlag(flags) && !UserFlag(pde) { widened := WithUser(widened); }
      if Writable(flags) && !Writable(pde) { widened := WithWrite(widened); }
      WriteWord(cr3 / FRAME_SIZE, v / 0x40_0000, widened);
      return pde / FRAME_SIZE;
    }

    method VmmMap(v: Word, phys: Word, flags: Word) returns (r: int)
      requires Valid()
      modifies mem, allocator, allocator.bitmap
      ensures Valid() && (View(), r) == Map(old(View()), v, phys, flags)
    {
      var table := GetPt(v, flags);
      if table == 0 { return -1; }
      WriteWord(table, v / FRAME_SIZE % ENTRIES, Entry(phys / FRAME_SIZE, flags));
      return 0;
    }

    method VmmUnmap(v: Word) returns (r: int)
      requires Valid()
      modifies mem
      ensures Valid() && View() == Unmap(old(View()), v) && r == 0
    {
      r := 0;
      var pde := ReadWord(cr3 / FRAME_SIZE, v / 0x40_0000);
      if !Present(pde) { return; }
      WriteWord(pde / FRAME_SIZE, v / FRAME_SIZE % ENTRIES, 0);
    }

    method VmmResolve(v: Word) returns (phys: Word)
      requires Valid()
      ensures phys == Resolve(View(), v)
    {
      var pde := ReadWord(cr3 / FRAME_SIZE, v / 0x40_0000);
      if !Present(pde) { return 0; }
      var pte := ReadWord(pde / FRAME_SIZE, v / FRAME_SIZE % ENTRIES);
      if !Present(pte) { return 0; }
      return pte / FRAME_SIZE * FRAME_SIZE + v % FRAME_SIZE;
    }
  }

  /** `e | PAGE_USER` for an entry without the flag. */
  function WithUser(e: Word): Word
    requires !UserFlag(e)
  {
    e + 4
  }

  /** `e | PAGE_WRITE` for an entry without the flag. */
  function WithWrite(e: Word): Word
    requires !Writable(e)
  {
    e + 2
  }

  lemma UserKeepsWrite(e: Word)
    requires !UserFlag(e)
    ensures Writable(WithUser(e)) == Writable(e)
  {
    assert (e + 4) / 2 == e / 2 + 2;
  }

  lemma WidenedIs(e: Word, flags: Word)
    ensures var u := if UserFlag(flags) && !UserFlag(e) then WithUser(e) else e;
      && Writable(u) == Writable(e)
      && Widened(e, flags) == if Writable(flags) && !Writable(e) then WithWrite(u) else u
  {
    assert e == FrameOf(e) * FRAME_SIZE + e % FRAME_SIZE;
    LowFlags(FrameOf(e), e % FRAME_SIZE);
    if UserFlag(flags) && !UserFlag(e) { UserKeepsWrite(e); }
  }
}
