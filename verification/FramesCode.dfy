/** The allocator's own code: a bitmap of 32-bit words, one bit per frame, and a counter. */
module FramesCode {
  import opened Basics
  import opened Frames

  const BITMAP_WORDS := MAX_FRAMES / 32

  /** `idx & 31`: the position of a frame's bit in its word. */
  function ShiftOf(k: nat): (s: bv5)
    requires k < 32
    ensures s as int == k
  {
    if k == 0 then 0 else ShiftOf(k - 1) + 1
  }

  predicate BitAt(w: bv32, k: bv5) {
    (w >> k) & 1 == 1
  }

  predicate Bit(w: bv32, k: nat)
    requires k < 32
  {
    BitAt(w, ShiftOf(k))
  }

  function WithBit(w: bv32, k: nat): bv32
    requires k < 32
  {
    w | (1 << ShiftOf(k))
  }

  function WithoutBit(w: bv32, k: nat): bv32
    requires k < 32
  {
    w & !(1 << ShiftOf(k))
  }

  lemma SetShift(w: bv32, k: bv5, j: bv5)
    ensures BitAt(w | (1 << k), j) <==> (j == k || BitAt(w, j))
  {
  }

  lemma ClearShift(w: bv32, k: bv5, j: bv5)
    ensures BitAt(w & !(1 << k), j) <==> (j != k && BitAt(w, j))
  {
  }

  lemma SetBit(w: bv32, k: nat, j: nat)
    requires k < 32 && j < 32
    ensures Bit(WithBit(w, k), j) <==> (j == k || Bit(w, j))
  {
    SetShift(w, ShiftOf(k), ShiftOf(j));
  }

  lemma ClearBit(w: bv32, k: nat, j: nat)
    requires k < 32 && j < 32
    ensures Bit(WithoutBit(w, k), j) <==> (j != k && Bit(w, j))
  {
    ClearShift(w, ShiftOf(k), ShiftOf(j));
  }

  class FrameAllocator {
    var totalFrames: nat
    var freeFrames: nat
    const bitmap: array<bv32>

    ghost predicate Valid()
      reads this, bitmap
    {
      bitmap.Length == BITMAP_WORDS && totalFrames <= MAX_FRAMES
    }

    predicate Test(i: nat)
      requires Valid() && i < MAX_FRAMES
      reads this, bitmap
    {
      Bit(bitmap[i / 32], i % 32)
    }

    ghost function Used(): (r: seq<bool>)
      requires Valid()
      reads this, bitmap
      ensures |r| == totalFrames
    {
      seq(totalFrames, i requires 0 <= i < totalFrames && Valid() reads this, bitmap => Test(i))
    }

    ghost function View(): Pmm
      requires Valid()
      reads this, bitmap
    {
      Pmm(Used(), freeFrames)
    }

    /** The static storage before pmm_init. */
    constructor ()
      ensures Valid() && totalFrames == 0 && fresh(bitmap)
    {
      totalFrames, freeFrames := 0, 0;
      bitmap := new bv32[BITMAP_WORDS](_ => 0);
    }

    method Set(i: nat)
      requires Valid() && i < MAX_FRAMES
      modifies bitmap
      ensures forall j :: 0 <= j < MAX_FRAMES ==> (Test(j) <==> j == i || old(Test(j)))
    {
      bitmap[i / 32] := WithBit(bitmap[i / 32], i % 32);
      forall j | 0 <= j < MAX_FRAMES ensures Test(j) <==> j == i || old(Test(j)) {
        if j / 32 == i / 32 { SetBit(old(bitmap[i / 32]), i % 32, j % 32); }
      }
    }

    method Clear(i: nat)
      requires Valid() && i < MAX_FRAMES
      modifies bitmap
      ensures forall j :: 0 <= j < MAX_FRAMES ==> (Test(j) <==> j != i && old(Test(j)))
    {
      bitmap[i / 32] := WithoutBit(bitmap[i / 32], i % 32);
      forall j | 0 <= j < MAX_FRAMES ensures Test(j) <==> j != i && old(Test(j)) {
        if j / 32 == i / 32 { ClearBit(old(bitmap[i / 32]), i % 32, j % 32); }
      }
    }

    method TakeFrame(i: nat)
      requires Valid() && i < totalFrames
      modifies this`freeFrames, bitmap
      ensures Valid() && View() == Take(old(View()), i)
    {
      Set(i);
      if freeFrames > 0 { freeFrames := freeFrames - 1; }
      assert Used() == old(Used())[i := true];
    }

    method AllocFirst(limit: nat) returns (phys: nat)
      requires Valid() && limit <= totalFrames
      modifies this`freeFrames, bitmap
      ensures Valid() && (View(), phys) == Alloc(old(View()), limit)
    {
      for i := 0 to limit
        invariant View() == old(View()) && FirstClear(Used(), 0, limit) == FirstClear(Used(), i, limit)
      {
        assert Used()[i] == Test(i);
        if !Test(i) {
          TakeFrame(i);
          return i * FRAME_SIZE;
        }
      }
      return 0;
    }

    method PmmAllocFrame() returns (phys: nat)
      requires Valid()
      modifies this`freeFrames, bitmap
      ensures Valid() && (View(), phys) == AllocFrame(old(View()))
    {
      phys := AllocFirst(totalFrames);
    }

    method PmmAllocFrameBelow(maxPhys: Word) returns (phys: nat)
      requires Valid()
      modifies this`freeFrames, bitmap
      ensures Valid() && (View(), phys) == AllocFrameBelow(old(View()), maxPhys)
    {
      var maxIdx := maxPhys / FRAME_SIZE;
      if maxIdx > totalFrames { maxIdx := totalFrames; }
      phys := AllocFirst(maxIdx);
    }

    method PmmFreeFrame(phys: Word)
      requires Valid()
      modifies this`freeFrames, bitmap
      ensures Valid() && View() == FreeFrame(old(View()), phys)
    {
      var i := phys / FRAME_SIZE;
      if i >= totalFrames { return; }
      assert Used()[i] == Test(i);
      if Test(i) {
        Clear(i);
        freeFrames := freeFrames + 1;
        assert Used() == old(Used())[i := false];
      }
    }

    method ReserveRegion(start: Word, end: Word)
      requires Valid() && freeFrames == CountClear(Used())
      modifies this`freeFrames, bitmap
      ensures Valid() && View() == Reserved(old(View()), start, end)
    {
      ghost var target := ReservedFlags(Used(), start, end);
      if end > start {
        var first := start / FRAME_SIZE;
        var last := (end + FRAME_SIZE - 1) % WRAP / FRAME_SIZE;
        if last > totalFrames { last := totalFrames; }
        if first < last { TakeRange(first, last); }
      }
      assert Used() == target;
      CountMonotone(old(Used()), target);
    }

    /** Mark the frames first..last-1, counting only those that were clear. */
    method TakeRange(first: nat, last: nat)
      requires Valid() && first < last <= totalFrames && freeFrames == CountClear(Used())
      modifies this`freeFrames, bitmap
      ensures Valid() && freeFrames == CountClear(Used())
      ensures forall j :: 0 <= j < totalFrames ==> (Used()[j] <==> old(Used())[j] || first <= j < last)
    {
      ghost var start := Used();
      for f := first to last
        invariant Valid() && freeFrames == CountClear(Used())
        invariant forall j :: 0 <= j < totalFrames ==> (Used()[j] <==> start[j] || first <= j < f)
      {
        assert Used()[f] == Test(f);
        if !Test(f) {
          ghost var before := Used();
          CountUpdate(before, f, true);
          ClearCounted(before, f);
          TakeFrame(f);
          assert Used() == before[f := true];
        }
      }
    }

    method PmmInit(b: BootInfo)
      requires Valid()
      modifies this, bitmap
      ensures Valid() && View() == Init(b)
    {
      for i := 0 to BITMAP_WORDS
        invariant forall j :: 0 <= j < i ==> bitmap[j] == 0
      {
        bitmap[i] := 0;
      }
      var maxAddr := 0;
      if b.hasMmap {
        for i := 0 to |b.mmap|
          invariant maxAddr == MmapTop(b.mmap[..i])
          invariant forall j :: 0 <= j < BITMAP_WORDS ==> bitmap[j] == 0
        {
          var end := RegionEnd(b.mmap[i]);
          if end > maxAddr { maxAddr := end; }
          assert b.mmap[..i + 1][..i] == b.mmap[..i];
        }
        assert b.mmap[..|b.mmap|] == b.mmap;
      } else {
        maxAddr := (b.memUpper + 1024) % WRAP * 1024;
      }
      if maxAddr > MAX_MEMORY_BYTES { maxAddr := MAX_MEMORY_BYTES; }
      totalFrames := maxAddr / FRAME_SIZE;
      freeFrames := totalFrames;
      ghost var p0 := View();
      assert p0 == Pmm(seq(TotalFrames(b), _ => false), TotalFrames(b)) by {
        assert forall j :: 0 <= j < MAX_FRAMES ==> !Test(j);
        assert Used() == seq(TotalFrames(b), _ => false);
      }
      AllClear(TotalFrames(b));
      ReserveListed(b, p0);
    }

    /** The reservations of pmm_init, in its order. */
    method ReserveListed(b: BootInfo, ghost p0: Pmm)
      requires Valid() && View() == p0 && p0.free == CountClear(p0.used)
      modifies this`freeFrames, bitmap
      ensures Valid() && View() == ReserveAll(p0, Reservations(b))
    {
      ghost var done: seq<Module> := [];
      if b.hasMmap { done := ReserveMmap(b.mmap, p0); }
      done := ReserveFixed(b.boot, b.kernel, p0, done);
      if b.hasModules { done := ReserveModules(b.modules, p0, done); }
      assert done == Reservations(b);
    }

    method ReserveFixed(boot: Module, kernel: Module, ghost p0: Pmm, ghost before: seq<Module>)
      returns (ghost done: seq<Module>)
      requires Valid() && View() == ReserveAll(p0, before) && p0.free == CountClear(p0.used)
      modifies this`freeFrames, bitmap
      ensures Valid() && done == before + [LOW_MEMORY, boot, kernel, VGA_TEXT] && View() == ReserveAll(p0, done)
    {
      hide ReserveAll;
      done := ReserveTwo(LOW_MEMORY, boot, p0, before);
      done := ReserveTwo(kernel, VGA_TEXT, p0, done);
      assert before + [LOW_MEMORY, boot] + [kernel, VGA_TEXT] == before + [LOW_MEMORY, boot, kernel, VGA_TEXT];
    }

    method ReserveTwo(m: Module, n: Module, ghost p0: Pmm, ghost before: seq<Module>) returns (ghost done: seq<Module>)
      requires Valid() && View() == ReserveAll(p0, before) && p0.free == CountClear(p0.used)
      modifies this`freeFrames, bitmap
      ensures Valid() && done == before + [m, n] && View() == ReserveAll(p0, done)
    {
      hide ReserveAll;
      done := ReserveNext(m, p0, before);
      done := ReserveNext(n, p0, done);
      assert before + [m] + [n] == before + [m, n];
    }

    method ReserveMmap(mmap: seq<Region>, ghost p0: Pmm) returns (ghost done: seq<Module>)
      requires Valid() && View() == p0 && p0.free == CountClear(p0.used)
      modifies this`freeFrames, bitmap
      ensures Valid() && done == MmapReservations(mmap) && View() == ReserveAll(p0, done)
    {
      hide Reserved;
      done := [];
      for i := 0 to |mmap|
        invariant Valid() && done == MmapReservations(mmap[..i]) && View() == ReserveAll(p0, done)
      {
        var r := mmap[i];
        assert mmap[..i + 1][..i] == mmap[..i];
        if r.kind != 1 { done := ReserveNext(Truncated(r), p0, done); }
      }
      assert mmap[..|mmap|] == mmap;
    }

    method ReserveModules(modules: seq<Module>, ghost p0: Pmm, ghost before: seq<Module>)
      returns (ghost done: seq<Module>)
      requires Valid() && View() == ReserveAll(p0, before) && p0.free == CountClear(p0.used)
      modifies this`freeFrames, bitmap
      ensures Valid() && done == before + modules && View() == ReserveAll(p0, done)
    {
      hide ReserveAll;
      done := before;
      for i := 0 to |modules|
        invariant Valid() && done == before + modules[..i] && View() == ReserveAll(p0, done)
      {
        assert before + modules[..i + 1] == before + modules[..i] + [modules[i]];
        done := ReserveNext(modules[i], p0, done);
      }
      assert modules[..|modules|] == modules;
    }

    method ReserveNext(m: Module, ghost p0: Pmm, ghost done: seq<Module>) returns (ghost now: seq<Module>)
      requires Valid() && View() == ReserveAll(p0, done) && p0.free == CountClear(p0.used)
      modifies this`freeFrames, bitmap
      ensures Valid() && now == done + [m] && View() == ReserveAll(p0, now)
    {
      ReserveAllCounts(p0, done);
      ReserveRegion(m.start, m.end);
      now := done + [m];
      assert now[..|now| - 1] == done;
    }
  }
}
