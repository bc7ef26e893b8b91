/** The physical frame allocator of kernel/mm/pmm.c on values: which frames are marked used and how many
    are counted free. */
module Frames {
  import opened Basics

  const FRAME_SIZE := 0x1000
  const MAX_MEMORY_BYTES := 0x1000_0000
  const MAX_FRAMES := MAX_MEMORY_BYTES / FRAME_SIZE

  type Long = l: nat | l < 0x1_0000_0000_0000_0000

  /** `used` has one flag per existing frame; `free` is the counter kept beside it. */
  datatype Pmm = Pmm(used: seq<bool>, free: nat)

  function CountClear(used: seq<bool>): (n: nat)
    ensures n <= |used|
  {
    if used == [] then 0 else CountClear(used[..|used| - 1]) + if used[|used| - 1] then 0 else 1
  }

  /** The counter is right and frame 0 is never handed out, since its address means "no frame". */
  ghost predicate Accounted(p: Pmm) {
    && |p.used| <= MAX_FRAMES
    && p.free == CountClear(p.used)
    && (|p.used| > 0 ==> p.used[0])
  }

  function Clip(limit: nat, total: nat): nat {
    if limit > total then total else limit
  }

  /** The first clear flag at or above `i` and below `limit`, or -1. */
  function FirstClear(used: seq<bool>, i: nat, limit: nat): (r: int)
    requires i <= limit <= |used|
    ensures r == -1 ==> forall j :: i <= j < limit ==> used[j]
    ensures r != -1 ==> i <= r < limit && !used[r] && forall j :: i <= j < r ==> used[j]
    decreases limit - i
  {
    if i == limit then -1 else if !used[i] then i else FirstClear(used, i + 1, limit)
  }

  function Take(p: Pmm, i: nat): Pmm
    requires i < |p.used|
  {
    Pmm(p.used[i := true], if p.free > 0 then p.free - 1 else 0)
  }

  /** Allocation among the first `limit` frames: the new state and the frame's address, 0 for none. */
  function Alloc(p: Pmm, limit: nat): (r: (Pmm, nat))
    requires limit <= |p.used|
    ensures |r.0.used| == |p.used| && r.1 / FRAME_SIZE <= limit
  {
    var i := FirstClear(p.used, 0, limit);
    if i < 0 then (p, 0) else (Take(p, i), i * FRAME_SIZE)
  }

  function AllocFrame(p: Pmm): (r: (Pmm, nat))
    ensures |r.0.used| == |p.used| && r.1 / FRAME_SIZE <= |p.used|
  {
    Alloc(p, |p.used|)
  }

  function AllocFrameBelow(p: Pmm, maxPhys: Word): (r: (Pmm, nat))
    ensures |r.0.used| == |p.used| && r.1 / FRAME_SIZE <= |p.used|
  {
    Alloc(p, Clip(maxPhys / FRAME_SIZE, |p.used|))
  }

  function FreeFrame(p: Pmm, phys: Word): Pmm {
    var i := phys / FRAME_SIZE;
    if i < |p.used| && p.used[i] then Pmm(p.used[i := false], p.free + 1) else p
  }

  // ---- Reservations ----

  /** The frames that reserve_region marks; its rounding up is done in 32 bits. */
  predicate Reserves(start: Word, end: Word, f: nat) {
    start < end && start / FRAME_SIZE <= f < (end + FRAME_SIZE - 1) % WRAP / FRAME_SIZE
  }

  function ReservedFlags(used: seq<bool>, start: Word, end: Word): (r: seq<bool>)
    ensures |r| == |used|
    ensures forall f :: 0 <= f < |used| ==> (r[f] <==> used[f] || Reserves(start, end, f))
  {
    seq(|used|, f requires 0 <= f < |used| => used[f] || Reserves(start, end, f))
  }

  /** reserve_region: the newly marked frames leave the free count. */
  function Reserved(p: Pmm, start: Word, end: Word): (r: Pmm)
    ensures |r.used| == |p.used|
  {
    var used := ReservedFlags(p.used, start, end);
    var taken := CountClear(p.used) - CountClear(used);
    Pmm(used, if p.free >= taken then p.free - taken else 0)
  }

  // ---- Boot information ----

  /** A memory-map entry; type 1 is available memory. */
  datatype Region = Region(addr: Long, len: Long, kind: Word)

  datatype Module = Module(start: Word, end: Word)

  /** The part of the multiboot information that the allocator reads, and the linker's symbols. */
  datatype BootInfo = BootInfo(
    hasMmap: bool, mmap: seq<Region>, memUpper: Word,
    hasModules: bool, modules: seq<Module>,
    boot: Module, kernel: Module)

  function RegionEnd(r: Region): Long {
    (r.addr + r.len) % 0x1_0000_0000_0000_0000
  }

  function MmapTop(mmap: seq<Region>): Long {
    if mmap == [] then 0
    else
      var t := MmapTop(mmap[..|mmap| - 1]);
      var e := RegionEnd(mmap[|mmap| - 1]);
      if e > t then e else t
  }

  function TotalFrames(b: BootInfo): (n: nat)
    ensures n <= MAX_FRAMES
  {
    var top := if b.hasMmap then MmapTop(b.mmap) else (b.memUpper + 1024) % WRAP * 1024;
    (if top > MAX_MEMORY_BYTES then MAX_MEMORY_BYTES else top) / FRAME_SIZE
  }

  /** The reservations of the memory map, cut to 32 bits as the source casts them. */
  function MmapReservations(mmap: seq<Region>): seq<Module> {
    if mmap == [] then []
    else
      var r := mmap[|mmap| - 1];
      MmapReservations(mmap[..|mmap| - 1])
      + if r.kind != 1 then [Truncated(r)] else []
  }

  const LOW_MEMORY := Module(0, 0x10_0000)
  const VGA_TEXT := Module(0xB8000, 0xB9000)

  function Reservations(b: BootInfo): seq<Module> {
    (if b.hasMmap then MmapReservations(b.mmap) else [])
    + [LOW_MEMORY, b.boot, b.kernel, VGA_TEXT]
    + (if b.hasModules then b.modules else [])
  }

  /** Some reservation of the list marks frame `f`. */
  ghost predicate Marks(rs: seq<Module>, f: nat) {
    exists r :: r in rs && Reserves(r.start, r.end, f)
  }

  /** Some byte of frame `f` lies in [start, end). */
  ghost predicate Touches(start: nat, end: nat, f: nat) {
    exists a: nat :: start <= a < end && a / FRAME_SIZE == f
  }

  // ---- Accounting ----

  lemma {:induction false} CountUpdate(used: seq<bool>, i: nat, b: bool)
    requires i < |used|
    ensures CountClear(used[i := b]) == CountClear(used) + (if used[i] then 1 else 0) - (if b then 1 else 0)
  {
    var n := |used| - 1;
    if i < n {
      CountUpdate(used[..n], i, b);
      assert used[i := b][..n] == used[..n][i := b];
    } else {
      assert used[i := b][..n] == used[..n];
    }
  }

  lemma {:induction false} ClearCounted(used: seq<bool>, i: nat)
    requires i < |used| && !used[i]
    ensures CountClear(used) > 0
  {
    if i < |used| - 1 { ClearCounted(used[..|used| - 1], i); }
  }

  lemma {:induction false} CountMonotone(a: seq<bool>, b: seq<bool>)
    requires |a| == |b| && forall i :: 0 <= i < |a| ==> a[i] ==> b[i]
    ensures CountClear(b) <= CountClear(a)
  {
    if a != [] { CountMonotone(a[..|a| - 1], b[..|b| - 1]); }
  }

  /** An allocation hands out a frame that nobody held, never frame 0, and keeps the count exact; it
      fails only when every frame below the limit is in use. */
  lemma AllocSound(p: Pmm, limit: nat)
    requires Accounted(p) && limit <= |p.used|
    ensures var (q, phys) := Alloc(p, limit);
      && Accounted(q)
      && if phys == 0 then q == p && forall i :: 0 <= i < limit ==> p.used[i]
         else && phys % FRAME_SIZE == 0 && 0 < phys / FRAME_SIZE < limit
              && !p.used[phys / FRAME_SIZE]
              && p.free > 0 && q == Take(p, phys / FRAME_SIZE)
  {
    var i := FirstClear(p.used, 0, limit);
    if i >= 0 {
      CountUpdate(p.used, i, true);
      ClearCounted(p.used, i);
    }
  }

  lemma FreeSound(p: Pmm, phys: Word)
    requires Accounted(p) && phys >= FRAME_SIZE
    ensures Accounted(FreeFrame(p, phys))
  {
    var i := phys / FRAME_SIZE;
    if i < |p.used| { CountUpdate(p.used, i, false); }
  }

  /** Allocating undoes nothing but what freeing restores: freeing the frame just allocated gives the
      previous state back. */
  lemma AllocFreeRoundTrip(p: Pmm, limit: nat)
    requires Accounted(p) && limit <= |p.used| && Alloc(p, limit).1 != 0
    ensures FreeFrame(Alloc(p, limit).0, Alloc(p, limit).1) == p
  {
    AllocSound(p, limit);
    var i := Alloc(p, limit).1 / FRAME_SIZE;
    assert p.used[i := true][i := false] == p.used;
  }

  lemma ReservedSound(p: Pmm, start: Word, end: Word)
    requires p.free == CountClear(p.used)
    ensures Reserved(p, start, end).free == CountClear(Reserved(p, start, end).used)
  {
    CountMonotone(p.used, Reserved(p, start, end).used);
  }

  // ---- What a reservation covers ----

  /** For regions ending at or below 2^32 - 4096 the marked frames are those touched. */
  lemma ReservesTouched(start: Word, end: Word, f: nat)
    requires end <= WRAP - FRAME_SIZE
    ensures Reserves(start, end, f) <==> Touches(start, end, f)
  {
    if Reserves(start, end, f) {
      var a := if start / FRAME_SIZE == f then start else f * FRAME_SIZE;
      assert start <= a < end && a / FRAME_SIZE == f;
    }
  }

  /** Beyond that the rounding up wraps and nothing is marked. */
  lemma ReservesNothing(start: Word, end: Word, f: nat)
    requires end > WRAP - FRAME_SIZE
    ensures !Reserves(start, end, f)
  {
  }

  /** So a nonempty region is reserved exactly on an allocator of `total` frames if and only if it ends
      early enough or lies wholly above the managed memory. */
  lemma ReservesExactly(start: Word, end: Word, total: nat)
    requires start < end && total <= MAX_FRAMES
    ensures (forall f :: 0 <= f < total ==> (Reserves(start, end, f) <==> Touches(start, end, f)))
            <==> end <= WRAP - FRAME_SIZE || start >= total * FRAME_SIZE
  {
    if end <= WRAP - FRAME_SIZE {
      forall f | 0 <= f < total ensures Reserves(start, end, f) <==> Touches(start, end, f) {
        ReservesTouched(start, end, f);
      }
    } else if start >= total * FRAME_SIZE {
      forall f | 0 <= f < total ensures !Reserves(start, end, f) && !Touches(start, end, f) {
        ReservesNothing(start, end, f);
      }
    } else {
      var f := start / FRAME_SIZE;
      ReservesNothing(start, end, f);
      assert Touches(start, end, f);
    }
  }

  // ---- Boot ----

  function ReserveAll(p: Pmm, rs: seq<Module>): (r: Pmm)
    ensures |r.used| == |p.used|
  {
    if rs == [] then p
    else Reserved(ReserveAll(p, rs[..|rs| - 1]), rs[|rs| - 1].start, rs[|rs| - 1].end)
  }

  function Init(b: BootInfo): Pmm {
    ReserveAll(Pmm(seq(TotalFrames(b), _ => false), TotalFrames(b)), Reservations(b))
  }

  lemma {:induction false} ReserveAllMarks(p: Pmm, rs: seq<Module>, f: nat)
    requires f < |p.used|
    ensures ReserveAll(p, rs).used[f] <==> p.used[f] || Marks(rs, f)
  {
    if rs != [] {
      var init, r := rs[..|rs| - 1], rs[|rs| - 1];
      ReserveAllMarks(p, init, f);
      assert forall q :: q in rs <==> q in init || q == r;
    }
  }

  lemma {:induction false} ReserveAllCounts(p: Pmm, rs: seq<Module>)
    requires p.free == CountClear(p.used)
    ensures ReserveAll(p, rs).free == CountClear(ReserveAll(p, rs).used)
  {
    if rs != [] {
      ReserveAllCounts(p, rs[..|rs| - 1]);
      ReservedSound(ReserveAll(p, rs[..|rs| - 1]), rs[|rs| - 1].start, rs[|rs| - 1].end);
    }
  }

  lemma {:induction false} AllClear(n: nat)
    ensures CountClear(seq(n, _ => false)) == n
  {
    if n > 0 {
      AllClear(n - 1);
      assert seq(n, _ => false)[..n - 1] == seq(n - 1, _ => false);
    }
  }

  /** A region of the memory map as the reservation that the source's casts make of it. */
  function Truncated(r: Region): Module {
    Module(r.addr % WRAP, RegionEnd(r) % WRAP)
  }

  lemma {:induction false} MmapReservationsAre(mmap: seq<Region>, m: Module)
    ensures m in MmapReservations(mmap) <==> exists r :: r in mmap && r.kind != 1 && m == Truncated(r)
  {
    if mmap != [] {
      var init, r := mmap[..|mmap| - 1], mmap[|mmap| - 1];
      MmapReservationsAre(init, m);
      assert forall q :: q in mmap <==> q in init || q == r;
    }
  }

  /** How many frames there are: the top of the memory map, or the upper memory and the first megabyte without a
      map, in whole frames and at most 256 MiB. The top is the highest end of a region, 0 without any. */
  lemma TotalIs(b: BootInfo)
    ensures var top := if b.hasMmap then MmapTop(b.mmap) else (b.memUpper + 1024) % 0x1_0000_0000 * 1024;
      && TotalFrames(b) == (if top > 256 * 1024 * 1024 then 65536 else top / 4096)
      && (forall r :: r in b.mmap ==> (r.addr + r.len) % 0x1_0000_0000_0000_0000 <= MmapTop(b.mmap))
      && (MmapTop(b.mmap) == 0
          || exists r :: r in b.mmap && MmapTop(b.mmap) == (r.addr + r.len) % 0x1_0000_0000_0000_0000)
  {
    TopIsHighest(b.mmap);
  }

  lemma {:induction false} TopIsHighest(mmap: seq<Region>)
    ensures forall r :: r in mmap ==> RegionEnd(r) <= MmapTop(mmap)
    ensures MmapTop(mmap) == 0 || exists r :: r in mmap && MmapTop(mmap) == RegionEnd(r)
  {
    if mmap != [] {
      var init, last := mmap[..|mmap| - 1], mmap[|mmap| - 1];
      TopIsHighest(init);
      assert last in mmap && forall r :: r in mmap <==> r in init || r == last;
    }
  }

  /** What the boot loader and the linker say must not be handed out. */
  ghost predicate Unavailable(b: BootInfo, f: nat) {
    || (b.hasMmap && exists r :: r in b.mmap && r.kind != 1 && Touches(r.addr, r.addr + r.len, f))
    || (b.hasModules && exists m :: m in b.modules && Touches(m.start, m.end, f))
    || Touches(b.boot.start, b.boot.end, f)
    || Touches(b.kernel.start, b.kernel.end, f)
    || Touches(0, 0x10_0000, f)
    || Touches(0xB8000, 0xB9000, f)
  }

  /** Everything to be reserved ends where the 32-bit rounding is still exact. */
  ghost predicate EndsInRange(b: BootInfo) {
    var top := WRAP - FRAME_SIZE;
    && (b.hasMmap ==> forall r :: r in b.mmap && r.kind != 1 ==> r.addr + r.len <= top)
    && (b.hasModules ==> forall m :: m in b.modules ==> m.end <= top)
    && b.boot.end <= top && b.kernel.end <= top
  }

  lemma InitMarks(b: BootInfo, f: nat)
    requires f < TotalFrames(b)
    ensures Init(b).used[f] <==> Marks(Reservations(b), f)
  {
    ReserveAllMarks(Pmm(seq(TotalFrames(b), _ => false), TotalFrames(b)), Reservations(b), f);
  }

  lemma MmapMarks(mmap: seq<Region>, f: nat)
    requires forall r :: r in mmap && r.kind != 1 ==> r.addr + r.len <= WRAP - FRAME_SIZE
    ensures Marks(MmapReservations(mmap), f) <==>
            exists r :: r in mmap && r.kind != 1 && Touches(r.addr, r.addr + r.len, f)
  {
    if Marks(MmapReservations(mmap), f) {
      var m :| m in MmapReservations(mmap) && Reserves(m.start, m.end, f);
      MmapReservationsAre(mmap, m);
      var r :| r in mmap && r.kind != 1 && m == Truncated(r);
      TruncatedExact(r, f);
    }
    if r :| r in mmap && r.kind != 1 && Touches(r.addr, r.addr + r.len, f) {
      MmapReservationsAre(mmap, Truncated(r));
      TruncatedExact(r, f);
    }
  }

  lemma TruncatedExact(r: Region, f: nat)
    requires r.addr + r.len <= WRAP - FRAME_SIZE
    ensures Reserves(Truncated(r).start, Truncated(r).end, f) <==> Touches(r.addr, r.addr + r.len, f)
  {
    assert Truncated(r) == Module(r.addr, r.addr + r.len);
    ReservesTouched(Truncated(r).start, Truncated(r).end, f);
  }

  lemma MarksConcat(a: seq<Module>, b: seq<Module>, f: nat)
    ensures Marks(a + b, f) <==> Marks(a, f) || Marks(b, f)
  {
    assert forall r :: r in a + b <==> r in a || r in b;
  }

  lemma ModuleMarks(modules: seq<Module>, f: nat)
    requires forall m :: m in modules ==> m.end <= WRAP - FRAME_SIZE
    ensures Marks(modules, f) <==> exists m :: m in modules && Touches(m.start, m.end, f)
  {
    forall m | m in modules ensures Reserves(m.start, m.end, f) <==> Touches(m.start, m.end, f) {
      ReservesTouched(m.start, m.end, f);
    }
  }

  /** After boot the count is exact and frame 0 is taken; and when everything to be reserved ends at or
      below 2^32 - 4096, a frame is clear exactly when nothing unavailable touches it. */
  lemma InitExact(b: BootInfo)
    ensures |Init(b).used| == TotalFrames(b) && Accounted(Init(b))
    ensures EndsInRange(b) ==> forall f :: 0 <= f < TotalFrames(b) ==> (Init(b).used[f] <==> Unavailable(b, f))
  {
    InitAccounted(b);
    if EndsInRange(b) {
      forall f | 0 <= f < TotalFrames(b) ensures Init(b).used[f] <==> Unavailable(b, f) {
        InitUnavailable(b, f);
      }
    }
  }

  lemma InitAccounted(b: BootInfo)
    ensures |Init(b).used| == TotalFrames(b) && Accounted(Init(b))
  {
    AllClear(TotalFrames(b));
    ReserveAllCounts(Pmm(seq(TotalFrames(b), _ => false), TotalFrames(b)), Reservations(b));
    if TotalFrames(b) > 0 {
      InitMarks(b, 0);
      assert LOW_MEMORY in Reservations(b) && Reserves(LOW_MEMORY.start, LOW_MEMORY.end, 0);
    }
  }

  lemma InitUnavailable(b: BootInfo, f: nat)
    requires EndsInRange(b) && f < TotalFrames(b)
    ensures Init(b).used[f] <==> Unavailable(b, f)
  {
    var mmap := if b.hasMmap then MmapReservations(b.mmap) else [];
    var fixed := [LOW_MEMORY, b.boot, b.kernel, VGA_TEXT];
    var modules := if b.hasModules then b.modules else [];
    InitMarks(b, f);
    MarksConcat(mmap + fixed, modules, f);
    MarksConcat(mmap, fixed, f);
    if b.hasMmap { MmapMarks(b.mmap, f); }
    ModuleMarks(modules, f);
    FixedMarks(b, f);
  }

  lemma FixedMarks(b: BootInfo, f: nat)
    requires EndsInRange(b)
    ensures var fixed := [LOW_MEMORY, b.boot, b.kernel, VGA_TEXT];
      Marks(fixed, f) <==>
        || Touches(b.boot.start, b.boot.end, f)
        || Touches(b.kernel.start, b.kernel.end, f)
        || Touches(LOW_MEMORY.start, LOW_MEMORY.end, f)
        || Touches(VGA_TEXT.start, VGA_TEXT.end, f)
  {
    var fixed := [LOW_MEMORY, b.boot, b.kernel, VGA_TEXT];
    ModuleMarks(fixed, f);
    assert fixed[0] in fixed && fixed[1] in fixed && fixed[2] in fixed && fixed[3] in fixed;
  }
}
