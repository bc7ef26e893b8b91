/** The two-level page tables of kernel/mm/vmm.c over physical memory. Tables live in frames and are
    reached by their physical addresses; several directory entries may name the same table. */
module Paging {
  import opened Basics
  import opened Frames

  const ENTRIES := 1024
  /** Directory entries 0..767 cover the user half. */
  const USER_ENTRIES := 768
  const USER_PAGES := USER_ENTRIES * ENTRIES
  const FRAMES_OF_ADDRESS_SPACE := 0x10_0000
  /** Tables are allocated below 16 MiB. */
  const TABLE_LIMIT: Word := 0x0100_0000

  /** A 4 KiB frame as 1024 words. */
  type Frame = f: seq<Word> | |f| == ENTRIES witness seq(ENTRIES, _ => 0)

  function ZeroFrame(): Frame {
    seq(ENTRIES, _ => 0)
  }

  /** Physical memory, the directory in use and the allocator. */
  datatype Machine = Machine(mem: seq<Frame>, cr3: Word, pmm: Pmm)

  ghost predicate Shape(m: Machine) {
    |m.mem| == FRAMES_OF_ADDRESS_SPACE && m.cr3 % FRAME_SIZE == 0 && |m.pmm.used| <= MAX_FRAMES
  }

  // ---- Entries: address in the upper twenty bits, flags below ----

  function FrameOf(e: Word): nat {
    e / FRAME_SIZE
  }

  predicate Present(e: Word) { e % 2 == 1 }

  predicate Writable(e: Word) { e / 2 % 2 == 1 }

  predicate UserFlag(e: Word) { e / 4 % 2 == 1 }

  /** PAGE_WRITE | PAGE_USER. */
  const USER_RW: Word := 6

  /** `flags & (PAGE_WRITE | PAGE_USER) | PAGE_PRESENT`. */
  function EntryFlags(flags: Word): nat {
    (if UserFlag(flags) then 4 else 0) + (if Writable(flags) then 2 else 0) + 1
  }

  function Entry(frame: nat, flags: Word): Word
    requires frame < FRAMES_OF_ADDRESS_SPACE
  {
    frame * FRAME_SIZE + EntryFlags(flags)
  }

  /** The low twelve bits after `e |= PAGE_USER` and `e |= PAGE_WRITE` where the flags ask for more. */
  function WidenedFlags(low: nat, flags: Word): (r: nat)
    requires low < FRAME_SIZE
    ensures low <= r < FRAME_SIZE
  {
    low + (if UserFlag(flags) && !UserFlag(low) then 4 else 0) + (if Writable(flags) && !Writable(low) then 2 else 0)
  }

  function Widened(e: Word, flags: Word): Word {
    FrameOf(e) * FRAME_SIZE + WidenedFlags(e % FRAME_SIZE, flags)
  }

  /** The flags of a word are those of its low twelve bits. */
  lemma LowFlags(frame: nat, low: nat)
    requires frame < FRAMES_OF_ADDRESS_SPACE && low < FRAME_SIZE
    ensures var e := frame * FRAME_SIZE + low;
      FrameOf(e) == frame && Present(e) == Present(low) && Writable(e) == Writable(low) && UserFlag(e) == UserFlag(low)
  {
    assert frame * FRAME_SIZE + low == 2 * (frame * 2048) + low == 4 * (frame * 1024) + low;
    Parity(frame * 1024, low / 2);
    Parity(frame * 512, low / 4);
    Halves(frame * 2048, low);
    Quarters(frame * 1024, low);
  }

  lemma Halves(a: nat, low: nat)
    ensures (2 * a + low) / 2 == a + low / 2 && (2 * a + low) % 2 == low % 2
  {
  }

  lemma Parity(a: nat, q: nat)
    ensures (2 * a + q) % 2 == q % 2
  {
  }

  lemma Quarters(a: nat, low: nat)
    ensures (4 * a + low) / 4 == a + low / 4
  {
  }

  lemma EntryParts(frame: nat, flags: Word)
    requires frame < FRAMES_OF_ADDRESS_SPACE
    ensures var e := Entry(frame, flags);
      FrameOf(e) == frame && Present(e) && Writable(e) == Writable(flags) && UserFlag(e) == UserFlag(flags)
  {
    LowFlags(frame, EntryFlags(flags));
  }

  /** Widening keeps frame and presence, and adds exactly the rights asked for. */
  lemma WidenedParts(e: Word, flags: Word)
    ensures FrameOf(Widened(e, flags)) == FrameOf(e) && Present(Widened(e, flags)) == Present(e)
    ensures Writable(Widened(e, flags)) <==> Writable(e) || Writable(flags)
    ensures UserFlag(Widened(e, flags)) <==> UserFlag(e) || UserFlag(flags)
  {
    var low := e % FRAME_SIZE;
    LowFlags(FrameOf(e), low);
    LowFlags(FrameOf(e), WidenedFlags(low, flags));
    if !UserFlag(low) { UserBit(low); }
    var l := if UserFlag(flags) && !UserFlag(low) then low + 4 else low;
    if !Writable(l) { WriteBit(l); }
  }

  /** Setting one flag disturbs no other. */
  lemma UserBit(low: nat)
    requires low < FRAME_SIZE && !UserFlag(low)
    ensures UserFlag(low + 4) && Writable(low + 4) == Writable(low) && Present(low + 4) == Present(low)
  {
    assert (low + 4) / 4 == low / 4 + 1 && (low + 4) / 2 == low / 2 + 2;
  }

  lemma WriteBit(low: nat)
    requires low < FRAME_SIZE && !Writable(low)
    ensures Writable(low + 2) && UserFlag(low + 2) == UserFlag(low) && Present(low + 2) == Present(low)
  {
    assert (low + 2) / 2 == low / 2 + 1;
    assert low / 2 == 2 * (low / 4) + low / 2 % 2;
    assert (low + 2) / 4 == low / 4;
  }

  // ---- Virtual addresses ----

  function DirIndex(v: Word): (i: nat)
    ensures i < ENTRIES
  {
    v / 0x40_0000
  }

  function TableIndex(v: Word): (i: nat)
    ensures i < ENTRIES
  {
    v / FRAME_SIZE % ENTRIES
  }

  function Offset(v: Word): nat {
    v % FRAME_SIZE
  }

  /** Pages by number, and the first address of each. */
  function PageOf(v: Word): nat {
    v / FRAME_SIZE
  }

  function PageBase(page: nat): Word
    requires page < FRAMES_OF_ADDRESS_SPACE
  {
    page * FRAME_SIZE
  }

  lemma PageStart(page: nat)
    requires page < FRAMES_OF_ADDRESS_SPACE
    ensures var v := PageBase(page);
      DirIndex(v) == page / ENTRIES && TableIndex(v) == page % ENTRIES && Offset(v) == 0
  {
  }

  ghost predicate PagesExist(pages: seq<nat>) {
    forall i :: 0 <= i < |pages| ==> pages[i] < FRAMES_OF_ADDRESS_SPACE
  }

  ghost function Consecutive(first: nat, n: nat): (pages: seq<nat>)
    requires first + n <= FRAMES_OF_ADDRESS_SPACE
    ensures |pages| == n && PagesExist(pages)
  {
    seq(n, i => first + i)
  }

  lemma ConsecutiveSplit(first: nat, k: nat, n: nat)
    requires first + k + n <= FRAMES_OF_ADDRESS_SPACE
    ensures Consecutive(first, k + n) == Consecutive(first, k) + Consecutive(first + k, n)
  {
  }

  // ---- The walk ----

  function Dir(m: Machine): nat {
    FrameOf(m.cr3)
  }

  function Load(mem: seq<Frame>, frame: nat, i: nat): Word
    requires |mem| == FRAMES_OF_ADDRESS_SPACE && frame < FRAMES_OF_ADDRESS_SPACE && i < ENTRIES
  {
    mem[frame][i]
  }

  function Store(mem: seq<Frame>, frame: nat, i: nat, w: Word): (r: seq<Frame>)
    requires |mem| == FRAMES_OF_ADDRESS_SPACE && frame < FRAMES_OF_ADDRESS_SPACE && i < ENTRIES
    ensures |r| == |mem|
    ensures forall g, j :: 0 <= g < FRAMES_OF_ADDRESS_SPACE && 0 <= j < ENTRIES ==>
      Load(r, g, j) == if g == frame && j == i then w else Load(mem, g, j)
  {
    mem[frame := mem[frame][i := w]]
  }

  function Cleared(mem: seq<Frame>, frame: nat): (r: seq<Frame>)
    requires |mem| == FRAMES_OF_ADDRESS_SPACE && frame < FRAMES_OF_ADDRESS_SPACE
    ensures |r| == |mem|
    ensures forall g, j :: 0 <= g < FRAMES_OF_ADDRESS_SPACE && 0 <= j < ENTRIES ==>
      Load(r, g, j) == if g == frame then 0 else Load(mem, g, j)
  {
    mem[frame := ZeroFrame()]
  }

  function Pde(m: Machine, v: Word): Word
    requires Shape(m)
  {
    Load(m.mem, Dir(m), DirIndex(v))
  }

  /** The table entry for `v`, when its directory entry is present. */
  function Pte(m: Machine, v: Word): Word
    requires Shape(m)
  {
    Load(m.mem, FrameOf(Pde(m, v)), TableIndex(v))
  }

  /** The physical address that the page tables give `v`. */
  function Walk(m: Machine, v: Word): (r: Option<Word>)
    requires Shape(m)
  {
    if Present(Pde(m, v)) && Present(Pte(m, v)) then Some(FrameOf(Pte(m, v)) * FRAME_SIZE + Offset(v)) else None
  }

  /** vmm_resolve: an unmapped address resolves to 0. */
  function Resolve(m: Machine, v: Word): Word
    requires Shape(m)
  {
    match Walk(m, v) case None => 0 case Some(p) => p
  }

  // ---- Mapping ----

  /** The frame of a table, 0 for none: a table pointer of 0 is how the source reports failure. */
  type Found = t: nat | t < FRAMES_OF_ADDRESS_SPACE

  /** get_pt with `create` set: the new state and the table. An entry that is present and names frame 0 is
      widened all the same. */
  function GetTable(m: Machine, v: Word, flags: Word): (r: (Machine, Found))
    requires Shape(m)
    ensures Shape(r.0)
  {
    if Present(Pde(m, v)) then
      (Machine(Store(m.mem, Dir(m), DirIndex(v), Widened(Pde(m, v), flags)), m.cr3, m.pmm), FrameOf(Pde(m, v)))
    else
      var a := AllocFrameBelow(m.pmm, TABLE_LIMIT);
      if a.1 == 0 then (Machine(m.mem, m.cr3, a.0), 0)
      else (Machine(NewTable(m.mem, Dir(m), DirIndex(v), FrameOf(a.1), flags), m.cr3, a.0), FrameOf(a.1))
  }

  /** A fresh table is cleared before the directory names it. */
  function NewTable(mem: seq<Frame>, dir: nat, i: nat, table: nat, flags: Word): (r: seq<Frame>)
    requires |mem| == FRAMES_OF_ADDRESS_SPACE && dir < FRAMES_OF_ADDRESS_SPACE && table < FRAMES_OF_ADDRESS_SPACE
    requires i < ENTRIES
    ensures |r| == |mem|
  {
    Store(Cleared(mem, table), dir, i, Entry(table, flags))
  }

  /** vmm_map: 0 for success, -1 without a table. */
  function Map(m: Machine, v: Word, phys: Word, flags: Word): (r: (Machine, int))
    requires Shape(m)
    ensures Shape(r.0)
  {
    var g := GetTable(m, v, flags);
    if g.1 == 0 then (g.0, -1)
    else (Machine(Store(g.0.mem, g.1, TableIndex(v), Entry(FrameOf(phys), flags)), g.0.cr3, g.0.pmm), 0)
  }

  /** vmm_unmap clears the table entry and keeps the table. */
  function Unmap(m: Machine, v: Word): (r: Machine)
    requires Shape(m)
    ensures Shape(r)
  {
    if Present(Pde(m, v)) then Machine(Store(m.mem, FrameOf(Pde(m, v)), TableIndex(v), 0), m.cr3, m.pmm) else m
  }

  // ---- Well-formed address spaces ----

  /** Frame `f` could still be handed out. */
  ghost predicate Available(m: Machine, f: nat) {
    f < |m.pmm.used| && !m.pmm.used[f]
  }

  /** The directory and the tables it names are in use, no table is frame 0, and the directory is not one
      of its own tables. */
  ghost predicate WellFormed(m: Machine) {
    && Shape(m) && Accounted(m.pmm)
    && !Available(m, Dir(m))
    && forall i :: 0 <= i < ENTRIES && Present(Load(m.mem, Dir(m), i)) ==> Owned(m, FrameOf(Load(m.mem, Dir(m), i)))
  }

  ghost predicate Owned(m: Machine, t: nat) {
    t != 0 && t != Dir(m) && !Available(m, t)
  }

  /** `w` is translated by the very table entry that `v` is: same table, same index. */
  ghost predicate SameSlot(m: Machine, v: Word, w: Word)
    requires Shape(m)
  {
    && Present(Pde(m, v)) && Present(Pde(m, w)) && FrameOf(Pde(m, v)) == FrameOf(Pde(m, w))
    && TableIndex(v) == TableIndex(w)
  }

  ghost predicate IsTable(m: Machine, t: nat)
    requires Shape(m)
  {
    exists i :: 0 <= i < ENTRIES && Present(Load(m.mem, Dir(m), i)) && FrameOf(Load(m.mem, Dir(m), i)) == t
  }

  lemma TableOf(m: Machine, v: Word)
    requires Shape(m) && Present(Pde(m, v))
    ensures IsTable(m, FrameOf(Pde(m, v)))
  {
    assert Present(Load(m.mem, Dir(m), DirIndex(v)));
  }

  // ---- Theorems ----

  /** Getting a table translates nothing differently, whether the table existed or is freshly zeroed. */
  lemma GetTableKeeps(m: Machine, v: Word, flags: Word)
    requires WellFormed(m)
    ensures var (m1, t) := GetTable(m, v, flags);
      && WellFormed(m1) && m1.cr3 == m.cr3
      && (forall w: Word :: Walk(m1, w) == Walk(m, w))
      && (t == 0 ==> m1 == m && !Present(Pde(m, v)))
      && (t != 0 ==> Present(Pde(m1, v)) && FrameOf(Pde(m1, v)) == t && t != Dir(m) && IsTable(m1, t))
      && (forall w: Word :: Present(Pde(m, w)) ==> Present(Pde(m1, w)) && FrameOf(Pde(m1, w)) == FrameOf(Pde(m, w)))
  {
    var (m1, t) := GetTable(m, v, flags);
    if Present(Pde(m, v)) {
      ExistingTableKeeps(m, v, flags);
    } else {
      AllocSound(m.pmm, Clip(TABLE_LIMIT / FRAME_SIZE, |m.pmm.used|));
      if t != 0 { FreshTableKeeps(m, v, flags); }
    }
  }

  lemma ExistingTableKeeps(m: Machine, v: Word, flags: Word)
    requires WellFormed(m) && Present(Pde(m, v))
    ensures var (m1, t) := GetTable(m, v, flags);
      && WellFormed(m1)
      && (forall w: Word :: Walk(m1, w) == Walk(m, w))
      && (forall w: Word :: Present(Pde(m1, w)) == Present(Pde(m, w)) && FrameOf(Pde(m1, w)) == FrameOf(Pde(m, w)))
      && t == FrameOf(Pde(m, v)) && t != Dir(m) && IsTable(m1, t)
  {
    var (m1, t) := GetTable(m, v, flags);
    var d := Dir(m);
    WidenedParts(Pde(m, v), flags);
    assert forall i :: 0 <= i < ENTRIES ==>
      && Present(Load(m1.mem, d, i)) == Present(Load(m.mem, d, i))
      && FrameOf(Load(m1.mem, d, i)) == FrameOf(Load(m.mem, d, i));
    TableOf(m1, v);
  }

  lemma FreshTableKeeps(m: Machine, v: Word, flags: Word)
    requires WellFormed(m) && !Present(Pde(m, v)) && GetTable(m, v, flags).1 != 0
    ensures var (m1, t) := GetTable(m, v, flags);
      && WellFormed(m1)
      && (forall w: Word :: Walk(m1, w) == Walk(m, w))
      && Present(Pde(m1, v)) && FrameOf(Pde(m1, v)) == t && t != Dir(m) && IsTable(m1, t)
      && (forall w: Word :: Present(Pde(m, w)) ==> Pde(m1, w) == Pde(m, w))
      && Available(m, t)
  {
    var (m1, t) := GetTable(m, v, flags);
    var d := Dir(m);
    AllocSound(m.pmm, Clip(TABLE_LIMIT / FRAME_SIZE, |m.pmm.used|));
    EntryParts(t, flags);
    assert t != d;
    forall i | 0 <= i < ENTRIES
      ensures Load(m1.mem, d, i) == if i == DirIndex(v) then Entry(t, flags) else Load(m.mem, d, i)
    {
    }
    forall w: Word ensures Walk(m1, w) == Walk(m, w) {
      if DirIndex(w) == DirIndex(v) {
        assert Pte(m1, w) == 0;
      } else if Present(Pde(m, w)) {
        assert FrameOf(Pde(m, w)) != t;
      }
    }
    TableOf(m1, v);
  }

  /** A table entry is rewritten: exactly the addresses translated by that entry change. */
  lemma StoreEntry(m: Machine, t: nat, v: Word, e: Word)
    requires WellFormed(m) && Present(Pde(m, v)) && FrameOf(Pde(m, v)) == t
    ensures var m1 := Machine(Store(m.mem, t, TableIndex(v), e), m.cr3, m.pmm);
      && WellFormed(m1)
      && (forall w: Word :: Pde(m1, w) == Pde(m, w))
      && (forall w: Word :: Walk(m1, w) ==
            if SameSlot(m, v, w) then if Present(e) then Some(FrameOf(e) * FRAME_SIZE + Offset(w)) else None
            else Walk(m, w))
  {
    var m1 := Machine(Store(m.mem, t, TableIndex(v), e), m.cr3, m.pmm);
    assert t != Dir(m);
    assert forall i :: 0 <= i < ENTRIES ==> Load(m1.mem, Dir(m), i) == Load(m.mem, Dir(m), i);
  }

  /** Over arbitrary tables a map fails in two ways only: the directory entry is absent and no frame below
      16 MiB is clear, or it is present and names frame 0, which the source takes for a missing table. */
  lemma MapFails(m: Machine, v: Word, phys: Word, flags: Word)
    requires Shape(m) && Accounted(m.pmm)
    ensures Map(m, v, phys, flags).1 == -1 <==>
      if Present(Pde(m, v)) then FrameOf(Pde(m, v)) == 0
      else forall i :: 0 <= i < |m.pmm.used| && i < 16 * 1024 * 1024 / 4096 ==> m.pmm.used[i]
  {
    AllocSound(m.pmm, Clip(TABLE_LIMIT / FRAME_SIZE, |m.pmm.used|));
  }

  /** After a successful map the page's whole slot translates to the given frame with the given rights,
      every address outside the slot translates as before, and the tables stay well formed. Without
      memory for a table nothing changes. */
  lemma MapTranslates(m: Machine, v: Word, phys: Word, flags: Word)
    requires WellFormed(m)
    ensures var (m1, r) := Map(m, v, phys, flags);
      && WellFormed(m1) && (r == 0 || r == -1)
      && (r == -1 ==> m1 == m)
      && (r == 0 ==>
           && Walk(m1, v) == Some(FrameOf(phys) * FRAME_SIZE + Offset(v))
           && (Writable(Pte(m1, v)) <==> Writable(flags)) && (UserFlag(Pte(m1, v)) <==> UserFlag(flags))
           && forall w: Word ::
                Walk(m1, w) == if SameSlot(m1, v, w) then Some(FrameOf(phys) * FRAME_SIZE + Offset(w)) else Walk(m, w))
  {
    var (m1, t) := GetTable(m, v, flags);
    GetTableKeeps(m, v, flags);
    if t != 0 {
      EntryParts(FrameOf(phys), flags);
      StoreEntry(m1, t, v, Entry(FrameOf(phys), flags));
    }
  }

  /** Unmapping empties the page's whole slot and nothing else. */
  lemma UnmapTranslates(m: Machine, v: Word)
    requires WellFormed(m)
    ensures var m1 := Unmap(m, v);
      && WellFormed(m1)
      && Walk(m1, v) == None
      && forall w: Word :: Walk(m1, w) == if SameSlot(m, v, w) then None else Walk(m, w)
  {
    if Present(Pde(m, v)) { StoreEntry(m, FrameOf(Pde(m, v)), v, 0); }
  }

  /** Unmapping undoes a mapping of a page that translated to nothing. */
  lemma MapUnmapRoundTrip(m: Machine, v: Word, phys: Word, flags: Word)
    requires WellFormed(m) && Map(m, v, phys, flags).1 == 0
    requires forall w: Word :: SameSlot(Map(m, v, phys, flags).0, v, w) ==> Walk(m, w) == None
    ensures forall w: Word :: Walk(Unmap(Map(m, v, phys, flags).0, v), w) == Walk(m, w)
  {
    MapTranslates(m, v, phys, flags);
    UnmapTranslates(Map(m, v, phys, flags).0, v);
  }

  // ---- Rights ----

  /** The processor grants a write, or an access from user mode, only where both levels do. */
  predicate MayWrite(m: Machine, v: Word)
    requires Shape(m)
  {
    Walk(m, v).Some? && Writable(Pde(m, v)) && Writable(Pte(m, v))
  }

  predicate MayUse(m: Machine, v: Word)
    requires Shape(m)
  {
    Walk(m, v).Some? && UserFlag(Pde(m, v)) && UserFlag(Pte(m, v))
  }

  /** A map touches one directory entry. It names the table used, and has the rights asked for besides those
      that it had: exactly the rights asked for if the table is new. */
  lemma MapDirectoryRights(m: Machine, v: Word, phys: Word, flags: Word)
    requires WellFormed(m) && Map(m, v, phys, flags).1 == 0
    ensures var m1 := Map(m, v, phys, flags).0;
      && Dir(m1) == Dir(m)
      && (forall i :: 0 <= i < ENTRIES && i != DirIndex(v) ==> Load(m1.mem, Dir(m), i) == Load(m.mem, Dir(m), i))
      && Present(Pde(m1, v))
      && (Writable(Pde(m1, v)) <==> Writable(flags) || (Present(Pde(m, v)) && Writable(Pde(m, v))))
      && (UserFlag(Pde(m1, v)) <==> UserFlag(flags) || (Present(Pde(m, v)) && UserFlag(Pde(m, v))))
  {
    var (g, t) := GetTable(m, v, flags);
    GetTableKeeps(m, v, flags);
    if Present(Pde(m, v)) {
      WidenedParts(Pde(m, v), flags);
    } else {
      EntryParts(t, flags);
    }
  }

  /** The rights of every address after a map: the page's slot has the rights asked for in its table entry,
      all other table entries keep theirs, and the directory entry of `v` may have been widened. */
  lemma MapRights(m: Machine, v: Word, phys: Word, flags: Word, w: Word)
    requires WellFormed(m) && Map(m, v, phys, flags).1 == 0
    ensures var m1 := Map(m, v, phys, flags).0;
            var same, wide := SameSlot(m1, v, w), DirIndex(w) == DirIndex(v);
      && (MayWrite(m1, w) <==>
            && Walk(m1, w).Some? && (if same then Writable(flags) else Writable(Pte(m, w)))
            && if wide then Writable(flags) || (Present(Pde(m, v)) && Writable(Pde(m, v))) else Writable(Pde(m, w)))
      && (MayUse(m1, w) <==>
            && Walk(m1, w).Some? && (if same then UserFlag(flags) else UserFlag(Pte(m, w)))
            && if wide then UserFlag(flags) || (Present(Pde(m, v)) && UserFlag(Pde(m, v))) else UserFlag(Pde(m, w)))
  {
    hide GetTable, Map;
    MapTranslates(m, v, phys, flags);
    MapDirectoryRights(m, v, phys, flags);
    MapEntries(m, v, phys, flags, w);
  }

  /** A page that is mapped has exactly the rights asked for, if its directory entry gave no more; and nobody
      outside its slot loses any. */
  lemma MapGrants(m: Machine, v: Word, phys: Word, flags: Word)
    requires WellFormed(m) && Map(m, v, phys, flags).1 == 0
    ensures var m1 := Map(m, v, phys, flags).0;
      && (MayWrite(m1, v) <==> Writable(flags)) && (MayUse(m1, v) <==> UserFlag(flags))
      && (forall w: Word :: !SameSlot(m1, v, w) ==>
           (MayWrite(m, w) ==> MayWrite(m1, w)) && (MayUse(m, w) ==> MayUse(m1, w)))
  {
    hide GetTable, Map;
    MapTranslates(m, v, phys, flags);
    MapDirectoryRights(m, v, phys, flags);
    var m1 := Map(m, v, phys, flags).0;
    MapRights(m, v, phys, flags, v);
    forall w: Word | !SameSlot(m1, v, w)
      ensures (MayWrite(m, w) ==> MayWrite(m1, w)) && (MayUse(m, w) ==> MayUse(m1, w))
    {
      MapRights(m, v, phys, flags, w);
    }
  }

  /** The table entries after a map. */
  lemma MapEntries(m: Machine, v: Word, phys: Word, flags: Word, w: Word)
    requires WellFormed(m) && Map(m, v, phys, flags).1 == 0
    ensures var m1 := Map(m, v, phys, flags).0;
      if !Present(Pde(m1, w)) then true
      else if SameSlot(m1, v, w) then
        (Writable(Pte(m1, w)) <==> Writable(flags)) && (UserFlag(Pte(m1, w)) <==> UserFlag(flags))
      else !Present(Pte(m1, w)) || (Present(Pde(m, w)) && Pte(m1, w) == Pte(m, w))
  {
    var (g, t) := GetTable(m, v, flags);
    GetTableKeeps(m, v, flags);
    EntryParts(FrameOf(phys), flags);
  }

  /** What vmm_resolve reports, which cannot tell "unmapped" from physical address 0. */
  lemma ResolveAfterMap(m: Machine, v: Word, phys: Word, flags: Word, w: Word)
    requires WellFormed(m) && Map(m, v, phys, flags).1 == 0
    ensures var m1 := Map(m, v, phys, flags).0;
      && Resolve(m1, v) == FrameOf(phys) * FRAME_SIZE + Offset(v)
      && (!SameSlot(m1, v, w) ==> Resolve(m1, w) == Resolve(m, w))
  {
    MapTranslates(m, v, phys, flags);
  }
}
