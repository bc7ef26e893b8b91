/** Bytes of virtual memory, read and written through the page walk. */
module UserMemory {
  import opened Basics
  import opened Frames
  import opened Paging
  import opened PagingRuns
  import opened FrameBudget

  // ---- Bytes inside words, little-endian ----

  function ByteOf(w: Word, k: nat): Byte
    requires k < 4
  {
    (match k case 0 => w case 1 => w / 0x100 case 2 => w / 0x1_0000 case _ => w / 0x100_0000) % 0x100
  }

  function Word4(b0: Byte, b1: Byte, b2: Byte, b3: Byte): Word {
    b0 + 0x100 * b1 + 0x1_0000 * b2 + 0x100_0000 * b3
  }

  function WithByte(w: Word, k: nat, b: Byte): Word
    requires k < 4
  {
    Word4(if k == 0 then b else ByteOf(w, 0), if k == 1 then b else ByteOf(w, 1),
          if k == 2 then b else ByteOf(w, 2), if k == 3 then b else ByteOf(w, 3))
  }

  lemma Word4Bytes(b0: Byte, b1: Byte, b2: Byte, b3: Byte)
    ensures var w := Word4(b0, b1, b2, b3);
      ByteOf(w, 0) == b0 && ByteOf(w, 1) == b1 && ByteOf(w, 2) == b2 && ByteOf(w, 3) == b3
  {
    var w := Word4(b0, b1, b2, b3);
    assert w / 0x100 == b1 + 0x100 * b2 + 0x1_0000 * b3;
    assert w / 0x1_0000 == b2 + 0x100 * b3;
    assert w / 0x100_0000 == b3;
  }

  lemma WithByteBytes(w: Word, k: nat, b: Byte, j: nat)
    requires k < 4 && j < 4
    ensures ByteOf(WithByte(w, k, b), j) == if j == k then b else ByteOf(w, j)
  {
    Word4Bytes(if k == 0 then b else ByteOf(w, 0), if k == 1 then b else ByteOf(w, 1),
               if k == 2 then b else ByteOf(w, 2), if k == 3 then b else ByteOf(w, 3));
  }

  // ---- Physical bytes ----

  function PhysByte(mem: seq<Frame>, p: Word): Byte
    requires |mem| == FRAMES_OF_ADDRESS_SPACE
  {
    ByteOf(Load(mem, FrameOf(p), Offset(p) / 4), p % 4)
  }

  function StoreByte(mem: seq<Frame>, p: Word, b: Byte): (r: seq<Frame>)
    requires |mem| == FRAMES_OF_ADDRESS_SPACE
    ensures |r| == |mem|
  {
    Store(mem, FrameOf(p), Offset(p) / 4, WithByte(Load(mem, FrameOf(p), Offset(p) / 4), p % 4, b))
  }

  lemma SamePhysical(p: Word, q: Word)
    requires FrameOf(p) == FrameOf(q) && Offset(p) / 4 == Offset(q) / 4 && p % 4 == q % 4
    ensures p == q
  {
    OffsetParts(p);
    OffsetParts(q);
  }

  /** An address is its frame, its word within the frame and its byte within the word. */
  lemma OffsetParts(p: Word)
    ensures p == FrameOf(p) * FRAME_SIZE + Offset(p) / 4 * 4 + p % 4
  {
    var o := Offset(p);
    assert p == 4 * (FrameOf(p) * 1024) + o;
    assert p % 4 == o % 4;
  }

  lemma StoreByteBytes(mem: seq<Frame>, p: Word, b: Byte, q: Word)
    requires |mem| == FRAMES_OF_ADDRESS_SPACE
    ensures PhysByte(StoreByte(mem, p, b), q) == if q == p then b else PhysByte(mem, q)
  {
    if FrameOf(p) == FrameOf(q) && Offset(p) / 4 == Offset(q) / 4 && p % 4 == q % 4 { SamePhysical(p, q); }
    WithByteBytes(Load(mem, FrameOf(p), Offset(p) / 4), p % 4, b, q % 4);
  }

  // ---- Virtual bytes ----

  /** What a load from `v` returns; None is a page fault. */
  function ReadByte(m: Machine, v: Word): Option<Byte>
    requires Shape(m)
  {
    match Walk(m, v) case None => None case Some(p) => Some(PhysByte(m.mem, p))
  }

  /** A store to a mapped address. */
  function WriteByte(m: Machine, v: Word, b: Byte): (r: Machine)
    requires Shape(m) && Walk(m, v).Some?
    ensures Shape(r)
  {
    Machine(StoreByte(m.mem, Walk(m, v).value, b), m.cr3, m.pmm)
  }

  /** Storing into a frame that is no table translates nothing differently and changes exactly the bytes
      that share the physical address. */
  lemma WriteByteReads(m: Machine, v: Word, b: Byte)
    requires WellFormed(m) && Walk(m, v).Some?
    requires FrameOf(Walk(m, v).value) != Dir(m) && !IsTable(m, FrameOf(Walk(m, v).value))
    ensures var m1 := WriteByte(m, v, b);
      && WellFormed(m1) && m1.cr3 == m.cr3 && m1.pmm == m.pmm
      && (forall i :: 0 <= i < ENTRIES ==> Load(m1.mem, Dir(m), i) == Load(m.mem, Dir(m), i))
      && (forall w: Word :: Walk(m1, w) == Walk(m, w))
      && (forall w: Word :: MayWrite(m1, w) == MayWrite(m, w) && MayUse(m1, w) == MayUse(m, w))
      && (forall w: Word :: ReadByte(m1, w) == if Walk(m, w) == Walk(m, v) then Some(b) else ReadByte(m, w))
  {
    hide Walk, StoreByte, PhysByte;
    WriteByteWalks(m, v, b);
    forall w: Word
      ensures ReadByte(WriteByte(m, v, b), w) == if Walk(m, w) == Walk(m, v) then Some(b) else ReadByte(m, w)
    {
      if Walk(m, w).Some? { StoreByteBytes(m.mem, Walk(m, v).value, b, Walk(m, w).value); }
    }
  }

  lemma WriteByteWalks(m: Machine, v: Word, b: Byte)
    requires WellFormed(m) && Walk(m, v).Some?
    requires FrameOf(Walk(m, v).value) != Dir(m) && !IsTable(m, FrameOf(Walk(m, v).value))
    ensures var m1 := WriteByte(m, v, b);
      && WellFormed(m1)
      && (forall i :: 0 <= i < ENTRIES ==> Load(m1.mem, Dir(m), i) == Load(m.mem, Dir(m), i))
      && (forall w: Word :: Walk(m1, w) == Walk(m, w))
      && (forall w: Word :: MayWrite(m1, w) == MayWrite(m, w) && MayUse(m1, w) == MayUse(m, w))
  {
    hide WithByte, ByteOf;
    var m1 := WriteByte(m, v, b);
    assert forall i :: 0 <= i < ENTRIES ==> Load(m1.mem, Dir(m), i) == Load(m.mem, Dir(m), i);
    forall w: Word
      ensures Walk(m1, w) == Walk(m, w) && MayWrite(m1, w) == MayWrite(m, w) && MayUse(m1, w) == MayUse(m, w)
    {
      if Present(Pde(m, w)) { TableOf(m, w); }
    }
  }

  // ---- A set of loaded pages ----

  /** Page `page` is mapped onto a frame of its own, which the user may read and write. */
  ghost predicate Backed(m: Machine, page: nat)
    requires Shape(m)
  {
    && page < USER_PAGES && Walk(m, PageBase(page)).Some? && Held(m, FrameOf(Walk(m, PageBase(page)).value))
    && MayUse(m, PageBase(page)) && MayWrite(m, PageBase(page))
  }

  ghost function FrameOfPage(m: Machine, page: nat): nat
    requires Shape(m) && Backed(m, page)
  {
    FrameOf(Walk(m, PageBase(page)).value)
  }

  /** The address space holds `image` on the given pages, each on a different frame. */
  ghost predicate Holds(m: Machine, pages: set<nat>, image: Word -> Byte) {
    && WellFormed(m) && TablesDistinct(m, 0, USER_ENTRIES)
    && (forall p :: p in pages ==> Backed(m, p))
    && (forall p, q :: p in pages && q in pages && p != q ==> FrameOfPage(m, p) != FrameOfPage(m, q))
    && (forall v: Word :: PageOf(v) in pages ==> ReadByte(m, v) == Some(image(v)))
  }

  /** Every address of a page is translated like its base. */
  lemma WalkInPage(m: Machine, v: Word)
    requires Shape(m)
    ensures Walk(m, v).Some? <==> Walk(m, PageBase(PageOf(v))).Some?
    ensures Walk(m, v).Some? ==>
      Walk(m, v).value == FrameOf(Walk(m, PageBase(PageOf(v))).value) * FRAME_SIZE + Offset(v)
  {
    SameIndices(v);
  }

  lemma SameIndices(v: Word)
    ensures var b := PageBase(PageOf(v)); DirIndex(b) == DirIndex(v) && TableIndex(b) == TableIndex(v) && Offset(b) == 0
  {
  }

  /** Two user pages never share a table slot. */
  lemma UserSlotsApart(m: Machine, p: nat, q: nat)
    requires Shape(m) && TablesDistinct(m, 0, USER_ENTRIES) && p < USER_PAGES && q < USER_PAGES && p != q
    ensures !SameSlot(m, PageBase(p), PageBase(q))
  {
    PageIndices(p);
    PageIndices(q);
  }

  lemma PageIndices(p: nat)
    requires p < USER_PAGES
    ensures DirIndex(PageBase(p)) == p / ENTRIES < USER_ENTRIES && TableIndex(PageBase(p)) == p % ENTRIES
  {
  }

  function Updated(image: Word -> Byte, v: Word, b: Byte): Word -> Byte {
    (a: Word) => if a == v then b else image(a)
  }

  /** A store into a loaded page updates the image at that address alone. */
  lemma StoreHolds(m: Machine, pages: set<nat>, image: Word -> Byte, v: Word, b: Byte)
    requires Holds(m, pages, image) && PageOf(v) in pages
    ensures Walk(m, v).Some?
    ensures Holds(WriteByte(m, v, b), pages, Updated(image, v, b))
    ensures forall g :: Held(m, g) ==> Held(WriteByte(m, v, b), g)
  {
    hide Walk, StoreByte, PhysByte, ReadByte;
    WalkInPage(m, v);
    var f := FrameOfPage(m, PageOf(v));
    assert FrameOf(Walk(m, v).value) == f;
    WriteByteReads(m, v, b);
    var m1 := WriteByte(m, v, b);
    SameTables(m, m1);
    forall w: Word | PageOf(w) in pages
      ensures ReadByte(m1, w) == Some(if w == v then b else image(w))
    {
      WalkInPage(m, w);
      if Walk(m, w) == Walk(m, v) {
        SameFrameSamePage(m, pages, image, v, w);
      }
    }
  }

  lemma SameFrameSamePage(m: Machine, pages: set<nat>, image: Word -> Byte, v: Word, w: Word)
    requires Holds(m, pages, image) && PageOf(v) in pages && PageOf(w) in pages && Walk(m, v) == Walk(m, w)
    ensures v == w
  {
    WalkInPage(m, v);
    WalkInPage(m, w);
    assert FrameOf(Walk(m, v).value) == FrameOfPage(m, PageOf(v));
    assert FrameOf(Walk(m, w).value) == FrameOfPage(m, PageOf(w));
    assert v == PageOf(v) * FRAME_SIZE + Offset(v) && w == PageOf(w) * FRAME_SIZE + Offset(w);
  }

  /** Mapping a user page onto a newly allocated frame keeps every other loaded page and its bytes. */
  lemma MapFreshHolds(m: Machine, pages: set<nat>, image: Word -> Byte, page: nat, flags: Word)
    requires Holds(m, pages, image) && page < USER_PAGES && page !in pages
    requires AllocFrame(m.pmm).1 != 0 && MapFresh(m, page, flags).1 == 0 && UserFlag(flags) && Writable(flags)
    ensures var m1 := MapFresh(m, page, flags).0;
      && Holds(m1, pages, image) && Backed(m1, page)
      && (forall p :: p in pages ==> FrameOfPage(m1, p) != FrameOfPage(m1, page))
  {
    hide MapFresh, Map, AllocFrame, Walk, ReadByte, SameSlot;
    var f := FrameOf(AllocFrame(m.pmm).1);
    var m1 := MapFresh(m, page, flags).0;
    MapFreshWalks(m, page, flags);
    forall p | p in pages
      ensures Walk(m1, PageBase(p)) == Walk(m, PageBase(p))
      ensures Backed(m1, p) && FrameOfPage(m1, p) == FrameOfPage(m, p) != f
    {
      UserSlotsApart(m1, page, p);
    }
    forall w: Word | PageOf(w) in pages ensures ReadByte(m1, w) == Some(image(w)) {
      MapFreshBytes(m, page, flags, w);
    }
  }

  lemma MapFreshWalks(m: Machine, page: nat, flags: Word)
    requires WellFormed(m) && TablesDistinct(m, 0, USER_ENTRIES) && page < USER_PAGES
    requires AllocFrame(m.pmm).1 != 0 && MapFresh(m, page, flags).1 == 0 && UserFlag(flags) && Writable(flags)
    ensures var m1, f := MapFresh(m, page, flags).0, FrameOf(AllocFrame(m.pmm).1);
      && WellFormed(m1) && TablesDistinct(m1, 0, USER_ENTRIES)
      && Backed(m1, page) && FrameOfPage(m1, page) == f && !Held(m, f)
      && (forall g :: Held(m, g) ==> Held(m1, g))
      && (forall w: Word :: !SameSlot(m1, PageBase(page), w) ==>
           && Walk(m1, w) == Walk(m, w)
           && (MayWrite(m, w) ==> MayWrite(m1, w)) && (MayUse(m, w) ==> MayUse(m1, w)))
  {
    hide Map, AllocFrame, Walk, MayWrite, MayUse;
    AllocFrameHolds(m);
    AllocFrameRights(m);
    MapGrants(Allocated(m), PageBase(page), AllocFrame(m.pmm).1, flags);
    MapTranslates(Allocated(m), PageBase(page), AllocFrame(m.pmm).1, flags);
    MapHolds(Allocated(m), PageBase(page), AllocFrame(m.pmm).1, flags);
    SameIndices(PageBase(page));
  }

  lemma AllocFrameRights(m: Machine)
    requires Shape(m)
    ensures forall w: Word :: MayWrite(Allocated(m), w) == MayWrite(m, w) && MayUse(Allocated(m), w) == MayUse(m, w)
  {
  }

  lemma MapFreshBytes(m: Machine, page: nat, flags: Word, w: Word)
    requires WellFormed(m) && page < USER_PAGES && AllocFrame(m.pmm).1 != 0
    requires Backed(m, PageOf(w))
    requires Walk(MapFresh(m, page, flags).0, PageBase(PageOf(w))) == Walk(m, PageBase(PageOf(w)))
    ensures ReadByte(MapFresh(m, page, flags).0, w) == ReadByte(m, w)
  {
    hide Map, AllocFrame, Walk;
    var f := FrameOfPage(m, PageOf(w));
    AllocFrameHolds(m);
    WalkInPage(m, w);
    WalkInPage(MapFresh(m, page, flags).0, w);
    MapKeepsHeldFrames(Allocated(m), PageBase(page), AllocFrame(m.pmm).1, flags, f);
    FrameOfSum(f, Offset(w));
  }

  lemma FrameOfSum(f: nat, o: nat)
    requires f < FRAMES_OF_ADDRESS_SPACE && o < FRAME_SIZE
    ensures FrameOf(f * FRAME_SIZE + o) == f && Offset(f * FRAME_SIZE + o) == o
  {
  }
}
