/** The loader's own code: frames are allocated, mapped, cleared and filled through virtual addresses. */
module ElfCode {
  import opened Basics
  import opened Frames
  import opened Paging
  import opened PagingCode
  import opened PagingRuns
  import opened FrameBudget
  import opened UserMemory
  import opened ElfImage
  import opened SameSpace

  // ---- Which pages have been mapped so far ----

  /** Since `start` the pages `done` have been mapped in this order, each onto a fresh frame; beyond that only
      the contents of pages have changed. */
  ghost predicate Tracks(start: Machine, done: seq<nat>, m: Machine) {
    && Shape(start) && PagesExist(done) && MapAll(start, done, USER_RW).1
    && Alike(m, MapAll(start, done, USER_RW).0)
  }

  lemma TracksNothing(m: Machine)
    requires Shape(m)
    ensures Tracks(m, [], m)
  {
  }

  lemma TracksStore(start: Machine, done: seq<nat>, m: Machine, pages: set<nat>, image: Image, v: Word, b: Byte)
    requires Tracks(start, done, m) && Holds(m, pages, image) && PageOf(v) in pages
    ensures Walk(m, v).Some? && Tracks(start, done, WriteByte(m, v, b))
  {
    hide Walk, WriteByte, MapAll;
    WalkInPage(m, v);
    var f := FrameOfPage(m, PageOf(v));
    FrameOfSum(f, Offset(v));
    SameAfterWrite(m, MapAll(start, done, USER_RW).0, v, b);
  }

  /** One page more: the outcome is that of mapping the list. */
  lemma TracksPage(start: Machine, done: seq<nat>, m: Machine, page: nat)
    requires Tracks(start, done, m) && WellFormed(m) && page < USER_PAGES
    ensures PagesExist(done + [page])
    ensures MapAll(start, done + [page], USER_RW).1
            <==> AllocFrame(m.pmm).1 != 0 && MapFresh(m, page, USER_RW).1 == 0
    ensures AllocFrame(m.pmm).1 != 0 && MapFresh(m, page, USER_RW).1 == 0
            ==> Tracks(start, done + [page], MapFresh(m, page, USER_RW).0)
  {
    hide AllocFrame, MapFresh, MapAll;
    MapAllStep(start, done, page, USER_RW);
    SameMapFresh(m, MapAll(start, done, USER_RW).0, page, USER_RW);
  }

  /** The machine is that on which the pages were mapped up to the first failure: a missing frame, or else a
      missing table. */
  ghost predicate Stops(start: Machine, pages: seq<nat>, k: nat, m: Machine, noFrame: bool) {
    && Shape(start) && PagesExist(pages) && k < |pages|
    && MapAll(start, pages[..k], USER_RW).1 && !MapAll(start, pages[..k + 1], USER_RW).1
    && (noFrame <==> AllocFrame(MapAll(start, pages[..k], USER_RW).0.pmm).1 == 0)
    && Alike(m, LeftAt(start, pages, k, USER_RW))
  }

  ghost predicate Stopped(start: Machine, pages: seq<nat>, m: Machine, noFrame: bool) {
    exists k: nat :: Stops(start, pages, k, m, noFrame)
  }

  /** Pages that are never reached make no difference. */
  lemma StopsBefore(start: Machine, pages: seq<nat>, more: seq<nat>, m: Machine, noFrame: bool)
    requires Stopped(start, pages, m, noFrame) && PagesExist(more)
    ensures PagesExist(pages + more) && Stopped(start, pages + more, m, noFrame)
  {
    hide MapAll, AllocFrame, Alike;
    var k: nat :| Stops(start, pages, k, m, noFrame);
    assert (pages + more)[..k] == pages[..k] && (pages + more)[..k + 1] == pages[..k + 1];
    assert Stops(start, pages + more, k, m, noFrame);
  }

  lemma StopsAtPage(start: Machine, done: seq<nat>, page: nat, m: Machine, noFrame: bool)
    requires Shape(start) && PagesExist(done) && page < FRAMES_OF_ADDRESS_SPACE
    requires MapAll(start, done, USER_RW).1 && !MapAll(start, done + [page], USER_RW).1
    requires noFrame <==> AllocFrame(MapAll(start, done, USER_RW).0.pmm).1 == 0
    requires var m1 := MapAll(start, done, USER_RW).0; Alike(m, if noFrame then m1 else Allocated(m1))
    ensures PagesExist(done + [page]) && Stopped(start, done + [page], m, noFrame)
  {
    hide MapAll, AllocFrame, Alike;
    var pages := done + [page];
    assert pages[..|done|] == done && pages[..|done| + 1] == pages;
    assert Stops(start, pages, |done|, m, noFrame);
  }

  /** What a failed load leaves, in terms of the memory before it. */
  lemma StoppedLeaves(start: Machine, pages: seq<nat>, m: Machine, noFrame: bool)
    requires WellFormed(start) && Stopped(start, pages, m, noFrame)
    ensures PagesExist(pages) && Fitting(start, pages) < |pages|
    ensures Alike(m, LeftBehind(start, pages, USER_RW))
    ensures noFrame <==> start.pmm.free == Fitting(start, pages) + TablesNeeded(start, pages[..Fitting(start, pages)])
  {
    hide MapAll, AllocFrame, Alike, Fitting, LeftAt;
    var k: nat :| Stops(start, pages, k, m, noFrame);
    StopsWhereItFits(start, pages, k, USER_RW);
  }

  /** A failure within the first part of a list stops there. */
  lemma StoppedInside(start: Machine, pages: seq<nat>, more: seq<nat>, m: Machine, noFrame: bool)
    requires WellFormed(start) && Stopped(start, pages, m, noFrame) && PagesExist(more)
    ensures PagesExist(pages + more) && Fitting(start, pages + more) < |pages|
    ensures Alike(m, LeftBehind(start, pages + more, USER_RW))
  {
    hide MapAll, AllocFrame, Alike, Fitting, LeftAt;
    var k: nat :| Stops(start, pages, k, m, noFrame);
    var all := pages + more;
    assert all[..k] == pages[..k] && all[..k + 1] == pages[..k + 1];
    StopsWhereItFits(start, all, k, USER_RW);
    StopsBefore(start, pages, more, m, noFrame);
    StoppedLeaves(start, all, m, noFrame);
  }

  // ---- One page ----

  /** The processor's byte store: the address is translated through the tables in memory. */
  method StoreVirtual(mmu: Mmu, v: Word, b: Byte)
    requires mmu.Valid() && Walk(mmu.View(), v).Some?
    modifies mmu.mem
    ensures mmu.Valid() && mmu.View() == WriteByte(old(mmu.View()), v, b)
  {
    var p := mmu.VmmResolve(v);
    var w := mmu.ReadWord(p / FRAME_SIZE, p % FRAME_SIZE / 4);
    mmu.WriteWord(p / FRAME_SIZE, p % FRAME_SIZE / 4, WithByte(w, p % 4, b));
  }

  /** The bytes that a freshly mapped page happens to hold, beside the image so far. */
  ghost function Snapshot(m: Machine, page: nat, image: Image): Image
    requires Shape(m)
  {
    (v: Word) => if PageOf(v) == page && ReadByte(m, v).Some? then ReadByte(m, v).value else image(v)
  }

  lemma AddBacked(m: Machine, pages: set<nat>, image: Image, page: nat)
    requires Holds(m, pages, image) && Backed(m, page) && page !in pages
    requires forall p :: p in pages ==> FrameOfPage(m, p) != FrameOfPage(m, page)
    ensures Holds(m, pages + {page}, Snapshot(m, page, image))
  {
    hide Walk, Held, PhysByte;
    forall v: Word | PageOf(v) == page ensures ReadByte(m, v).Some? {
      WalkInPage(m, v);
    }
  }

  lemma FreshPageHolds(m: Machine, pages: set<nat>, image: Image, page: nat)
    requires Holds(m, pages, image) && page < USER_PAGES && page !in pages
    requires AllocFrame(m.pmm).1 != 0 && MapFresh(m, page, USER_RW).1 == 0
    ensures var m1 := MapFresh(m, page, USER_RW).0; Holds(m1, pages + {page}, Snapshot(m1, page, image))
  {
    HoldsSound(m, pages, image);
    hide Holds, MapFresh, AllocFrame;
    MapFreshHolds(m, pages, image, page, USER_RW);
    AddBacked(MapFresh(m, page, USER_RW).0, pages, image, page);
  }

  /** Only the bytes of the listed pages matter. */
  lemma SameImage(m: Machine, pages: set<nat>, image: Image, image': Image)
    requires Holds(m, pages, image)
    requires forall v: Word :: PageOf(v) in pages ==> image(v) == image'(v)
    ensures Holds(m, pages, image')
  {
  }

  lemma FewerPages(m: Machine, pages: set<nat>, fewer: set<nat>, image: Image)
    requires Holds(m, pages, image) && fewer <= pages
    ensures Holds(m, fewer, image)
  {
  }

  /** The image with page `page` cleared up to offset `n`. */
  function ClearedUpTo(image: Image, page: nat, n: nat): Image {
    (v: Word) => if PageOf(v) == page && Offset(v) < n then 0 else image(v)
  }

  /** Allocate a frame and map user page `page` onto it. */
  method MapFreshPage(mmu: Mmu, page: nat, ghost pages: set<nat>, ghost image: Image,
                      ghost start: Machine, ghost done: seq<nat>) returns (r: int)
    requires mmu.Valid() && page < USER_PAGES && page !in pages && Holds(mmu.View(), pages, image)
    requires Tracks(start, done, mmu.View())
    modifies mmu.mem, mmu.allocator, mmu.allocator.bitmap
    ensures mmu.Valid() && PagesExist(done + [page])
    ensures r == 0 || r == -1 || r == -2
    ensures r == 0 <==> MapAll(start, done + [page], USER_RW).1
    ensures r == 0 ==>
      && Holds(mmu.View(), pages + {page}, Snapshot(mmu.View(), page, image))
      && Tracks(start, done + [page], mmu.View())
    ensures r != 0 ==> WellFormed(mmu.View()) && Stopped(start, done + [page], mmu.View(), r == -1)
  {
    HoldsSound(mmu.View(), pages, image);
    hide Map, AllocFrame, Tracks, MapAll, Stopped, Alike, Holds;
    ghost var m := mmu.View();
    AllocFrameHolds(m);
    TracksShape(start, done, m);
    TracksPage(start, done, m, page);
    ghost var m1 := MapAll(start, done, USER_RW).0;
    SameAllocated(m, m1);
    var phys := mmu.allocator.PmmAllocFrame();
    if phys == 0 {
      AllocFails(m);
      StopsAtPage(start, done, page, mmu.View(), true);
      return -1;
    }
    MapTranslates(Allocated(m), PageBase(page), phys, USER_RW);
    var mapped := mmu.VmmMap(page * FRAME_SIZE, phys, USER_RW);
    if mapped != 0 {
      StopsAtPage(start, done, page, mmu.View(), false);
      return -2;
    }
    FreshPageHolds(m, pages, image, page);
    return 0;
  }

  lemma TracksShape(start: Machine, done: seq<nat>, m: Machine)
    requires Tracks(start, done, m)
    ensures Shape(start) && PagesExist(done) && MapAll(start, done, USER_RW).1
    ensures Alike(m, MapAll(start, done, USER_RW).0)
  {
  }

  /** Map one user page onto a fresh zeroed frame, whether or not it was mapped before. */
  method MapZeroPage(mmu: Mmu, page: nat, ghost pages: set<nat>, ghost image: Image,
                     ghost start: Machine, ghost done: seq<nat>) returns (r: int)
    requires mmu.Valid() && page < USER_PAGES && Holds(mmu.View(), pages, image)
    requires Tracks(start, done, mmu.View())
    modifies mmu.mem, mmu.allocator, mmu.allocator.bitmap
    ensures mmu.Valid() && Shape(start) && PagesExist(done + [page])
    ensures r == 0 || r == -1 || r == -2
    ensures r == 0 <==> MapAll(start, done + [page], USER_RW).1
    ensures r == 0 ==>
      && Holds(mmu.View(), pages + {page}, ClearedUpTo(image, page, FRAME_SIZE))
      && Tracks(start, done + [page], mmu.View())
    ensures r != 0 ==> WellFormed(mmu.View()) && Stopped(start, done + [page], mmu.View(), r == -1)
  {
    hide Holds, Tracks, MapAll, Stopped;
    TracksShape(start, done, mmu.View());
    ghost var rest := pages - {page};
    FewerPages(mmu.View(), pages, rest, image);
    r := MapFreshPage(mmu, page, rest, image, start, done);
    if r != 0 { return; }
    assert rest + {page} == pages + {page};
    label Mapped:
    ghost var snapshot := Snapshot(mmu.View(), page, image);
    ZeroPage(mmu, page, pages + {page}, snapshot, start, done + [page]);
    SnapshotCleared(old@Mapped(mmu.View()), page, image);
    SameImage(mmu.View(), pages + {page}, ClearedUpTo(snapshot, page, FRAME_SIZE),
      ClearedUpTo(image, page, FRAME_SIZE));
  }

  lemma SnapshotCleared(m: Machine, page: nat, image: Image)
    requires Shape(m)
    ensures forall v: Word ::
      ClearedUpTo(Snapshot(m, page, image), page, FRAME_SIZE)(v) == ClearedUpTo(image, page, FRAME_SIZE)(v)
  {
    forall v: Word
      ensures ClearedUpTo(Snapshot(m, page, image), page, FRAME_SIZE)(v) == ClearedUpTo(image, page, FRAME_SIZE)(v)
    {
      assert Offset(v) < FRAME_SIZE;
    }
  }

  method ZeroPage(mmu: Mmu, page: nat, ghost pages: set<nat>, ghost image: Image,
                  ghost start: Machine, ghost done: seq<nat>)
    requires mmu.Valid() && page < USER_PAGES && page in pages && Holds(mmu.View(), pages, image)
    requires Tracks(start, done, mmu.View())
    modifies mmu.mem
    ensures mmu.Valid() && Holds(mmu.View(), pages, ClearedUpTo(image, page, FRAME_SIZE))
    ensures Tracks(start, done, mmu.View())
  {
    hide Holds, WriteByte, Walk, Tracks;
    SameImage(mmu.View(), pages, image, ClearedUpTo(image, page, 0));
    for i := 0 to FRAME_SIZE
      invariant mmu.Valid() && Holds(mmu.View(), pages, ClearedUpTo(image, page, i))
      invariant Tracks(start, done, mmu.View())
    {
      var v := page * FRAME_SIZE + i;
      FrameOfSum(page, i);
      TracksStore(start, done, mmu.View(), pages, ClearedUpTo(image, page, i), v, 0);
      StoreHolds(mmu.View(), pages, ClearedUpTo(image, page, i), v, 0);
      StoreVirtual(mmu, v, 0);
      ClearStep(mmu.View(), pages, image, page, i);
    }
  }

  lemma ClearStep(m: Machine, pages: set<nat>, image: Image, page: nat, i: nat)
    requires page < USER_PAGES && i < FRAME_SIZE
    requires Holds(m, pages, Updated(ClearedUpTo(image, page, i), page * FRAME_SIZE + i, 0))
    ensures Holds(m, pages, ClearedUpTo(image, page, i + 1))
  {
    var before := Updated(ClearedUpTo(image, page, i), page * FRAME_SIZE + i, 0);
    FrameOfSum(page, i);
    forall v: Word ensures before(v) == ClearedUpTo(image, page, i + 1)(v) {
      SplitAddress(v, page * FRAME_SIZE + i);
    }
    SameImage(m, pages, before, ClearedUpTo(image, page, i + 1));
  }

  /** An address is determined by its page and offset. */
  lemma SplitAddress(v: Word, w: Word)
    ensures PageOf(v) == PageOf(w) && Offset(v) == Offset(w) ==> v == w
  {
    assert v == PageOf(v) * FRAME_SIZE + Offset(v) && w == PageOf(w) * FRAME_SIZE + Offset(w);
  }

  function ClearedPages(image: Image, lo: nat, hi: nat): Image {
    (v: Word) => if lo <= PageOf(v) < hi then 0 else image(v)
  }

  /** The image with the first `n` bytes of `src` copied to `va`. */
  function CopiedUpTo(image: Image, va: nat, src: seq<Byte>, n: nat): Image
    requires n <= |src|
  {
    (v: Word) => if va <= v < va + n then src[v - va] else image(v)
  }

  lemma ClearOneMore(m: Machine, pages: set<nat>, image: Image, lo: nat, page: nat)
    requires lo <= page
    requires Holds(m, pages + PageRun(lo, page) + {page}, ClearedUpTo(ClearedPages(image, lo, page), page, FRAME_SIZE))
    ensures Holds(m, pages + PageRun(lo, page + 1), ClearedPages(image, lo, page + 1))
  {
    hide Holds, PageRun;
    NextPage(lo, page);
    forall v: Word
      ensures ClearedUpTo(ClearedPages(image, lo, page), page, FRAME_SIZE)(v) == ClearedPages(image, lo, page + 1)(v)
    {
      assert Offset(v) < FRAME_SIZE;
    }
    assert pages + PageRun(lo, page + 1) == pages + PageRun(lo, page) + {page};
    SameImage(m, pages + PageRun(lo, page + 1), ClearedUpTo(ClearedPages(image, lo, page), page, FRAME_SIZE),
              ClearedPages(image, lo, page + 1));
  }

  lemma NextPage(lo: nat, page: nat)
    requires lo <= page
    ensures PageRun(lo, page + 1) == PageRun(lo, page) + {page}
  {
    assert Between(lo, page, page + 1);
    forall p: nat ensures p in PageRun(lo, page + 1) <==> p in PageRun(lo, page) + {page} {
      assert Between(lo, p, page + 1) <==> Between(lo, p, page) || p == page;
    }
  }

  /** Map and clear the pages lo..hi-1 in turn. */
  method ZeroPages(mmu: Mmu, lo: nat, hi: nat, ghost pages: set<nat>, ghost image: Image,
                   ghost start: Machine, ghost done: seq<nat>) returns (r: int)
    requires mmu.Valid() && lo <= hi <= USER_PAGES && Holds(mmu.View(), pages, image)
    requires Tracks(start, done, mmu.View())
    modifies mmu.mem, mmu.allocator, mmu.allocator.bitmap
    ensures mmu.Valid() && Shape(start) && PagesExist(done + Consecutive(lo, hi - lo))
    ensures r == 0 || r == -1 || r == -2
    ensures r == 0 <==> MapAll(start, done + Consecutive(lo, hi - lo), USER_RW).1
    ensures r == 0 ==>
      && Holds(mmu.View(), pages + PageRun(lo, hi), ClearedPages(image, lo, hi))
      && Tracks(start, done + Consecutive(lo, hi - lo), mmu.View())
    ensures r != 0 ==>
      WellFormed(mmu.View()) && Stopped(start, done + Consecutive(lo, hi - lo), mmu.View(), r == -1)
  {
    hide Holds, Tracks, MapAll, Stopped;
    TracksShape(start, done, mmu.View());
    assert pages + PageRun(lo, lo) == pages;
    assert done + Consecutive(lo, 0) == done;
    SameImage(mmu.View(), pages, image, ClearedPages(image, lo, lo));
    for page := lo to hi
      invariant mmu.Valid() && Holds(mmu.View(), pages + PageRun(lo, page), ClearedPages(image, lo, page))
      invariant Tracks(start, done + Consecutive(lo, page - lo), mmu.View())
    {
      ghost var before := done + Consecutive(lo, page - lo);
      r := MapZeroPage(mmu, page, pages + PageRun(lo, page), ClearedPages(image, lo, page), start, before);
      assert before + [page] == done + Consecutive(lo, page + 1 - lo);
      if r != 0 {
        ConsecutiveSplit(lo, page + 1 - lo, hi - page - 1);
        MiddleFails(start, done, Consecutive(lo, page + 1 - lo), Consecutive(page + 1, hi - page - 1),
                    mmu.View(), r == -1);
        return;
      }
      ClearOneMore(mmu.View(), pages, image, lo, page);
    }
    TracksShape(start, done + Consecutive(lo, hi - lo), mmu.View());
    return 0;
  }

  lemma MiddleFails(start: Machine, a: seq<nat>, b: seq<nat>, c: seq<nat>, m: Machine, noFrame: bool)
    requires Shape(start) && PagesExist(a) && PagesExist(b) && PagesExist(c) && !MapAll(start, a + b, USER_RW).1
    requires Stopped(start, a + b, m, noFrame)
    ensures PagesExist(a + (b + c)) && !MapAll(start, a + (b + c), USER_RW).1
    ensures Stopped(start, a + (b + c), m, noFrame)
  {
    hide MapAll, Stopped;
    assert a + b + c == a + (b + c);
    PrefixFails(start, a + b, c, USER_RW);
    StopsBefore(start, a + b, c, m, noFrame);
  }

  method CopyBytes(mmu: Mmu, va: nat, src: seq<Byte>, ghost pages: set<nat>, ghost image: Image,
                   ghost start: Machine, ghost done: seq<nat>)
    requires mmu.Valid() && va + |src| <= USER_LIMIT && Holds(mmu.View(), pages, image)
    requires forall v: Word :: va <= v < va + |src| ==> PageOf(v) in pages
    requires Tracks(start, done, mmu.View())
    modifies mmu.mem
    ensures mmu.Valid() && Holds(mmu.View(), pages, CopiedUpTo(image, va, src, |src|))
    ensures Tracks(start, done, mmu.View())
  {
    hide Holds, WriteByte, Walk, Tracks;
    SameImage(mmu.View(), pages, image, CopiedUpTo(image, va, src, 0));
    for i := 0 to |src|
      invariant mmu.Valid() && Holds(mmu.View(), pages, CopiedUpTo(image, va, src, i))
      invariant Tracks(start, done, mmu.View())
    {
      TracksStore(start, done, mmu.View(), pages, CopiedUpTo(image, va, src, i), va + i, src[i]);
      StoreHolds(mmu.View(), pages, CopiedUpTo(image, va, src, i), va + i, src[i]);
      StoreVirtual(mmu, va + i, src[i]);
      CopyStep(mmu.View(), pages, image, va, src, i);
    }
  }

  lemma CopyStep(m: Machine, pages: set<nat>, image: Image, va: nat, src: seq<Byte>, i: nat)
    requires i < |src| && va + |src| <= USER_LIMIT
    requires Holds(m, pages, Updated(CopiedUpTo(image, va, src, i), va + i, src[i]))
    ensures Holds(m, pages, CopiedUpTo(image, va, src, i + 1))
  {
    hide Holds;
    SameImage(m, pages, Updated(CopiedUpTo(image, va, src, i), va + i, src[i]), CopiedUpTo(image, va, src, i + 1));
  }

  /** map_user_range: 0, or -1 without a frame, -2 without a table. On success the address space holds the
      image with the range's pages cleared and `src` copied in, and everything it held before elsewhere. */
  method MapUserRange(mmu: Mmu, va: Word, size: Word, src: seq<Byte>, ghost pages: set<nat>, ghost image: Image,
                      ghost start: Machine, ghost done: seq<nat>) returns (r: int)
    requires mmu.Valid() && Holds(mmu.View(), pages, image)
    requires |src| <= size && va + size <= USER_LIMIT
    requires Tracks(start, done, mmu.View())
    modifies mmu.mem, mmu.allocator, mmu.allocator.bitmap
    ensures mmu.Valid() && Shape(start) && PagesExist(done + SegmentPages(va, size))
    ensures r == 0 || r == -1 || r == -2
    ensures r == 0 <==> MapAll(start, done + SegmentPages(va, size), USER_RW).1
    ensures r == 0 ==>
      && Holds(mmu.View(), pages + Touched(va, size), Loaded(image, va, size, src))
      && Tracks(start, done + SegmentPages(va, size), mmu.View())
    ensures r != 0 ==> WellFormed(mmu.View()) && Stopped(start, done + SegmentPages(va, size), mmu.View(), r == -1)
  {
    hide Holds, Tracks, MapAll, Stopped;
    var first, end := va / FRAME_SIZE, (va + size + FRAME_SIZE - 1) / FRAME_SIZE;
    r := ZeroPages(mmu, first, end, pages, image, start, done);
    if r != 0 { return; }
    assert PageRun(first, end) == Touched(va, size);
    ghost var all := pages + Touched(va, size);
    forall v: Word | va <= v < va + |src| ensures PageOf(v) in all {
      if PageOf(v) !in Touched(va, size) { OutsideSegment(va, size, |src|, v); }
    }
    CopyBytes(mmu, va, src, all, ClearedPages(image, first, end), start, done + SegmentPages(va, size));
    SameImage(mmu.View(), all, CopiedUpTo(ClearedPages(image, first, end), va, src, |src|),
      Loaded(image, va, size, src));
  }

  /** The program-header loop: -20 when a segment cannot be mapped. */
  method LoadSegments(mmu: Mmu, bytes: seq<Byte>, ghost pages: set<nat>, ghost image: Image, ghost start: Machine)
    returns (r: int, firstVaddr: Word)
    requires mmu.Valid() && Holds(mmu.View(), pages, image) && ValidFile(bytes) && Tracks(start, [], mmu.View())
    modifies mmu.mem, mmu.allocator, mmu.allocator.bitmap
    ensures mmu.Valid() && Shape(start) && (r == 0 || r == -20)
    ensures var ss := Segments(bytes, PhdrCount(bytes));
      && AllPlaced(bytes, ss) && (r == 0 <==> MapAll(start, LoadedPages(bytes, ss), USER_RW).1)
      && (r == 0 ==>
            && firstVaddr == FirstVaddr(ss)
            && Holds(mmu.View(), pages + PagesOf(ss), LoadedAll(image, bytes, ss))
            && Tracks(start, LoadedPages(bytes, ss), mmu.View()))
      && (r != 0 ==> exists b :: Stopped(start, LoadedPages(bytes, ss), mmu.View(), b))
  {
    hide Holds, LoadedAll, PagesOf, Segments, FirstVaddr, Touched, Loaded, PhdrAt, PhdrCount, SegmentAt;
    hide Tracks, MapAll, LoadedPages, Stopped;
    firstVaddr := 0;
    TracksShape(start, [], mmu.View());
    NoSegments(bytes, image);
    AllSegmentsPlaced(bytes, PhdrCount(bytes));
    ghost var ss: seq<Segment> := [];
    assert pages + {} == pages;
    for i := 0 to PhdrCount(bytes)
      invariant mmu.Valid() && ss == Segments(bytes, i) && AllPlaced(bytes, ss) && firstVaddr == FirstVaddr(ss)
      invariant Holds(mmu.View(), pages + PagesOf(ss), LoadedAll(image, bytes, ss))
      invariant Tracks(start, LoadedPages(bytes, ss), mmu.View())
    {
      var s := SegmentAt(bytes, i);
      NextSegment(bytes, i, image);
      if s.kind == PT_LOAD && s.memsz != 0 {
        r := LoadSegment(mmu, bytes, s, ss, pages, image, start);
        if r != 0 {
          LaterSegmentsFail(start, bytes, i + 1, PhdrCount(bytes), mmu.View());
          return r, firstVaddr;
        }
        if firstVaddr == 0 { firstVaddr := s.vaddr; }
        ss := ss + [s];
      }
    }
    TracksShape(start, LoadedPages(bytes, ss), mmu.View());
    r := 0;
  }

  /** One loadable segment behind those of `ss`. */
  method LoadSegment(mmu: Mmu, bytes: seq<Byte>, s: Segment, ghost ss: seq<Segment>,
                     ghost pages: set<nat>, ghost image: Image, ghost start: Machine) returns (r: int)
    requires mmu.Valid() && AllPlaced(bytes, ss) && Placed(bytes, s)
    requires Holds(mmu.View(), pages + PagesOf(ss), LoadedAll(image, bytes, ss))
    requires Tracks(start, LoadedPages(bytes, ss), mmu.View())
    modifies mmu.mem, mmu.allocator, mmu.allocator.bitmap
    ensures mmu.Valid() && Shape(start) && (r == 0 || r == -20) && AllPlaced(bytes, ss + [s])
    ensures r == 0 <==> MapAll(start, LoadedPages(bytes, ss + [s]), USER_RW).1
    ensures r == 0 ==>
      && Holds(mmu.View(), pages + PagesOf(ss + [s]), LoadedAll(image, bytes, ss + [s]))
      && Tracks(start, LoadedPages(bytes, ss + [s]), mmu.View())
    ensures r != 0 ==> exists b :: Stopped(start, LoadedPages(bytes, ss + [s]), mmu.View(), b)
  {
    hide Holds, LoadedAll, PagesOf, FirstVaddr, Touched, Loaded, Tracks, MapAll, LoadedPages, SegmentPages, Stopped;
    OneMoreSegment(bytes, ss, s, image);
    var code := MapUserRange(mmu, s.vaddr, s.memsz, bytes[s.offset..s.offset + s.filesz],
                             pages + PagesOf(ss), LoadedAll(image, bytes, ss), start, LoadedPages(bytes, ss));
    assert pages + PagesOf(ss) + Touched(s.vaddr, s.memsz) == pages + PagesOf(ss + [s]);
    return if code != 0 then -20 else 0;
  }

  lemma {:induction false} AllSegmentsPlaced(bytes: seq<Byte>, n: nat)
    requires ValidFile(bytes) && n <= PhdrCount(bytes)
    ensures AllPlaced(bytes, Segments(bytes, n))
  {
    hide SegmentAt, PhdrAt, PhdrCount;
    if n > 0 { AllSegmentsPlaced(bytes, n - 1); }
  }

  /** Segments that are never reached make no difference. */
  lemma {:induction false} LaterSegmentsFail(start: Machine, bytes: seq<Byte>, i: nat, n: nat, m: Machine)
    requires Shape(start) && ValidFile(bytes) && i <= n <= PhdrCount(bytes)
    requires AllPlaced(bytes, Segments(bytes, i)) && AllPlaced(bytes, Segments(bytes, n))
    requires !MapAll(start, LoadedPages(bytes, Segments(bytes, i)), USER_RW).1
    requires exists b :: Stopped(start, LoadedPages(bytes, Segments(bytes, i)), m, b)
    ensures !MapAll(start, LoadedPages(bytes, Segments(bytes, n)), USER_RW).1
    ensures exists b :: Stopped(start, LoadedPages(bytes, Segments(bytes, n)), m, b)
  {
    hide MapAll, SegmentAt, PhdrAt, PhdrCount, IsLoad, LoadedPages, SegmentPages, Stopped;
    if i < n {
      AllSegmentsPlaced(bytes, n - 1);
      LaterSegmentsFail(start, bytes, i, n - 1, m);
      var ss, s := Segments(bytes, n - 1), SegmentAt(bytes, n - 1);
      assert Segments(bytes, n) == if IsLoad(s) then ss + [s] else ss;
      if IsLoad(s) {
        MorePages(bytes, ss, s);
        PrefixFails(start, LoadedPages(bytes, ss), SegmentPages(s.vaddr, s.memsz), USER_RW);
        var b :| Stopped(start, LoadedPages(bytes, ss), m, b);
        StopsBefore(start, LoadedPages(bytes, ss), SegmentPages(s.vaddr, s.memsz), m, b);
      }
    }
  }

  lemma MorePages(bytes: seq<Byte>, ss: seq<Segment>, s: Segment)
    requires AllPlaced(bytes, ss) && AllPlaced(bytes, ss + [s])
    ensures Placed(bytes, s)
    ensures LoadedPages(bytes, ss + [s]) == LoadedPages(bytes, ss) + SegmentPages(s.vaddr, s.memsz)
  {
    assert (ss + [s])[|ss|] == s;
    assert (ss + [s])[..|ss|] == ss;
  }

  lemma NoSegments(bytes: seq<Byte>, image: Image)
    requires ValidFile(bytes)
    ensures Segments(bytes, 0) == [] && FirstVaddr([]) == 0 && PagesOf([]) == {} && LoadedAll(image, bytes, []) == image
    ensures LoadedPages(bytes, []) == []
  {
  }

  /** One more program header. */
  lemma NextSegment(bytes: seq<Byte>, i: nat, image: Image)
    requires ValidFile(bytes) && i < PhdrCount(bytes) && AllPlaced(bytes, Segments(bytes, i))
    ensures var s, ss := SegmentAt(bytes, i), Segments(bytes, i);
      if !IsLoad(s) then Segments(bytes, i + 1) == ss
      else
        && Segments(bytes, i + 1) == ss + [s] && AllPlaced(bytes, ss + [s])
        && FirstVaddr(ss + [s]) == (if FirstVaddr(ss) != 0 then FirstVaddr(ss) else s.vaddr)
        && PagesOf(ss + [s]) == PagesOf(ss) + Touched(s.vaddr, s.memsz)
        && LoadedPages(bytes, ss + [s]) == LoadedPages(bytes, ss) + SegmentPages(s.vaddr, s.memsz)
        && LoadedAll(image, bytes, ss + [s])
           == Loaded(LoadedAll(image, bytes, ss), s.vaddr, s.memsz, bytes[s.offset..s.offset + s.filesz])
  {
    if IsLoad(SegmentAt(bytes, i)) { OneMoreSegment(bytes, Segments(bytes, i), SegmentAt(bytes, i), image); }
  }

  lemma OneMoreSegment(bytes: seq<Byte>, ss: seq<Segment>, s: Segment, image: Image)
    requires AllPlaced(bytes, ss) && Placed(bytes, s)
    ensures AllPlaced(bytes, ss + [s])
    ensures FirstVaddr(ss + [s]) == (if FirstVaddr(ss) != 0 then FirstVaddr(ss) else s.vaddr)
    ensures PagesOf(ss + [s]) == PagesOf(ss) + Touched(s.vaddr, s.memsz)
    ensures LoadedPages(bytes, ss + [s]) == LoadedPages(bytes, ss) + SegmentPages(s.vaddr, s.memsz)
    ensures LoadedAll(image, bytes, ss + [s])
            == Loaded(LoadedAll(image, bytes, ss), s.vaddr, s.memsz, bytes[s.offset..s.offset + s.filesz])
  {
    assert (ss + [s])[..|ss|] == ss;
  }

  /** The user stack: four zeroed pages; -30 without a frame, -31 without a table. */
  method MapStack(mmu: Mmu, ghost pages: set<nat>, ghost image: Image, ghost start: Machine, ghost done: seq<nat>)
    returns (r: int)
    requires mmu.Valid() && Holds(mmu.View(), pages, image) && Tracks(start, done, mmu.View())
    modifies mmu.mem, mmu.allocator, mmu.allocator.bitmap
    ensures mmu.Valid() && Shape(start) && PagesExist(done + SegmentPages(STACK_BASE, STACK_PAGES * FRAME_SIZE))
    ensures r == 0 || r == -30 || r == -31
    ensures r == 0 <==> MapAll(start, done + SegmentPages(STACK_BASE, STACK_PAGES * FRAME_SIZE), USER_RW).1
    ensures r == 0 ==>
      && Holds(mmu.View(), pages + Touched(STACK_BASE, STACK_PAGES * FRAME_SIZE), WithStack(image))
      && Tracks(start, done + SegmentPages(STACK_BASE, STACK_PAGES * FRAME_SIZE), mmu.View())
    ensures r != 0 ==>
      Stopped(start, done + SegmentPages(STACK_BASE, STACK_PAGES * FRAME_SIZE), mmu.View(), r == -30)
  {
    hide Holds, Tracks, MapAll, Stopped;
    var first := STACK_BASE / FRAME_SIZE;
    var code := ZeroPages(mmu, first, first + STACK_PAGES, pages, image, start, done);
    if code == -1 { return -30; }
    if code == -2 { return -31; }
    assert PageRun(first, first + STACK_PAGES) == Touched(STACK_BASE, STACK_PAGES * FRAME_SIZE);
    SameImage(mmu.View(), pages + Touched(STACK_BASE, STACK_PAGES * FRAME_SIZE),
              ClearedPages(image, first, first + STACK_PAGES), WithStack(image));
    return 0;
  }

  /** Everything that elf_run_from_filesystem does between reading the file and entering the program. It
      fails exactly when the header is bad or memory does not suffice, and the code tells where and for want
      of what. On success user memory, read through the page tables, is the image of the file with its
      stack. Apart from page contents the machine is the one on which the program's pages have been mapped
      in order, as far as they fit: a failed load gives nothing back. */
  method LoadElf(mmu: Mmu, bytes: seq<Byte>, ghost pages: set<nat>, ghost image: Image) returns (r: int, entry: Word)
    requires mmu.Valid() && Holds(mmu.View(), pages, image)
    requires HeaderCheck(bytes) == 0 ==> ValidFile(bytes)
    modifies mmu.mem, mmu.allocator, mmu.allocator.bitmap
    ensures mmu.Valid()
    ensures HeaderCheck(bytes) != 0 ==> r == HeaderCheck(bytes) && mmu.View() == old(mmu.View())
    ensures HeaderCheck(bytes) == 0 ==> r in {0, -20, -30, -31}
    ensures HeaderCheck(bytes) == 0 ==>
      var m, ss := old(mmu.View()), Segments(bytes, PhdrCount(bytes));
      && AllPlaced(bytes, ss)
      && var all, k := ProgramPages(bytes, ss), Fitting(m, ProgramPages(bytes, ss));
      && (r == 0 <==> Suffices(m, all))
      && (r == -20 <==> k < |LoadedPages(bytes, ss)|)
      && (r == -30 <==> |LoadedPages(bytes, ss)| <= k < |all| && m.pmm.free == k + TablesNeeded(m, all[..k]))
      && Alike(mmu.View(), LeftBehind(m, all, USER_RW))
      && (r == 0 ==>
            && StartsAt(bytes, entry)
            && Holds(mmu.View(), pages + PagesOf(ss) + Touched(STACK_BASE, STACK_PAGES * FRAME_SIZE),
                     WithStack(LoadedAll(image, bytes, ss)))
            && Alike(mmu.View(), MapAll(m, all, USER_RW).0))
  {
    hide Holds, MapAll, Suffices, LoadedPages, SegmentPages, Alike, Stopped, Tracks, Fitting, LeftBehind;
    entry := 0;
    if |bytes| < EHDR_SIZE { return -10, entry; }
    if !(bytes[0] == 0x7F && bytes[1] == 0x45 && bytes[2] == 0x4C && bytes[3] == 0x46) { return -11, entry; }
    if U16(bytes, 18) != EM_386 { return -12, entry; }
    if U32(bytes, 28) == 0 || PhdrCount(bytes) == 0 { return -13, entry; }
    ghost var m := mmu.View();
    ghost var ss := Segments(bytes, PhdrCount(bytes));
    TracksNothing(m);
    AllSegmentsPlaced(bytes, PhdrCount(bytes));
    HoldsSound(m, pages, image);
    var firstVaddr;
    r, firstVaddr := LoadSegments(mmu, bytes, pages, image, m);
    if r != 0 {
      SegmentFails(m, bytes, ss, mmu.View());
      return;
    }
    r := MapStack(mmu, pages + PagesOf(ss), LoadedAll(image, bytes, ss), m, LoadedPages(bytes, ss));
    StackOutcome(m, bytes, ss, mmu.View(), r);
    if r != 0 { return; }
    EntryIs(bytes);
    entry := U32(bytes, 24);
    if entry == 0 { entry := if firstVaddr != 0 then firstVaddr else 0x0041_0000; }
  }

  lemma HoldsSound(m: Machine, pages: set<nat>, image: Image)
    requires Holds(m, pages, image)
    ensures WellFormed(m)
  {
  }

  lemma SegmentFails(m: Machine, bytes: seq<Byte>, ss: seq<Segment>, m1: Machine)
    requires WellFormed(m) && AllPlaced(bytes, ss)
    requires exists b :: Stopped(m, LoadedPages(bytes, ss), m1, b)
    ensures Fitting(m, ProgramPages(bytes, ss)) < |LoadedPages(bytes, ss)|
    ensures !Suffices(m, ProgramPages(bytes, ss))
    ensures Alike(m1, LeftBehind(m, ProgramPages(bytes, ss), USER_RW))
  {
    hide MapAll, LoadedPages, SegmentPages, Stopped, Alike, LeftBehind, Suffices;
    var b :| Stopped(m, LoadedPages(bytes, ss), m1, b);
    StoppedInside(m, LoadedPages(bytes, ss), SegmentPages(STACK_BASE, STACK_PAGES * FRAME_SIZE), m1, b);
  }

  lemma StackOutcome(m: Machine, bytes: seq<Byte>, ss: seq<Segment>, m1: Machine, r: int)
    requires WellFormed(m) && AllPlaced(bytes, ss) && MapAll(m, LoadedPages(bytes, ss), USER_RW).1
    requires r == 0 ==> Tracks(m, ProgramPages(bytes, ss), m1)
    requires r != 0 ==> Stopped(m, ProgramPages(bytes, ss), m1, r == -30)
    ensures var all, k := ProgramPages(bytes, ss), Fitting(m, ProgramPages(bytes, ss));
      && |LoadedPages(bytes, ss)| <= k
      && (r == 0 <==> k == |all|) && (r == 0 <==> Suffices(m, all))
      && (r == -30 <==> k < |all| && m.pmm.free == k + TablesNeeded(m, all[..k]))
      && Alike(m1, LeftBehind(m, all, USER_RW)) && (r == 0 ==> Alike(m1, MapAll(m, all, USER_RW).0))
  {
    hide LoadedPages, SegmentPages, Stopped, Alike, AllocFrame, Suffices, Fitting, TablesNeeded, MapAll;
    var all, loaded := ProgramPages(bytes, ss), LoadedPages(bytes, ss);
    var k := Fitting(m, all);
    assert all[..|loaded|] == loaded && all[..|all|] == all;
    ExactlyEnough(m, loaded, USER_RW);
    if k < |loaded| { Shorter(m, all, |loaded|, k + 1, USER_RW); }
    if r == 0 { ExactlyEnough(m, all, USER_RW); } else { StoppedLeaves(m, all, m1, r == -30); }
  }

  /** What the program finds at its entry point, read through the page tables from user mode: if that lies in
      the file part of a segment, and no two segments share a page and none lies on the stack, it is that byte
      of the file. */
  lemma EntryReads(m: Machine, pages: set<nat>, image: Image, bytes: seq<Byte>, ss: seq<Segment>, k: nat, entry: Word)
    requires AllPlaced(bytes, ss) && PageDisjoint(ss) && k < |ss|
    requires Holds(m, pages + PagesOf(ss) + Touched(STACK_BASE, STACK_PAGES * FRAME_SIZE),
                   WithStack(LoadedAll(image, bytes, ss)))
    requires ss[k].vaddr <= entry < ss[k].vaddr + ss[k].filesz
    ensures Shape(m) && MayUse(m, entry) && ReadByte(m, entry) == Some(bytes[ss[k].offset + (entry - ss[k].vaddr)])
  {
    hide ReadByte, LoadedAll, Walk;
    ImageExact(image, bytes, ss, k, entry);
    if PageOf(entry) !in Touched(ss[k].vaddr, ss[k].memsz) {
      OutsideSegment(ss[k].vaddr, ss[k].memsz, ss[k].memsz, entry);
    }
    PageLoaded(ss, k, PageOf(entry));
    assert Backed(m, PageOf(entry));
    UseInPage(m, entry);
  }

  lemma {:induction false} PageLoaded(ss: seq<Segment>, k: nat, page: nat)
    requires k < |ss| && page in Touched(ss[k].vaddr, ss[k].memsz)
    ensures page in PagesOf(ss)
  {
    if k < |ss| - 1 { PageLoaded(ss[..|ss| - 1], k, page); }
  }

  /** Every address of a page has the rights of its base. */
  lemma UseInPage(m: Machine, v: Word)
    requires Shape(m) && MayUse(m, PageBase(PageOf(v)))
    ensures MayUse(m, v)
  {
    SameIndices(v);
  }
}
