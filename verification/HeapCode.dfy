/** The kernel heap of kernel/mm/heap.c: a bump allocator that maps fresh frames at its end. */
module HeapCode {
  import opened Basics
  import opened Frames
  import opened Paging
  import opened PagingCode
  import opened PagingRuns
  import opened FrameBudget
  import U = UserMemory

  /** PAGE_PRESENT | PAGE_WRITE. */
  const KERNEL_RW: Word := 3
  const ALIGNMENT := 16

  /** A block handed out to a caller. */
  datatype Block = Block(start: nat, size: nat)

  ghost predicate Disjoint(a: Block, b: Block) {
    a.start + a.size <= b.start || b.start + b.size <= a.start
  }

  /** Page `page` of the heap is mapped, onto a frame that serves nothing else; it is writable and not open to
      the user. */
  ghost predicate Mapped(m: Machine, page: nat)
    requires Shape(m)
  {
    && page < FRAMES_OF_ADDRESS_SPACE && Walk(m, PageBase(page)).Some?
    && Held(m, FrameOf(Walk(m, PageBase(page)).value))
    && MayWrite(m, PageBase(page)) && !UserFlag(Pte(m, PageBase(page)))
  }

  /** Page `page` is translated in `m1` as in `m`, with the same table entry and no fewer rights. */
  ghost predicate SameTranslation(m: Machine, m1: Machine, page: nat)
    requires Shape(m) && Shape(m1) && page < FRAMES_OF_ADDRESS_SPACE
  {
    var v := PageBase(page);
    && Walk(m1, v) == Walk(m, v) && (MayWrite(m, v) ==> MayWrite(m1, v))
    && (Walk(m, v).Some? ==> UserFlag(Pte(m1, v)) == UserFlag(Pte(m, v)))
  }

  ghost function FrameAt(m: Machine, page: nat): nat
    requires Shape(m) && Mapped(m, page)
  {
    FrameOf(Walk(m, PageBase(page)).value)
  }

  /** All these pages are mapped, onto pairwise different frames. */
  ghost predicate Owns(m: Machine, pages: set<nat>)
    requires Shape(m)
  {
    && (forall p :: p in pages ==> Mapped(m, p))
    && (forall p, q :: p in pages && q in pages && p != q ==> FrameAt(m, p) != FrameAt(m, q))
  }

  /** The heap's part of the address space, from its base to the top: no table serves two entries of it. */
  ghost predicate Private(m: Machine, base: nat) {
    WellFormed(m) && base / 0x40_0000 <= ENTRIES && TablesDistinct(m, base / 0x40_0000, ENTRIES)
  }

  ghost predicate InHeap(base: nat, page: nat) {
    base <= page * FRAME_SIZE && page < FRAMES_OF_ADDRESS_SPACE
  }

  /** Pages of the heap in front of page `first`. */
  ghost predicate Within(pages: set<nat>, base: nat, first: nat) {
    forall p :: p in pages ==> InHeap(base, p) && p < first
  }

  lemma WithinMore(had: set<nat>, got: set<nat>, base: nat, first: nat, n: nat)
    requires Within(had, base, first) && (forall p :: p in got ==> first <= p < first + n)
    requires base <= first * FRAME_SIZE && first + n <= FRAMES_OF_ADDRESS_SPACE
    ensures Within(had + got, base, first + n)
  {
  }

  lemma HeapSlotsApart(m: Machine, base: nat, p: nat, q: nat)
    requires Private(m, base) && InHeap(base, p) && InHeap(base, q) && p != q
    ensures !SameSlot(m, PageBase(p), PageBase(q))
  {
    PageStart(p);
    PageStart(q);
    assert base / 0x40_0000 <= p / ENTRIES && base / 0x40_0000 <= q / ENTRIES;
  }

  function Grown(m: Machine, page: nat): (r: (Machine, int))
    requires Shape(m) && page < FRAMES_OF_ADDRESS_SPACE
    ensures Shape(r.0)
  {
    MapFresh(m, page, KERNEL_RW)
  }

  /** The page gets a frame and a table entry. */
  ghost predicate Grows(m: Machine, page: nat)
    requires Shape(m) && page < FRAMES_OF_ADDRESS_SPACE
  {
    AllocFrame(m.pmm).1 != 0 && Grown(m, page).1 == 0
  }

  /** The machine after pages first..first+n-1 have been mapped, and whether every frame and table was there. */
  ghost function GrowMany(m: Machine, first: nat, n: nat): (r: (Machine, bool))
    requires Shape(m) && first + n <= FRAMES_OF_ADDRESS_SPACE
    ensures Shape(r.0)
  {
    MapAll(m, Consecutive(first, n), KERNEL_RW)
  }

  /** Those of the pages that were mapped. */
  ghost function Obtained(m: Machine, first: nat, n: nat): (got: set<nat>)
    requires Shape(m) && first + n <= FRAMES_OF_ADDRESS_SPACE
    ensures forall p :: p in got ==> first <= p < first + n
  {
    if n == 0 then {}
    else
      var page := first + n - 1;
      Obtained(m, first, n - 1) + if Grows(GrowMany(m, first, n - 1).0, page) then {page} else {}
  }

  lemma GrowStep(m: Machine, first: nat, n: nat)
    requires Shape(m) && first + n < FRAMES_OF_ADDRESS_SPACE
    ensures GrowMany(m, first, n + 1) ==
      var (m1, ok) := GrowMany(m, first, n);
      if AllocFrame(m1.pmm).1 == 0 then (m1, false) else (Grown(m1, first + n).0, ok && Grown(m1, first + n).1 == 0)
  {
    hide MapAll, AllocFrame, MapFresh;
    MapAllStep(m, Consecutive(first, n), first + n, KERNEL_RW);
    assert Consecutive(first, n + 1) == Consecutive(first, n) + [first + n];
  }

  lemma {:induction false} OutOfFrames(m: Machine, first: nat, k: nat, n: nat)
    requires Shape(m) && k < n && first + n <= FRAMES_OF_ADDRESS_SPACE
    requires AllocFrame(GrowMany(m, first, k).0.pmm).1 == 0
    ensures GrowMany(m, first, n) == (GrowMany(m, first, k).0, false)
    decreases n
  {
    hide AllocFrame, Grown, GrowMany;
    GrowStep(m, first, n - 1);
    if k < n - 1 { OutOfFrames(m, first, k, n - 1); }
  }

  lemma ObtainedStep(m: Machine, first: nat, n: nat)
    requires Shape(m) && first + n < FRAMES_OF_ADDRESS_SPACE
    ensures Obtained(m, first, n + 1) ==
      if Grows(GrowMany(m, first, n).0, first + n) then Obtained(m, first, n) + {first + n} else Obtained(m, first, n)
    ensures GrowMany(m, first, n + 1).1 <==> GrowMany(m, first, n).1 && Grows(GrowMany(m, first, n).0, first + n)
  {
    hide AllocFrame, Grown, GrowMany;
    GrowStep(m, first, n);
  }

  /** Nothing failed exactly when every page was obtained. */
  lemma {:induction false} ObtainedAll(m: Machine, first: nat, n: nat)
    requires Shape(m) && first + n <= FRAMES_OF_ADDRESS_SPACE
    ensures GrowMany(m, first, n).1 <==> forall p :: first <= p < first + n ==> p in Obtained(m, first, n)
  {
    hide Grows, GrowMany, Obtained;
    if n == 0 {
      NoPages(m, first);
    } else {
      ObtainedAll(m, first, n - 1);
      ObtainedStep(m, first, n - 1);
      var got, last: nat := Obtained(m, first, n), first + n - 1;
      assert last in got <==> Grows(GrowMany(m, first, n - 1).0, last);
      assert forall p :: first <= p < last ==> (p in got <==> p in Obtained(m, first, n - 1));
    }
  }

  /** One page more: onto a frame nobody held, and every other heap page is translated as before. */
  lemma GrowTranslates(m: Machine, base: nat, page: nat)
    requires Private(m, base) && InHeap(base, page) && Grows(m, page)
    ensures var m1, f := Grown(m, page).0, FrameOf(AllocFrame(m.pmm).1);
      && Private(m1, base) && Mapped(m1, page) && FrameAt(m1, page) == f && !Held(m, f)
      && (forall g :: Held(m, g) ==> Held(m1, g))
      && (forall p :: InHeap(base, p) && p != page ==> SameTranslation(m, m1, p))
  {
    hide Map, AllocFrame, Walk, SameSlot, Held, SameTranslation;
    AllocFrameHolds(m);
    MapTranslates(Allocated(m), PageBase(page), AllocFrame(m.pmm).1, KERNEL_RW);
    MapHolds(Allocated(m), PageBase(page), AllocFrame(m.pmm).1, KERNEL_RW);
    MapGrants(Allocated(m), PageBase(page), AllocFrame(m.pmm).1, KERNEL_RW);
    U.AllocFrameRights(m);
    PageStart(page);
    U.FrameOfSum(FrameOf(AllocFrame(m.pmm).1), 0);
    var m1 := Grown(m, page).0;
    forall p | InHeap(base, p) && p != page ensures SameTranslation(m, m1, p) {
      HeapSlotsApart(m1, base, page, p);
      MapEntries(Allocated(m), PageBase(page), AllocFrame(m.pmm).1, KERNEL_RW, PageBase(p));
      SamePte(m, m1, p);
    }
  }

  lemma SamePte(m: Machine, m1: Machine, p: nat)
    requires Shape(m) && Shape(m1) && p < FRAMES_OF_ADDRESS_SPACE && Walk(m1, PageBase(p)) == Walk(m, PageBase(p))
    requires MayWrite(m, PageBase(p)) ==> MayWrite(m1, PageBase(p))
    requires !Present(Pde(m1, PageBase(p))) || !Present(Pte(m1, PageBase(p)))
             || Pte(m1, PageBase(p)) == Pte(Allocated(m), PageBase(p))
    ensures SameTranslation(m, m1, p)
  {
  }

  /** Without a table only the frame is gone. */
  lemma GrowFails(m: Machine, base: nat, page: nat)
    requires Private(m, base) && page < FRAMES_OF_ADDRESS_SPACE && AllocFrame(m.pmm).1 != 0 && !Grows(m, page)
    ensures Grown(m, page).0 == Allocated(m) && Private(Allocated(m), base)
    ensures forall g :: Held(m, g) ==> Held(Allocated(m), g)
    ensures forall w: Word :: Walk(Allocated(m), w) == Walk(m, w)
  {
    hide Map, AllocFrame, Walk, Held, Allocated;
    AllocFrameHolds(m);
    MapTranslates(Allocated(m), PageBase(page), AllocFrame(m.pmm).1, KERNEL_RW);
  }

  lemma GrowOwns(m: Machine, base: nat, pages: set<nat>, page: nat)
    requires Private(m, base) && Owns(m, pages) && (forall p :: p in pages ==> InHeap(base, p))
    requires InHeap(base, page) && page !in pages && Grows(m, page)
    ensures Owns(Grown(m, page).0, pages + {page})
  {
    hide Map, AllocFrame, Walk, Held, Grown;
    GrowTranslates(m, base, page);
    var m1 := Grown(m, page).0;
    forall p | p in pages ensures Mapped(m1, p) && FrameAt(m1, p) == FrameAt(m, p) != FrameAt(m1, page) {
      assert InHeap(base, p);
    }
  }

  /** Extending the heap, whatever fails: the pages it owned keep their frames, those obtained are owned as
      well, on frames that nobody held, and every other page of the heap is translated as before. */
  lemma {:induction false} GrowManyMaps(m: Machine, base: nat, pages: set<nat>, first: nat, n: nat)
    requires Shape(m) && Private(m, base) && Owns(m, pages) && Within(pages, base, first)
    requires base <= first * FRAME_SIZE && first + n <= FRAMES_OF_ADDRESS_SPACE
    ensures var m1, got := GrowMany(m, first, n).0, Obtained(m, first, n);
      && Private(m1, base) && (forall g :: Held(m, g) ==> Held(m1, g))
      && Owns(m1, pages + got)
      && (forall p :: p in got ==> Mapped(m1, p) && !Held(m, FrameAt(m1, p)))
      && (forall p :: InHeap(base, p) && p !in got ==> SameTranslation(m, m1, p))
  {
    hide Private, AllocFrame, Grown, GrowMany, Owns, Walk, Held, Obtained;
    if n == 0 {
      NoPages(m, first);
      assert pages + {} == pages;
    } else {
      GrowManyMaps(m, base, pages, first, n - 1);
      GrowStep(m, first, n - 1);
      ObtainedStep(m, first, n - 1);
      var m0, page, had := GrowMany(m, first, n - 1).0, first + n - 1, Obtained(m, first, n - 1);
      if Grows(m0, page) {
        var m1 := Grown(m0, page).0;
        GrowTranslates(m0, base, page);
        GrowOwns(m0, base, pages + had, page);
        assert pages + had + {page} == pages + Obtained(m, first, n);
        forall p | p in had ensures Mapped(m1, p) && FrameAt(m1, p) == FrameAt(m0, p) {
          assert InHeap(base, p);
        }
      } else if AllocFrame(m0.pmm).1 != 0 {
        GrowFails(m0, base, page);
        SameOwner(m0, Allocated(m0), pages + had);
      }
    }
  }

  lemma SameOwner(m: Machine, m1: Machine, pages: set<nat>)
    requires Shape(m) && m1 == Allocated(m) && Owns(m, pages)
    requires forall g :: Held(m, g) ==> Held(m1, g)
    ensures Owns(m1, pages)
    ensures forall p :: p in pages ==> Mapped(m, p) && Mapped(m1, p) && FrameAt(m1, p) == FrameAt(m, p)
  {
    hide Held;
    U.AllocFrameRights(m);
    forall p | p in pages ensures Mapped(m, p) && Mapped(m1, p) && FrameAt(m1, p) == FrameAt(m, p) {
    }
  }

  // ---- When the pages are backed, in terms of the translation alone ----

  /** Any page that already translates somewhere lies behind tables that are all there. */
  ghost predicate Orderly(m: Machine, first: nat, n: nat)
    requires Shape(m)
  {
    forall p, i ::
      first <= p < first + n && p < FRAMES_OF_ADDRESS_SPACE && first / ENTRIES <= i <= p / ENTRIES ==>
        Walk(m, PageBase(p)) == None || Present(Load(m.mem, Dir(m), i))
  }

  /** From `m` to `m1` the pages were mapped onto pairwise different frames that nobody held. */
  ghost predicate FreshlyBacked(m: Machine, m1: Machine, first: nat, n: nat)
    requires Shape(m) && Shape(m1)
  {
    && (forall p :: first <= p < first + n ==> Mapped(m1, p) && !Held(m, FrameAt(m1, p)))
    && (forall p, q :: first <= p < q < first + n ==> FrameAt(m1, p) != FrameAt(m1, q))
  }

  /** Frame `f` serves one of the pages. */
  ghost predicate Serves(m: Machine, first: nat, n: nat, f: nat)
    requires Shape(m)
  {
    exists p :: first <= p < first + n && Mapped(m, p) && FrameAt(m, p) == f
  }

  ghost predicate Taken(m: Machine, m1: Machine, f: nat) {
    f < |m.pmm.used| == |m1.pmm.used| && m1.pmm.used[f] && !m.pmm.used[f]
  }

  /** Where no table has to be made, every frame used up serves one of the pages. */
  lemma {:induction false} FramesServePages(m: Machine, base: nat, first: nat, n: nat, f: nat)
    requires Shape(m) && Private(m, base) && base <= first * FRAME_SIZE && first + n <= FRAMES_OF_ADDRESS_SPACE
    requires GrowMany(m, first, n).1 && Taken(m, GrowMany(m, first, n).0, f)
    requires forall p :: first <= p < first + n ==> Present(Load(m.mem, Dir(m), p / ENTRIES))
    ensures Serves(GrowMany(m, first, n).0, first, n, f)
  {
    hide Private, Grown, Grows, GrowMany, Walk, Held, Load, Serves, Obtained, AllocFrame;
    NoPages(m, first);
    if n > 0 {
      ObtainedStep(m, first, n - 1);
      GrowStep(m, first, n - 1);
      var m0, page := GrowMany(m, first, n - 1).0, first + n - 1;
      GrowManyMaps(m, base, {}, first, n - 1) by { assert Owns(m, {}); }
      TablesStay(m, base, first, n - 1, page / ENTRIES);
      if m0.pmm.used[f] { FramesServePages(m, base, first, n - 1, f); }
      ServeStep(m0, base, first, n - 1, f);
    }
  }

  lemma ServeStep(m: Machine, base: nat, first: nat, n: nat, f: nat)
    requires Private(m, base) && base <= first * FRAME_SIZE && first + n < FRAMES_OF_ADDRESS_SPACE
    requires Grows(m, first + n) && Present(Load(m.mem, Dir(m), (first + n) / ENTRIES))
    requires Serves(m, first, n, f) || Taken(m, Grown(m, first + n).0, f)
    ensures Serves(Grown(m, first + n).0, first, n + 1, f)
  {
    hide Grown, Walk, Held, Load, AllocFrame;
    var page := first + n;
    var m1 := Grown(m, page).0;
    GrowTranslates(m, base, page);
    if Serves(m, first, n, f) {
      var p :| first <= p < page && Mapped(m, p) && FrameAt(m, p) == f;
      assert InHeap(base, p);
      assert Mapped(m1, p) && FrameAt(m1, p) == f;
    } else {
      OneFrame(m, page, f);
      assert Mapped(m1, page) && FrameAt(m1, page) == f;
    }
  }

  /** `m1` has the directory of `m`, and entry `i` names the table that it named. */
  ghost predicate KeepsTable(m: Machine, m1: Machine, i: nat)
    requires Shape(m) && Shape(m1) && i < ENTRIES
  {
    && WellFormed(m1) && Dir(m1) == Dir(m) && |m1.pmm.used| == |m.pmm.used|
    && (Present(Load(m.mem, Dir(m), i)) ==>
          Present(Load(m1.mem, Dir(m), i)) && FrameOf(Load(m1.mem, Dir(m), i)) == FrameOf(Load(m.mem, Dir(m), i)))
  }

  lemma TableStays(m: Machine, page: nat, i: nat)
    requires WellFormed(m) && page < FRAMES_OF_ADDRESS_SPACE && i < ENTRIES
    ensures KeepsTable(m, Grown(m, page).0, i)
  {
    hide AllocFrame, Map, Load;
    AllocFrameHolds(m);
    MapHolds(Allocated(m), PageBase(page), AllocFrame(m.pmm).1, KERNEL_RW);
    MapDirectory(Allocated(m), PageBase(page), AllocFrame(m.pmm).1, KERNEL_RW);
  }

  /** No directory entry loses its table. */
  lemma {:induction false} TablesStay(m: Machine, base: nat, first: nat, n: nat, i: nat)
    requires Private(m, base) && base <= first * FRAME_SIZE && first + n <= FRAMES_OF_ADDRESS_SPACE && i < ENTRIES
    ensures KeepsTable(m, GrowMany(m, first, n).0, i)
  {
    hide AllocFrame, GrowMany, Grown, Load;
    if n == 0 {
      NoPages(m, first);
    } else {
      GrowStep(m, first, n - 1);
      TablesStay(m, base, first, n - 1, i);
      TableStays(GrowMany(m, first, n - 1).0, first + n - 1, i);
    }
  }

  /** With its table there, a page uses up the frame that is allocated for it. */
  lemma OneFrame(m: Machine, page: nat, f: nat)
    requires WellFormed(m) && page < FRAMES_OF_ADDRESS_SPACE && AllocFrame(m.pmm).1 != 0
    requires Present(Load(m.mem, Dir(m), page / ENTRIES)) && Taken(m, Grown(m, page).0, f)
    ensures f == FrameOf(AllocFrame(m.pmm).1)
  {
    PageStart(page);
    AllocSound(m.pmm, |m.pmm.used|);
  }

  /** Extending the heap onto fresh frames of its own succeeds exactly when memory suffices: otherwise some
      page is left unmapped, or translated to a frame that serves somebody else. */
  lemma BackedExactly(m: Machine, base: nat, first: nat, n: nat)
    requires Private(m, base) && base <= first * FRAME_SIZE && first + n <= FRAMES_OF_ADDRESS_SPACE
    requires Orderly(m, first, n)
    ensures FreshlyBacked(m, GrowMany(m, first, n).0, first, n) <==> Suffices(m, Consecutive(first, n))
  {
    hide AllocFrame, Grown, GrowMany, Walk, Held, Suffices, Obtained;
    GrowsExactly(m, base, first, n);
    ObtainedAll(m, first, n);
    GrowManyMaps(m, base, {}, first, n);
    if !GrowMany(m, first, n).1 {
      var k := FirstFailure(m, first, n);
      NotBacked(m, base, first, n, k);
    }
  }

  lemma {:induction false} FirstFailure(m: Machine, first: nat, n: nat) returns (k: nat)
    requires Shape(m) && first + n <= FRAMES_OF_ADDRESS_SPACE && !GrowMany(m, first, n).1
    ensures k < n && GrowMany(m, first, k).1 && !Grows(GrowMany(m, first, k).0, first + k)
    ensures first + k !in Obtained(m, first, n)
  {
    hide AllocFrame, Grown, GrowMany;
    if n == 0 {
      NoPages(m, first);
    } else if GrowMany(m, first, n - 1).1 {
      GrowStep(m, first, n - 1);
      k := n - 1;
    } else {
      k := FirstFailure(m, first, n - 1);
    }
  }

  lemma NotBacked(m: Machine, base: nat, first: nat, n: nat, k: nat)
    requires Private(m, base) && base <= first * FRAME_SIZE && first + n <= FRAMES_OF_ADDRESS_SPACE
    requires Orderly(m, first, n)
    requires k < n && GrowMany(m, first, k).1 && !Grows(GrowMany(m, first, k).0, first + k)
    requires first + k !in Obtained(m, first, n)
    ensures !FreshlyBacked(m, GrowMany(m, first, n).0, first, n)
  {
    hide AllocFrame, Grown, GrowMany, Held, Obtained, Grows;
    var m0, m1, page := GrowMany(m, first, k).0, GrowMany(m, first, n).0, first + k;
    GrowManyMaps(m, base, {}, first, n);
    assert InHeap(base, page) && Walk(m1, PageBase(page)) == Walk(m, PageBase(page));
    assert FreshlyBacked(m, m1, first, n) ==> Mapped(m1, page) && !Held(m, FrameAt(m1, page));
    if Walk(m, PageBase(page)).Some? && FreshlyBacked(m, m1, first, n) {
      TablesBefore(m, first, n, page);
      TablesStay(m, base, first, k, page / ENTRIES);
      NoFrameLeft(m0, page);
      OutOfFrames(m, first, k, n);
      var f := FrameAt(m1, page);
      TakenSince(m, base, first, k, f);
      FramesServePages(m, base, first, k, f);
    }
  }

  lemma TablesBefore(m: Machine, first: nat, n: nat, page: nat)
    requires Shape(m) && Orderly(m, first, n) && first <= page < first + n && page < FRAMES_OF_ADDRESS_SPACE
    requires Walk(m, PageBase(page)).Some?
    ensures forall p :: first <= p <= page ==> Present(Load(m.mem, Dir(m), p / ENTRIES))
  {
    forall p | first <= p <= page ensures Present(Load(m.mem, Dir(m), p / ENTRIES)) {
      assert first / ENTRIES <= p / ENTRIES <= page / ENTRIES;
    }
  }

  lemma NoFrameLeft(m: Machine, page: nat)
    requires WellFormed(m) && page < FRAMES_OF_ADDRESS_SPACE && !Grows(m, page)
    requires Present(Load(m.mem, Dir(m), page / ENTRIES))
    ensures AllocFrame(m.pmm).1 == 0
  {
    hide Alloc, MapFresh;
    var total := |m.pmm.used|;
    assert m.pmm.used[..total] == m.pmm.used;
    AllocCosts(m.pmm, total);
    PageCosts(m, page, KERNEL_RW);
  }

  /** A frame that is held now and was not before has been taken since. */
  lemma TakenSince(m: Machine, base: nat, first: nat, n: nat, f: nat)
    requires Private(m, base) && base <= first * FRAME_SIZE && first + n <= FRAMES_OF_ADDRESS_SPACE
    requires Held(GrowMany(m, first, n).0, f) && !Held(m, f)
    ensures Taken(m, GrowMany(m, first, n).0, f)
  {
    hide GrowMany;
    var m1 := GrowMany(m, first, n).0;
    TablesStay(m, base, first, n, 0);
    if IsTable(m, f) { StillTable(m, base, first, n, f); }
  }

  lemma StillTable(m: Machine, base: nat, first: nat, n: nat, t: nat)
    requires Private(m, base) && base <= first * FRAME_SIZE && first + n <= FRAMES_OF_ADDRESS_SPACE && IsTable(m, t)
    ensures IsTable(GrowMany(m, first, n).0, t)
  {
    hide GrowMany;
    var i :| 0 <= i < ENTRIES && Present(Load(m.mem, Dir(m), i)) && FrameOf(Load(m.mem, Dir(m), i)) == t;
    TablesStay(m, base, first, n, i);
  }

  // ---- The allocator ----

  const HALF := WRAP / 2

  /** The pages that map_more adds behind `end` to cover `bytes` from `cur` on. A need of 2^31 bytes or more
      is negative in the source's comparison, and nothing is mapped. */
  function PagesFor(cur: nat, end: nat, bytes: nat): nat {
    var need := cur + bytes - end;
    if need <= 0 || need >= HALF then 0 else (need + FRAME_SIZE - 1) / FRAME_SIZE
  }

  /** The page behind the one that holds the byte before address `a`. */
  function PagesUpTo(a: nat): nat {
    (a + FRAME_SIZE - 1) / FRAME_SIZE
  }

  ghost predicate Covers(b: Block, page: int) {
    b.start / FRAME_SIZE <= page < PagesUpTo(b.start + b.size)
  }

  ghost predicate CoveredBy(b: Block, pages: set<nat>) {
    forall p :: Covers(b, p) ==> p in pages
  }

  /** The same for the block's pages in front of `first`. */
  ghost predicate CoveredBelow(b: Block, first: nat, pages: set<nat>) {
    forall p :: Covers(b, p) && p < first ==> p in pages
  }

  ghost predicate AllOf(lo: nat, hi: nat, pages: set<nat>) {
    forall p :: lo <= p < hi ==> p in pages
  }

  ghost predicate AllMapped(m: Machine, b: Block)
    requires Shape(m)
  {
    forall p: nat :: Covers(b, p) ==> Mapped(m, p)
  }

  /** No page of the heap's address space translates anywhere except those of `pages`. */
  ghost predicate NothingElse(m: Machine, base: nat, pages: set<nat>)
    requires Shape(m)
  {
    forall p :: InHeap(base, p) && p !in pages ==> Walk(m, PageBase(p)) == None
  }

  /** Blocks between `lo` and `hi`, aligned and disjoint. */
  ghost predicate Apart(blocks: seq<Block>, lo: nat, hi: nat) {
    && (forall i :: 0 <= i < |blocks| ==>
          && blocks[i].start % ALIGNMENT == 0 && blocks[i].size > 0
          && lo <= blocks[i].start && blocks[i].start + blocks[i].size <= hi)
    && (forall i, j :: 0 <= i < j < |blocks| ==> Disjoint(blocks[i], blocks[j]))
  }

  lemma OneMoreBlock(blocks: seq<Block>, lo: nat, hi: nat, b: Block)
    requires Apart(blocks, lo, hi) && lo <= hi <= b.start && b.start % ALIGNMENT == 0 && b.size > 0
    ensures Apart(blocks + [b], lo, b.start + b.size)
  {
  }

  /** The next 16-byte boundary. */
  function Aligned(c: nat): nat {
    (c + ALIGNMENT - 1) / ALIGNMENT * ALIGNMENT
  }

  class Heap {
    const mmu: Mmu
    var cur: nat
    var end: nat
    ghost var base: nat
    /** The pages that the heap has mapped. */
    ghost var backed: set<nat>
    /** Every block handed out, oldest first. */
    ghost var blocks: seq<Block>

    ghost predicate Ready()
      reads this, mmu, mmu.mem, mmu.allocator, mmu.allocator.bitmap
    {
      && mmu.Valid() && Private(mmu.View(), base)
      && base % FRAME_SIZE == 0 && end % FRAME_SIZE == 0 && base <= end <= WRAP
      && Owns(mmu.View(), backed) && Within(backed, base, end / FRAME_SIZE)
    }

    ghost predicate Valid()
      reads this, mmu, mmu.mem, mmu.allocator, mmu.allocator.bitmap
    {
      && Ready() && base <= cur && end <= cur + HALF && (cur <= end || end + HALF <= cur)
      && Apart(blocks, base, cur)
    }

    constructor (mmu: Mmu, base: nat, size: nat)
      requires mmu.Valid() && Private(mmu.View(), base) && base % FRAME_SIZE == 0
      requires base + size + FRAME_SIZE <= WRAP
      modifies mmu.mem, mmu.allocator, mmu.allocator.bitmap
      ensures Valid() && this.mmu == mmu && this.base == base && cur == base && blocks == []
      ensures var m, first, n := old(mmu.View()), base / FRAME_SIZE, PagesFor(base, base, size);
        && end == base + n * FRAME_SIZE && first + n <= FRAMES_OF_ADDRESS_SPACE
        && mmu.View() == GrowMany(m, first, n).0 && backed == Obtained(m, first, n)
        && (AllOf(first, PagesUpTo(base + size), backed) <==> size < HALF && Suffices(m, Consecutive(first, n)))
    {
      hide Private, Owns, Suffices, GrowMany, Obtained, PagesFor, PagesUpTo, InHeap;
      this.mmu := mmu;
      this.base, cur, end, backed, blocks := base, base, base, {}, [];
      new;
      NothingOwned(mmu.View());
      MapMore(size);
    }

    /** map_more: extend the mapped range to cover `cur + bytes`. When frames run out the loop stops but
        the end still moves. */
    method MapMore(bytes: nat)
      requires Ready() && cur + bytes + FRAME_SIZE <= WRAP && end <= cur + HALF
      modifies this`end, this`backed, mmu.mem, mmu.allocator, mmu.allocator.bitmap
      ensures Ready()
      ensures cur + bytes <= end <==> cur + bytes < old(end) + HALF
      ensures var m, first, n := old(mmu.View()), old(end) / FRAME_SIZE, PagesFor(cur, old(end), bytes);
        && end == old(end) + n * FRAME_SIZE && first + n <= FRAMES_OF_ADDRESS_SPACE
        && (n > 0 ==> end < cur + bytes + FRAME_SIZE && cur + bytes < old(end) + HALF)
        && mmu.View() == GrowMany(m, first, n).0 && backed == old(backed) + Obtained(m, first, n)
        && (AllOf(first, PagesUpTo(cur + bytes), backed)
            <==> cur + bytes < old(end) + HALF && Suffices(m, Consecutive(first, n)))
    {
      hide Private, Owns, Suffices, GrowMany, Obtained, PagesFor, PagesUpTo, InHeap;
      EndsInside(cur, end, bytes);
      ghost var first, n, m := end / FRAME_SIZE, PagesFor(cur, end, bytes), mmu.View();
      GrowManyMaps(m, base, backed, first, n);
      GrowsExactly(m, base, first, n);
      ObtainedAll(m, first, n);
      WithinMore(backed, Obtained(m, first, n), base, first, n);
      backed := backed + Obtained(m, first, n);
      var need := (cur + bytes - end) % WRAP;
      SignedNeed(cur + bytes - end);
      if need == 0 || need >= HALF {
        NoPages(m, first);
        assert first !in backed;
        return;
      }
      var pages := (need + FRAME_SIZE - 1) / FRAME_SIZE;
      MapPages(end / FRAME_SIZE, pages);
      end := end + pages * FRAME_SIZE;
    }

    /** The mapping loop. */
    method MapPages(first: nat, pages: nat)
      requires mmu.Valid() && Private(mmu.View(), base) && base <= first * FRAME_SIZE
      requires first + pages <= FRAMES_OF_ADDRESS_SPACE
      modifies mmu.mem, mmu.allocator, mmu.allocator.bitmap
      ensures mmu.Valid() && mmu.View() == GrowMany(old(mmu.View()), first, pages).0
    {
      hide Map, AllocFrame, GrowMany, Obtained;
      ghost var m := mmu.View();
      NoPages(m, first);
      for i := 0 to pages
        invariant mmu.Valid() && mmu.View() == GrowMany(m, first, i).0
      {
        var phys := mmu.allocator.PmmAllocFrame();
        GrowStep(m, first, i);
        if phys == 0 {
          GrowManyMaps(m, base, {}, first, i);
          AllocFails(GrowMany(m, first, i).0);
          OutOfFrames(m, first, i, pages);
          return;
        }
        var _ := mmu.VmmMap((first + i) * FRAME_SIZE, phys, KERNEL_RW);
      }
    }

    /** kmalloc: the next 16-byte boundary, whether or not the pages behind it could be mapped. */
    method Kmalloc(sz: nat) returns (ret: nat)
      requires Valid() && cur + ALIGNMENT + sz + FRAME_SIZE <= WRAP
      modifies this, mmu.mem, mmu.allocator, mmu.allocator.bitmap
      ensures Valid() && base == old(base)
      ensures sz == 0 ==>
        && ret == 0 && blocks == old(blocks) && cur == old(cur) && end == old(end) && backed == old(backed)
        && mmu.View() == old(mmu.View())
      ensures sz > 0 ==>
        && blocks == old(blocks) + [Block(ret, sz)]
        && ret % 16 == 0 && old(cur) <= ret < old(cur) + 16 && cur == ret + sz
        && (cur <= end <==> cur < old(end) + HALF)
        && (var m, first, n := old(mmu.View()), old(end) / FRAME_SIZE, PagesFor(old(cur), old(end), cur - old(cur));
           && end == old(end) + n * FRAME_SIZE && first + n <= FRAMES_OF_ADDRESS_SPACE
           && mmu.View() == GrowMany(m, first, n).0 && backed == old(backed) + Obtained(m, first, n)
           // This block is backed if and only if the pages it shares with the old part of the heap were, the
           // request was not huge, and memory sufficed for the new ones.
           && (CoveredBy(Block(ret, sz), backed)
               <==> && CoveredBelow(Block(ret, sz), first, old(backed))
                    && cur < old(end) + HALF && Suffices(m, Consecutive(first, n))))
      // Where only the pages of the heap are translated, that is to say that they all are.
      ensures sz > 0 && NothingElse(old(mmu.View()), base, old(backed)) ==>
        && NothingElse(mmu.View(), base, backed)
        && (CoveredBy(Block(ret, sz), backed) <==> AllMapped(mmu.View(), Block(ret, sz)))
    {
      hide Private, Owns, Suffices, GrowMany, Obtained, NothingElse, Apart, PagesFor, PagesUpTo, Within;
      hide Aligned, CoveredBy, CoveredBelow, AllOf, AllMapped;
      if sz == 0 { return 0; }
      var p := Aligned(cur);
      AlignUp(cur);
      AlignBelow(cur, end);
      var bump := p + sz - cur;
      ghost var m, had, first, n := mmu.View(), backed, end / FRAME_SIZE, PagesFor(cur, end, bump);
      MapMore(bump);
      if n == 0 { NoPages(m, first); }
      BlockPages(Block(p, sz), base, first, had, backed);
      OneMoreBlock(blocks, base, cur, Block(p, sz));
      if NothingElse(m, base, had) {
        GrowLeaves(m, base, had, first, n);
        BackedIsMapped(mmu.View(), base, backed, Block(p, sz));
      }
      cur := p + sz;
      ret := p;
      blocks := blocks + [Block(ret, sz)];
    }
  }

  /** The end of the heap is a block boundary. */
  lemma AlignBelow(c: nat, end: nat)
    requires end % FRAME_SIZE == 0
    ensures c <= end ==> Aligned(c) <= end
  {
  }

  /** A block consists of pages below the old end and of all new ones up to its own end. */
  lemma BlockPages(b: Block, base: nat, first: nat, had: set<nat>, now: set<nat>)
    requires b.size > 0 && had <= now && Within(had, base, first)
    requires forall p :: p in now && p < first ==> p in had
    requires b.start <= first * FRAME_SIZE || (first * FRAME_SIZE < b.start && now == had)
    ensures CoveredBy(b, now) <==> CoveredBelow(b, first, had) && AllOf(first, PagesUpTo(b.start + b.size), now)
  {
    var last := PagesUpTo(b.start + b.size) - 1;
    assert Covers(b, last);
    if b.start <= first * FRAME_SIZE {
      assert forall p :: first <= p <= last ==> Covers(b, p);
    } else {
      assert first <= last && last !in now;
    }
  }

  /** Where nothing else was translated, nothing else is. */
  lemma GrowLeaves(m: Machine, base: nat, pages: set<nat>, first: nat, n: nat)
    requires Shape(m) && Private(m, base) && Owns(m, pages) && Within(pages, base, first)
    requires base <= first * FRAME_SIZE && first + n <= FRAMES_OF_ADDRESS_SPACE
    requires NothingElse(m, base, pages)
    ensures NothingElse(GrowMany(m, first, n).0, base, pages + Obtained(m, first, n))
  {
    hide Private, Owns, GrowMany, Obtained;
    GrowManyMaps(m, base, pages, first, n);
  }

  lemma BackedIsMapped(m: Machine, base: nat, pages: set<nat>, b: Block)
    requires Shape(m) && Owns(m, pages) && NothingElse(m, base, pages)
    requires base % FRAME_SIZE == 0 && base <= b.start && b.start + b.size <= WRAP
    ensures CoveredBy(b, pages) <==> AllMapped(m, b)
  {
    forall p: nat | Covers(b, p) ensures p in pages <==> Mapped(m, p) {
      assert InHeap(base, p);
    }
  }

  lemma NoPages(m: Machine, first: nat)
    requires Shape(m) && first <= FRAMES_OF_ADDRESS_SPACE
    ensures GrowMany(m, first, 0) == (m, true) && Obtained(m, first, 0) == {}
  {
  }

  lemma NothingOwned(m: Machine)
    requires Shape(m)
    ensures Owns(m, {})
  {
  }

  lemma AlignUp(c: nat)
    ensures Aligned(c) % ALIGNMENT == 0 && c <= Aligned(c) < c + ALIGNMENT
  {
  }

  /** Mapping succeeds exactly when memory suffices. */
  lemma GrowsExactly(m: Machine, base: nat, first: nat, n: nat)
    requires Private(m, base) && first + n <= FRAMES_OF_ADDRESS_SPACE
    ensures Shape(m) && (GrowMany(m, first, n).1 <==> Suffices(m, Consecutive(first, n)))
  {
    ExactlyEnough(m, Consecutive(first, n), KERNEL_RW);
  }

  /** The source's comparison of a 32-bit difference with 0. */
  lemma SignedNeed(d: int)
    requires -HALF <= d < WRAP
    ensures d % WRAP == 0 || d % WRAP >= HALF <==> d <= 0 || d >= HALF
    ensures 0 < d ==> d % WRAP == d
  {
  }

  lemma EndsInside(cur: nat, end: nat, bytes: nat)
    requires end % FRAME_SIZE == 0 && end <= WRAP && cur + bytes + FRAME_SIZE <= WRAP
    ensures var n := PagesFor(cur, end, bytes);
      && end + n * FRAME_SIZE <= WRAP
      && (cur + bytes <= end + n * FRAME_SIZE <==> cur + bytes < end + HALF)
      && (n > 0 ==> end + n * FRAME_SIZE < cur + bytes + FRAME_SIZE && cur + bytes < end + HALF)
      && (end + n * FRAME_SIZE) % FRAME_SIZE == 0
      && (n == if 0 < cur + bytes - end < HALF then (cur + bytes - end + FRAME_SIZE - 1) / FRAME_SIZE else 0)
      && (n > 0 ==> PagesUpTo(cur + bytes) == end / FRAME_SIZE + n)
      && (n == 0 ==> (PagesUpTo(cur + bytes) <= end / FRAME_SIZE <==> cur + bytes < end + HALF))
      && (end + n * FRAME_SIZE) / FRAME_SIZE == end / FRAME_SIZE + n <= FRAMES_OF_ADDRESS_SPACE
  {
  }

  /** Every page of a backed block translates to a frame of its own. */
  lemma BlockPagesMapped(m: Machine, pages: set<nat>, b: Block, page: nat)
    requires Shape(m) && Owns(m, pages) && Covers(b, page) && CoveredBy(b, pages)
    ensures Mapped(m, page) && Resolve(m, PageBase(page)) == FrameAt(m, page) * FRAME_SIZE
    ensures forall q :: q in pages && q != page ==> FrameAt(m, q) != FrameAt(m, page)
  {
    PageStart(page);
  }
}
