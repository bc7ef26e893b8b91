/** Mapping many pages onto fresh frames, and exactly when memory suffices for it: clear frames below 16 MiB
    serve both as pages and as page tables. */
module FrameBudget {
  import opened Basics
  import opened Frames
  import opened Paging
  import opened PagingRuns

  /** The machine after a frame has been allocated and page `page` mapped onto it. */
  function MapFresh(m: Machine, page: nat, flags: Word): (r: (Machine, int))
    requires Shape(m) && page < FRAMES_OF_ADDRESS_SPACE
    ensures Shape(r.0)
  {
    Map(Allocated(m), PageBase(page), AllocFrame(m.pmm).1, flags)
  }

  /** All pages in turn, and whether every frame and every table was there. A failure is remembered; once
      frames have run out the rest changes nothing. */
  ghost function MapAll(m: Machine, pages: seq<nat>, flags: Word): (r: (Machine, bool))
    requires Shape(m) && PagesExist(pages)
    ensures Shape(r.0)
  {
    if pages == [] then (m, true)
    else
      var (m1, ok) := MapAll(m, pages[..|pages| - 1], flags);
      if AllocFrame(m1.pmm).1 == 0 then (m1, false)
      else
        var (m2, r) := MapFresh(m1, pages[|pages| - 1], flags);
        (m2, ok && r == 0)
  }

  lemma MapAllStep(m: Machine, pages: seq<nat>, page: nat, flags: Word)
    requires Shape(m) && PagesExist(pages) && page < FRAMES_OF_ADDRESS_SPACE
    ensures PagesExist(pages + [page])
    ensures MapAll(m, pages + [page], flags) ==
      var (m1, ok) := MapAll(m, pages, flags);
      if AllocFrame(m1.pmm).1 == 0 then (m1, false)
      else
        var (m2, r) := MapFresh(m1, page, flags);
        (m2, ok && r == 0)
  {
    assert (pages + [page])[..|pages|] == pages;
  }

  /** A list that cannot be mapped cannot be mapped with more behind it. */
  lemma PrefixFails(m: Machine, a: seq<nat>, b: seq<nat>, flags: Word)
    requires Shape(m) && PagesExist(a) && PagesExist(b) && !MapAll(m, a, flags).1
    ensures PagesExist(a + b) && !MapAll(m, a + b, flags).1
  {
    hide MapAll;
    assert (a + b)[..|a|] == a;
    if MapAll(m, a + b, flags).1 { MapAllPrefix(m, a + b, |a|, flags); }
  }

  lemma {:induction false} MapAllPrefix(m: Machine, pages: seq<nat>, k: nat, flags: Word)
    requires Shape(m) && PagesExist(pages) && k <= |pages| && MapAll(m, pages, flags).1
    ensures PagesExist(pages[..k]) && MapAll(m, pages[..k], flags).1
    decreases |pages|
  {
    if k == |pages| {
      assert pages[..k] == pages;
    } else {
      hide AllocFrame, MapFresh;
      MapAllPrefix(m, pages[..|pages| - 1], k, flags);
      assert pages[..|pages| - 1][..k] == pages[..k];
    }
  }

  // ---- What an allocation costs ----

  /** The clear frames below 16 MiB, where tables have to come from. */
  function LowClear(p: Pmm): nat {
    CountClear(p.used[..Clip(TABLE_LIMIT / FRAME_SIZE, |p.used|)])
  }

  lemma {:induction false} NoneClear(used: seq<bool>)
    requires forall i :: 0 <= i < |used| ==> used[i]
    ensures CountClear(used) == 0
  {
    if used != [] { NoneClear(used[..|used| - 1]); }
  }

  /** An allocation below a limit of 16 MiB or more succeeds exactly when a frame there is clear; it takes
      the lowest one, so it costs a frame below 16 MiB exactly when there is one. */
  lemma AllocCosts(p: Pmm, limit: nat)
    requires Accounted(p) && Clip(TABLE_LIMIT / FRAME_SIZE, |p.used|) <= limit <= |p.used|
    ensures Alloc(p, limit).1 != 0 <==> CountClear(p.used[..limit]) > 0
    ensures Alloc(p, limit).1 != 0 ==>
      var q := Alloc(p, limit).0;
      && Accounted(q) && CountClear(q.used) == CountClear(p.used) - 1
      && LowClear(q) == LowClear(p) - if LowClear(p) > 0 then 1 else 0
  {
    var low := Clip(TABLE_LIMIT / FRAME_SIZE, |p.used|);
    AllocSound(p, limit);
    if Alloc(p, limit).1 == 0 {
      NoneClear(p.used[..limit]);
    } else {
      var i := FirstClear(p.used, 0, limit);
      assert Alloc(p, limit).1 / FRAME_SIZE == i;
      ClearCounted(p.used[..limit], i);
      CountUpdate(p.used, i, true);
      if i < low {
        ClearCounted(p.used[..low], i);
        CountUpdate(p.used[..low], i, true);
        assert p.used[i := true][..low] == p.used[..low][i := true];
      } else {
        NoneClear(p.used[..low]);
        assert p.used[i := true][..low] == p.used[..low];
      }
    }
  }

  /** A failed allocation changes nothing. */
  lemma AllocFails(m: Machine)
    requires WellFormed(m) && AllocFrame(m.pmm).1 == 0
    ensures AllocFrame(m.pmm).0 == m.pmm
  {
    AllocSound(m.pmm, |m.pmm.used|);
  }

  lemma {:induction false} LowAmongAll(used: seq<bool>, k: nat)
    requires k <= |used|
    ensures CountClear(used[..k]) <= CountClear(used)
  {
    if k < |used| {
      LowAmongAll(used[..|used| - 1], k);
      assert used[..|used| - 1][..k] == used[..k];
    } else {
      assert used[..k] == used;
    }
  }

  /** One page: exactly when it can be mapped, and what it costs. With its table present one clear frame
      anywhere is enough; otherwise two must be clear below 16 MiB. */
  lemma PageCosts(m: Machine, page: nat, flags: Word)
    requires WellFormed(m) && page < FRAMES_OF_ADDRESS_SPACE
    ensures var present := Present(Load(m.mem, Dir(m), page / ENTRIES));
      && (AllocFrame(m.pmm).1 != 0 && MapFresh(m, page, flags).1 == 0 <==>
            if present then CountClear(m.pmm.used) >= 1 else LowClear(m.pmm) >= 2)
      && (AllocFrame(m.pmm).1 != 0 && MapFresh(m, page, flags).1 == 0 ==>
            var m1, cost := MapFresh(m, page, flags).0, if present then 1 else 2;
            && CountClear(m1.pmm.used) == CountClear(m.pmm.used) - cost
            && LowClear(m1.pmm) == if LowClear(m.pmm) >= cost then LowClear(m.pmm) - cost else 0)
  {
    hide CountClear, Alloc;
    var total := |m.pmm.used|;
    PageStart(page);
    assert m.pmm.used[..total] == m.pmm.used;
    AllocCosts(m.pmm, total);
    LowAmongAll(m.pmm.used, Clip(TABLE_LIMIT / FRAME_SIZE, total));
    if AllocFrame(m.pmm).1 != 0 {
      AllocFrameHolds(m);
      var a := Allocated(m);
      assert Pde(a, PageBase(page)) == Load(m.mem, Dir(m), page / ENTRIES);
      if Present(Pde(a, PageBase(page))) {
        assert Owned(m, FrameOf(Load(m.mem, Dir(m), page / ENTRIES)));
      } else {
        AllocCosts(a.pmm, Clip(TABLE_LIMIT / FRAME_SIZE, total));
        AllocSound(a.pmm, Clip(TABLE_LIMIT / FRAME_SIZE, total));
      }
    }
  }

  /** Which directory entries are present after a page has been mapped. */
  lemma MapPresence(m: Machine, page: nat, flags: Word, i: nat)
    requires WellFormed(m) && page < FRAMES_OF_ADDRESS_SPACE && i < ENTRIES
    requires AllocFrame(m.pmm).1 != 0 && MapFresh(m, page, flags).1 == 0
    ensures var m1 := MapFresh(m, page, flags).0;
      && WellFormed(m1) && m1.cr3 == m.cr3
      && (Present(Load(m1.mem, Dir(m), i)) <==> Present(Load(m.mem, Dir(m), i)) || i == page / ENTRIES)
  {
    hide AllocFrame, Map;
    PageStart(page);
    AllocFrameHolds(m);
    MapHolds(Allocated(m), PageBase(page), AllocFrame(m.pmm).1, flags);
    MapDirectory(Allocated(m), PageBase(page), AllocFrame(m.pmm).1, flags);
    MapNames(Allocated(m), PageBase(page), AllocFrame(m.pmm).1, flags);
  }

  lemma MapNames(m: Machine, v: Word, phys: Word, flags: Word)
    requires WellFormed(m) && Map(m, v, phys, flags).1 == 0
    ensures Present(Load(Map(m, v, phys, flags).0.mem, Dir(m), DirIndex(v)))
  {
    MapTranslates(m, v, phys, flags);
  }

  // ---- When memory suffices ----

  /** The last page of the list is the first one in a slot without a table. */
  ghost predicate NeedsTable(m: Machine, pages: seq<nat>)
    requires Shape(m) && PagesExist(pages) && pages != []
  {
    var n := |pages| - 1;
    && !Present(Load(m.mem, Dir(m), pages[n] / ENTRIES))
    && forall i :: 0 <= i < n ==> pages[i] / ENTRIES != pages[n] / ENTRIES
  }

  /** The tables that mapping the list has to allocate. */
  ghost function TablesNeeded(m: Machine, pages: seq<nat>): nat
    requires Shape(m) && PagesExist(pages)
  {
    if pages == [] then 0 else TablesNeeded(m, pages[..|pages| - 1]) + if NeedsTable(m, pages) then 1 else 0
  }

  /** The position of the last of them among all allocations, pages and tables counted from 1; 0 for none. */
  ghost function LastTable(m: Machine, pages: seq<nat>): nat
    requires Shape(m) && PagesExist(pages)
  {
    if pages == [] then 0
    else if NeedsTable(m, pages) then |pages| + TablesNeeded(m, pages)
    else LastTable(m, pages[..|pages| - 1])
  }

  /** Enough clear frames for all pages and tables, and enough of them below 16 MiB to reach the last table:
      every allocation takes the lowest clear frame. */
  ghost predicate Suffices(m: Machine, pages: seq<nat>)
    requires Shape(m) && PagesExist(pages)
  {
    m.pmm.free >= |pages| + TablesNeeded(m, pages) && LowClear(m.pmm) >= LastTable(m, pages)
  }

  ghost predicate HasPageIn(pages: seq<nat>, i: nat) {
    exists j :: 0 <= j < |pages| && pages[j] / ENTRIES == i
  }

  lemma LastTableBound(m: Machine, pages: seq<nat>)
    requires Shape(m) && PagesExist(pages)
    ensures LastTable(m, pages) <= |pages| + TablesNeeded(m, pages) <= 2 * |pages|
  {
  }

  /** What has been used up when all pages of a list have been mapped, and which slots have tables. */
  ghost predicate Spent(m: Machine, pages: seq<nat>, m1: Machine)
    requires Shape(m) && PagesExist(pages)
  {
    var cost := |pages| + TablesNeeded(m, pages);
    && WellFormed(m1) && m1.cr3 == m.cr3
    && CountClear(m1.pmm.used) + cost == m.pmm.free
    && LowClear(m1.pmm) == (if LowClear(m.pmm) >= cost then LowClear(m.pmm) - cost else 0)
    && forall i :: 0 <= i < ENTRIES ==>
         (Present(Load(m1.mem, Dir(m), i)) <==> Present(Load(m.mem, Dir(m), i)) || HasPageIn(pages, i))
  }

  /** The exact condition: a list of pages can be mapped onto fresh frames if and only if at least as many
      frames are clear as there are pages and missing tables, and the clear frames below 16 MiB reach to the
      last table. */
  lemma {:induction false} ExactlyEnough(m: Machine, pages: seq<nat>, flags: Word)
    requires WellFormed(m) && PagesExist(pages)
    ensures MapAll(m, pages, flags).1 <==> Suffices(m, pages)
    ensures MapAll(m, pages, flags).1 ==> Spent(m, pages, MapAll(m, pages, flags).0)
    decreases |pages|
  {
    if pages == [] {
      LowAmongAll(m.pmm.used, Clip(TABLE_LIMIT / FRAME_SIZE, |m.pmm.used|));
    } else {
      hide AllocFrame, MapFresh, CountClear, LowClear, Spent;
      var init, page := pages[..|pages| - 1], pages[|pages| - 1];
      ExactlyEnough(m, init, flags);
      LastTableBound(m, init);
      var (m1, ok) := MapAll(m, init, flags);
      if ok {
        OnePageMore(m, init, page, m1, flags);
        assert pages == init + [page];
      }
    }
  }

  lemma OnePageMore(m: Machine, init: seq<nat>, page: nat, m1: Machine, flags: Word)
    requires WellFormed(m) && PagesExist(init) && page < FRAMES_OF_ADDRESS_SPACE
    requires Suffices(m, init) && Spent(m, init, m1)
    ensures PagesExist(init + [page])
    ensures AllocFrame(m1.pmm).1 != 0 && MapFresh(m1, page, flags).1 == 0 <==> Suffices(m, init + [page])
    ensures AllocFrame(m1.pmm).1 != 0 && MapFresh(m1, page, flags).1 == 0 ==>
      Spent(m, init + [page], MapFresh(m1, page, flags).0)
  {
    hide AllocFrame, MapFresh, CountClear, LowClear;
    var pages := init + [page];
    assert pages[..|pages| - 1] == init;
    PageCosts(m1, page, flags);
    LastTableBound(m, init);
    assert NeedsTable(m, pages) <==> !Present(Load(m1.mem, Dir(m), page / ENTRIES)) by {
      assert HasPageIn(init, page / ENTRIES) <==> exists i :: 0 <= i < |init| && pages[i] / ENTRIES == page / ENTRIES;
    }
    LowAmongAll(m.pmm.used, Clip(TABLE_LIMIT / FRAME_SIZE, |m.pmm.used|));
    LowIsPart(m.pmm);
    if AllocFrame(m1.pmm).1 != 0 && MapFresh(m1, page, flags).1 == 0 {
      var m2 := MapFresh(m1, page, flags).0;
      forall i | 0 <= i < ENTRIES
        ensures Present(Load(m2.mem, Dir(m), i)) <==> Present(Load(m.mem, Dir(m), i)) || HasPageIn(pages, i)
      {
        MapPresence(m1, page, flags, i);
        MorePages(init, page, i);
      }
      MapPresence(m1, page, flags, 0);
    }
  }

  lemma LowIsPart(p: Pmm)
    requires Accounted(p)
    ensures LowClear(p) <= p.free
  {
    LowAmongAll(p.used, Clip(TABLE_LIMIT / FRAME_SIZE, |p.used|));
  }

  lemma MorePages(init: seq<nat>, page: nat, i: nat)
    ensures HasPageIn(init + [page], i) <==> HasPageIn(init, i) || i == page / ENTRIES
  {
    var pages := init + [page];
    if HasPageIn(init, i) {
      var j :| 0 <= j < |init| && init[j] / ENTRIES == i;
      assert pages[j] / ENTRIES == i;
    }
    assert pages[|init|] == page;
    if HasPageIn(pages, i) {
      var j :| 0 <= j < |pages| && pages[j] / ENTRIES == i;
      assert j < |init| ==> init[j] / ENTRIES == i;
    }
  }

  /** Two clear frames below 16 MiB for every page are enough whatever tables are there. */
  lemma TwoForEachPage(m: Machine, pages: seq<nat>)
    requires WellFormed(m) && PagesExist(pages) && LowClear(m.pmm) >= 2 * |pages|
    ensures Suffices(m, pages)
  {
    LastTableBound(m, pages);
    LowIsPart(m.pmm);
  }

  // ---- What a list that cannot be mapped leaves behind ----

  /** How many pages of the list, from its start, can be mapped. */
  ghost function Fitting(m: Machine, pages: seq<nat>): (k: nat)
    requires Shape(m) && PagesExist(pages)
    ensures k <= |pages| && (k == |pages| <==> Suffices(m, pages))
    ensures Suffices(m, pages[..k])
    ensures k < |pages| ==> !Suffices(m, pages[..k + 1])
  {
    if pages == [] then 0
    else if Suffices(m, pages) then
      assert pages[..|pages|] == pages;
      |pages|
    else
      var init := pages[..|pages| - 1];
      assert forall j :: 0 <= j <= |init| ==> init[..j] == pages[..j];
      assert pages[..|pages|] == pages;
      Fitting(m, init)
  }

  /** Mapping stops at page `k`: for want of a frame, or for want of a table, when the frame allocated for the
      page stays allocated. */
  ghost function LeftAt(m: Machine, pages: seq<nat>, k: nat, flags: Word): Machine
    requires Shape(m) && PagesExist(pages) && k <= |pages|
  {
    var m1 := MapAll(m, pages[..k], flags).0;
    if k == |pages| || AllocFrame(m1.pmm).1 == 0 then m1 else Allocated(m1)
  }

  /** The machine when a list is mapped up to the first failure. */
  ghost function LeftBehind(m: Machine, pages: seq<nat>, flags: Word): Machine
    requires Shape(m) && PagesExist(pages)
  {
    LeftAt(m, pages, Fitting(m, pages), flags)
  }

  /** The first failure is at the end of what fits, and it is a missing frame exactly when the pages and tables
      so far have used up every clear frame. */
  lemma StopsWhereItFits(m: Machine, pages: seq<nat>, k: nat, flags: Word)
    requires WellFormed(m) && PagesExist(pages) && k < |pages|
    requires MapAll(m, pages[..k], flags).1 && !MapAll(m, pages[..k + 1], flags).1
    ensures k == Fitting(m, pages)
    ensures AllocFrame(MapAll(m, pages[..k], flags).0.pmm).1 == 0
            <==> m.pmm.free == k + TablesNeeded(m, pages[..k])
  {
    hide MapAll, Suffices, AllocFrame, Spent, TablesNeeded, Fitting;
    ExactlyEnough(m, pages[..k], flags);
    ExactlyEnough(m, pages[..k + 1], flags);
    OnlyPrefix(m, pages, k, Fitting(m, pages), flags);
    AllUsedUp(m, pages[..k], MapAll(m, pages[..k], flags).0);
  }

  /** Only one prefix can be mapped while the next longer one cannot. */
  lemma OnlyPrefix(m: Machine, pages: seq<nat>, k: nat, f: nat, flags: Word)
    requires WellFormed(m) && PagesExist(pages) && k < |pages| && f <= |pages|
    requires Suffices(m, pages[..k]) && !Suffices(m, pages[..k + 1])
    requires Suffices(m, pages[..f]) && (f < |pages| ==> !Suffices(m, pages[..f + 1]))
    ensures f == k
  {
    hide MapAll, Suffices, Spent;
    if f < k { Shorter(m, pages, k, f + 1, flags); }
    if f > k { Shorter(m, pages, f, k + 1, flags); }
  }

  lemma AllUsedUp(m: Machine, pages: seq<nat>, m1: Machine)
    requires Shape(m) && PagesExist(pages) && Spent(m, pages, m1)
    ensures AllocFrame(m1.pmm).1 == 0 <==> m.pmm.free == |pages| + TablesNeeded(m, pages)
  {
    hide AllocFrame, TablesNeeded;
    OutOfClear(m1.pmm);
  }

  lemma Shorter(m: Machine, pages: seq<nat>, k: nat, j: nat, flags: Word)
    requires WellFormed(m) && PagesExist(pages) && j <= k <= |pages| && Suffices(m, pages[..k])
    ensures Suffices(m, pages[..j])
  {
    hide MapAll, Suffices, Spent;
    assert pages[..k][..j] == pages[..j];
    ExactlyEnough(m, pages[..k], flags);
    ExactlyEnough(m, pages[..j], flags);
    MapAllPrefix(m, pages[..k], j, flags);
  }

  lemma OutOfClear(p: Pmm)
    requires Accounted(p)
    ensures AllocFrame(p).1 == 0 <==> CountClear(p.used) == 0
  {
    assert p.used[..|p.used|] == p.used;
    AllocCosts(p, |p.used|);
  }
}
