/** Loading and teardown against each other: exactly when the frames that a teardown gives back are the ones
    that the program's pages and tables took from the allocator. */
module ProgramMemory {
  import opened Basics
  import opened Frames
  import opened Paging
  import opened PagingRuns
  import opened FrameBudget
  import opened Teardown
  import opened ElfImage
  import opened SameSpace

  /** A directory's words and the words of its tables after a page has been mapped for the user. */
  lemma MapWords(m: Machine, v: Word, phys: Word, flags: Word)
    requires WellFormed(m) && UserFlag(flags) && Map(m, v, phys, flags).1 == 0
    ensures var m1, d, i, k := Map(m, v, phys, flags).0, Dir(m), DirIndex(v), TableIndex(v);
      var t := TableAt(m1.mem, d, i);
      && m1.cr3 == m.cr3 && |m1.pmm.used| == |m.pmm.used| && t != d
      && (forall j :: 0 <= j < ENTRIES && j != i ==> Load(m1.mem, d, j) == Load(m.mem, d, j))
      && UserEntry(Load(m1.mem, d, i))
      && (forall g, j :: 0 <= g < FRAMES_OF_ADDRESS_SPACE && 0 <= j < ENTRIES && g != d && g != t ==>
           Load(m1.mem, g, j) == Load(m.mem, g, j))
      && UserEntry(Load(m1.mem, t, k)) && FrameOf(Load(m1.mem, t, k)) == FrameOf(phys)
      && (forall j :: 0 <= j < ENTRIES && j != k ==>
           Load(m1.mem, t, j) == if Present(Pde(m, v)) then Load(m.mem, t, j) else 0)
      && (if Present(Pde(m, v)) then t == FrameOf(Pde(m, v)) && m1.pmm == m.pmm
          else t > 0 && Available(m, t) && m1.pmm.used == m.pmm.used[t := true])
  {
    var t := GetTable(m, v, flags).1;
    GetTableKeeps(m, v, flags);
    EntryParts(FrameOf(phys), flags);
    if Present(Pde(m, v)) {
      WidenedParts(Pde(m, v), flags);
    } else {
      AllocSound(m.pmm, Clip(TABLE_LIMIT / FRAME_SIZE, |m.pmm.used|));
      EntryParts(t, flags);
    }
  }

  // ---- What a program owns ----

  /** Page `p` of the user half has a user mapping in its table, whatever its directory entry allows. */
  ghost predicate UserPage(m: Machine, p: nat)
    requires Shape(m)
  {
    && p < USER_PAGES && Present(Load(m.mem, Dir(m), p / ENTRIES))
    && UserEntry(Load(m.mem, TableAt(m.mem, Dir(m), p / ENTRIES), p % ENTRIES))
  }

  ghost function PageFrame(m: Machine, p: nat): nat
    requires Shape(m) && UserPage(m, p)
  {
    FrameOf(Load(m.mem, TableAt(m.mem, Dir(m), p / ENTRIES), p % ENTRIES))
  }

  /** Directory entry `i` of the user half names a table. */
  ghost predicate HasTable(m: Machine, i: nat)
    requires Shape(m)
  {
    i < USER_ENTRIES && Present(Load(m.mem, Dir(m), i))
  }

  /** Mapping one fresh user page, word by word. */
  lemma FreshPageWords(m: Machine, page: nat, flags: Word)
    requires WellFormed(m) && TablesDistinct(m, 0, USER_ENTRIES) && page < USER_PAGES && UserFlag(flags)
    requires AllocFrame(m.pmm).1 != 0 && MapFresh(m, page, flags).1 == 0
    ensures var m1, d, i, k := MapFresh(m, page, flags).0, Dir(m), page / ENTRIES, page % ENTRIES;
            var t, f := TableAt(m1.mem, d, i), FrameOf(AllocFrame(m.pmm).1);
      && WellFormed(m1) && TablesDistinct(m1, 0, USER_ENTRIES) && m1.cr3 == m.cr3 && t != d
      && Available(m, f) && Held(m1, f) && (forall g :: Held(m, g) ==> Held(m1, g))
      && (forall j :: 0 <= j < ENTRIES && j != i ==> Load(m1.mem, d, j) == Load(m.mem, d, j))
      && UserEntry(Load(m1.mem, d, i)) && UserEntry(Load(m1.mem, t, k)) && FrameOf(Load(m1.mem, t, k)) == f
      && (if Present(Load(m.mem, d, i)) then
            && t == TableAt(m.mem, d, i) && m1.pmm.used == m.pmm.used[f := true]
            && (forall j :: 0 <= j < ENTRIES && j != k ==> Load(m1.mem, t, j) == Load(m.mem, t, j))
          else
            && Available(m, t) && t != f && m1.pmm.used == m.pmm.used[f := true][t := true]
            && (forall j :: 0 <= j < ENTRIES && j != k ==> Load(m1.mem, t, j) == 0))
      && (forall u :: HasTable(m, u) && u != i ==>
            var g := TableAt(m.mem, d, u);
            g != t && g != d && forall j :: 0 <= j < ENTRIES ==> Load(m1.mem, g, j) == Load(m.mem, g, j))
  {
    hide Map, AllocFrame;
    var v, phys := PageBase(page), AllocFrame(m.pmm).1;
    var a := Allocated(m);
    PageStart(page);
    TakesOne(m);
    AllocFrameHolds(m);
    MapWords(a, v, phys, flags);
    MapHolds(a, v, phys, flags);
    forall u | HasTable(m, u) && u != DirIndex(v)
      ensures TableAt(m.mem, Dir(m), u) != TableAt(MapFresh(m, page, flags).0.mem, Dir(m), DirIndex(v))
    {
      assert Owned(a, FrameOf(Load(a.mem, Dir(a), u)));
      if Present(Pde(a, v)) { assert Present(Load(m.mem, Dir(m), DirIndex(v))); }
    }
  }

  lemma TakesOne(m: Machine)
    requires WellFormed(m) && AllocFrame(m.pmm).1 != 0
    ensures var f := FrameOf(AllocFrame(m.pmm).1);
      Available(m, f) && Allocated(m).pmm.used == m.pmm.used[f := true]
  {
    AllocSound(m.pmm, |m.pmm.used|);
  }

  /** The page gets the new frame; every other user page, and every other table, stays. */
  lemma FreshPageMaps(m: Machine, page: nat, flags: Word, p: nat)
    requires WellFormed(m) && TablesDistinct(m, 0, USER_ENTRIES) && page < USER_PAGES && UserFlag(flags)
    requires AllocFrame(m.pmm).1 != 0 && MapFresh(m, page, flags).1 == 0
    ensures var m1 := MapFresh(m, page, flags).0;
      && Shape(m1) && (UserPage(m1, p) <==> UserPage(m, p) || p == page)
      && (UserPage(m1, p) ==>
            PageFrame(m1, p) == if p == page then FrameOf(AllocFrame(m.pmm).1) else PageFrame(m, p))
  {
    hide MapFresh, AllocFrame, Load;
    FreshPageWords(m, page, flags);
    var m1, d, i := MapFresh(m, page, flags).0, Dir(m), page / ENTRIES;
    if p < USER_PAGES && p != page {
      if p / ENTRIES == i {
        assert p % ENTRIES != page % ENTRIES;
      } else {
        assert Load(m1.mem, d, p / ENTRIES) == Load(m.mem, d, p / ENTRIES);
        if Present(Load(m.mem, d, p / ENTRIES)) { assert HasTable(m, p / ENTRIES); }
      }
    }
  }

  // ---- The books ----

  /** `own` says which frame each loaded page has. */
  ghost predicate PagesAre(m: Machine, own: map<nat, nat>)
    requires Shape(m)
  {
    && (forall p: nat :: UserPage(m, p) <==> p in own)
    && (forall p: nat :: p in own ==> UserPage(m, p) && PageFrame(m, p) == own[p])
  }

  /** Frame `f` was taken since the start and serves as no table. */
  ghost predicate TakenSince(start: Machine, m: Machine, f: nat)
    requires Shape(m) && |start.pmm.used| == |m.pmm.used|
  {
    Held(m, f) && !start.pmm.used[f]
  }

  /** The pages have frames of their own, and so do the leaked ones, which no page has any more. */
  ghost predicate FramesApart(start: Machine, m: Machine, own: map<nat, nat>, leaked: set<nat>)
    requires Shape(m) && |start.pmm.used| == |m.pmm.used|
  {
    && (forall p: nat :: p in own ==> TakenSince(start, m, own[p]) && own[p] !in leaked)
    && (forall p: nat, q: nat :: p in own && q in own && p != q ==> own[p] != own[q])
    && (forall f :: f in leaked ==> TakenSince(start, m, f))
  }

  /** Slot `i` got its table since the start. */
  ghost predicate NewTable(start: Machine, m: Machine, i: nat)
    requires Shape(start) && Shape(m)
  {
    HasTable(m, i) && !HasTable(start, i)
  }

  /** Old tables stay, new ones are frames taken since the start, and a slot is open to the user if it was
      or if a page was loaded there. */
  ghost predicate TablesGrow(start: Machine, m: Machine, own: map<nat, nat>)
    requires Shape(start) && Shape(m)
  {
    && m.cr3 == start.cr3 && |m.pmm.used| == |start.pmm.used|
    && (forall i :: USER_ENTRIES <= i < ENTRIES ==> Load(m.mem, Dir(m), i) == Load(start.mem, Dir(m), i))
    && (forall i :: HasTable(start, i) ==> HasTable(m, i) && TableAt(m.mem, Dir(m), i) == TableAt(start.mem, Dir(m), i))
    && (forall i :: NewTable(start, m, i) ==>
          var t := TableAt(m.mem, Dir(m), i);
          t < |start.pmm.used| && !start.pmm.used[t] && UserSlot(m.mem, Dir(m), i))
    && (forall i: nat :: UserSlot(m.mem, Dir(m), i) <==> UserSlot(start.mem, Dir(m), i) || OwnsIn(own, i))
  }

  ghost predicate OwnsIn(own: map<nat, nat>, i: nat) {
    exists p: nat :: p in own && p < USER_PAGES && p / ENTRIES == i
  }

  /** Every frame in use now was in use at the start, or is a page's, leaked, or a new table. */
  ghost predicate UsedFor(start: Machine, m: Machine, own: map<nat, nat>, leaked: set<nat>)
    requires Shape(start) && Shape(m) && |m.pmm.used| == |start.pmm.used|
  {
    forall f :: 0 <= f < |m.pmm.used| ==>
      && (start.pmm.used[f] ==> m.pmm.used[f])
      && (m.pmm.used[f] && !start.pmm.used[f] ==>
            f in own.Values || f in leaked || exists i :: NewTable(start, m, i) && TableAt(m.mem, Dir(m), i) == f)
  }

  ghost predicate Books(start: Machine, m: Machine, own: map<nat, nat>, leaked: set<nat>)
    requires Shape(start) && Shape(m)
  {
    && WellFormed(m) && TablesDistinct(m, 0, USER_ENTRIES) && TablesGrow(start, m, own)
    && PagesAre(m, own) && FramesApart(start, m, own, leaked) && UsedFor(start, m, own, leaked)
  }

  ghost function Leaked(own: map<nat, nat>, leaked: set<nat>, page: nat): set<nat> {
    if page in own then leaked + {own[page]} else leaked
  }

  lemma PageBooked(start: Machine, m: Machine, own: map<nat, nat>, leaked: set<nat>, page: nat, flags: Word)
    requires Shape(start) && Shape(m) && Books(start, m, own, leaked) && page < USER_PAGES && UserFlag(flags)
    requires AllocFrame(m.pmm).1 != 0 && MapFresh(m, page, flags).1 == 0
    ensures var m1, f := MapFresh(m, page, flags).0, FrameOf(AllocFrame(m.pmm).1);
      Books(start, m1, own[page := f], Leaked(own, leaked, page))
  {
    hide MapFresh, AllocFrame, Load, PagesAre, FramesApart, UsedFor, TablesGrow, UserPage;
    FreshPageWords(m, page, flags);
    TablesBooked(start, m, own, leaked, page, flags);
    PagesBooked(m, own, page, flags);
    FramesBooked(start, m, own, leaked, page, flags);
    UsesBooked(start, m, own, leaked, page, flags);
  }

  lemma PagesBooked(m: Machine, own: map<nat, nat>, page: nat, flags: Word)
    requires WellFormed(m) && TablesDistinct(m, 0, USER_ENTRIES) && PagesAre(m, own) && page < USER_PAGES
    requires UserFlag(flags)
    requires AllocFrame(m.pmm).1 != 0 && MapFresh(m, page, flags).1 == 0
    ensures PagesAre(MapFresh(m, page, flags).0, own[page := FrameOf(AllocFrame(m.pmm).1)])
  {
    hide MapFresh, AllocFrame, UserPage;
    forall p: nat { FreshPageMaps(m, page, flags, p); }
  }

  lemma FramesBooked(start: Machine, m: Machine, own: map<nat, nat>, leaked: set<nat>, page: nat, flags: Word)
    requires Shape(start) && Shape(m) && Books(start, m, own, leaked) && page < USER_PAGES && UserFlag(flags)
    requires AllocFrame(m.pmm).1 != 0 && MapFresh(m, page, flags).1 == 0
    ensures var m1, f := MapFresh(m, page, flags).0, FrameOf(AllocFrame(m.pmm).1);
      |start.pmm.used| == |m1.pmm.used| && FramesApart(start, m1, own[page := f], Leaked(own, leaked, page))
  {
    hide MapFresh, AllocFrame, Load, PagesAre, WellFormed, TablesDistinct;
    FreshPageWords(m, page, flags);
    var f := FrameOf(AllocFrame(m.pmm).1);
    assert !start.pmm.used[f];
    forall g | TakenSince(start, m, g) ensures g != f && TakenSince(start, MapFresh(m, page, flags).0, g) {
    }
  }

  lemma TablesBooked(start: Machine, m: Machine, own: map<nat, nat>, leaked: set<nat>, page: nat, flags: Word)
    requires Shape(start) && Shape(m) && Books(start, m, own, leaked) && page < USER_PAGES && UserFlag(flags)
    requires AllocFrame(m.pmm).1 != 0 && MapFresh(m, page, flags).1 == 0
    ensures TablesGrow(start, MapFresh(m, page, flags).0, own[page := FrameOf(AllocFrame(m.pmm).1)])
  {
    hide MapFresh, AllocFrame, Load, PagesAre, FramesApart, WellFormed, TablesDistinct;
    FreshPageWords(m, page, flags);
    var m1, d, k := MapFresh(m, page, flags).0, Dir(m), page / ENTRIES;
    var own1 := own[page := FrameOf(AllocFrame(m.pmm).1)];
    forall i: nat ensures OwnsIn(own1, i) <==> OwnsIn(own, i) || i == k {
      assert page in own1;
      if OwnsIn(own, i) {
        var p: nat :| p in own && p < USER_PAGES && p / ENTRIES == i;
        assert p in own1;
      }
    }
    forall i | 0 <= i < ENTRIES && i != k ensures Load(m1.mem, d, i) == Load(m.mem, d, i) {
    }
    forall i | HasTable(start, i) ensures HasTable(m1, i) && TableAt(m1.mem, d, i) == TableAt(start.mem, d, i) {
      assert HasTable(m, i);
    }
    forall i | NewTable(start, m1, i)
      ensures var t := TableAt(m1.mem, d, i); t < |start.pmm.used| && !start.pmm.used[t] && UserSlot(m1.mem, d, i)
    {
      assert i != k ==> NewTable(start, m, i);
    }
    forall i: nat ensures UserSlot(m1.mem, d, i) <==> UserSlot(start.mem, d, i) || OwnsIn(own1, i) {
      assert i == k ==> OwnsIn(own1, i);
    }
  }

  lemma UsesBooked(start: Machine, m: Machine, own: map<nat, nat>, leaked: set<nat>, page: nat, flags: Word)
    requires Shape(start) && Shape(m) && Books(start, m, own, leaked) && page < USER_PAGES && UserFlag(flags)
    requires AllocFrame(m.pmm).1 != 0 && MapFresh(m, page, flags).1 == 0
    ensures var m1, f := MapFresh(m, page, flags).0, FrameOf(AllocFrame(m.pmm).1);
      |start.pmm.used| == |m1.pmm.used| && UsedFor(start, m1, own[page := f], Leaked(own, leaked, page))
  {
    hide MapFresh, AllocFrame, Load, PagesAre, FramesApart, WellFormed, TablesDistinct;
    FreshPageWords(m, page, flags);
    var m1, f, d := MapFresh(m, page, flags).0, FrameOf(AllocFrame(m.pmm).1), Dir(m);
    var own1, leaked1 := own[page := f], Leaked(own, leaked, page);
    forall i | NewTable(start, m, i) ensures NewTable(start, m1, i) && TableAt(m1.mem, d, i) == TableAt(m.mem, d, i) {
      assert i != page / ENTRIES ==> Load(m1.mem, d, i) == Load(m.mem, d, i);
    }
    forall g | g in own.Values ensures g in own1.Values || g in leaked1 {
      var p: nat :| p in own && own[p] == g;
      assert p != page ==> own1[p] == g;
    }
    assert own1[page] == f;
    forall g | 0 <= g < |m1.pmm.used| && m1.pmm.used[g] && !start.pmm.used[g]
      ensures g in own1.Values || g in leaked1 || exists i :: NewTable(start, m1, i) && TableAt(m1.mem, d, i) == g
    {
      if g != f && !m.pmm.used[g] {
        assert HasTable(m1, page / ENTRIES) && !HasTable(m, page / ENTRIES);
        assert NewTable(start, m1, page / ENTRIES);
      }
    }
  }

  // ---- Loading a list of pages ----

  ghost function Elements(pages: seq<nat>): set<nat> {
    set p | p in pages
  }

  ghost predicate NoRepeats(pages: seq<nat>) {
    forall i, j :: 0 <= i < j < |pages| ==> pages[i] != pages[j]
  }

  ghost predicate UserPages(pages: seq<nat>) {
    forall i :: 0 <= i < |pages| ==> pages[i] < USER_PAGES
  }

  /** A directory to load into: sound, no table in two slots of the user half, and no user page yet. Tables
      for the supervisor may be there. */
  ghost predicate Loadable(m: Machine) {
    WellFormed(m) && TablesDistinct(m, 0, USER_ENTRIES) && forall p :: !UserPage(m, p)
  }

  lemma {:induction false} LoadingBooked(m: Machine, pages: seq<nat>, flags: Word)
    returns (own: map<nat, nat>, leaked: set<nat>)
    requires Shape(m) && Loadable(m) && UserFlag(flags) && UserPages(pages)
    requires PagesExist(pages) && MapAll(m, pages, flags).1
    ensures Books(m, MapAll(m, pages, flags).0, own, leaked)
    ensures own.Keys == Elements(pages) && (leaked == {} <==> NoRepeats(pages))
  {
    hide Loadable, Books, AllocFrame, MapFresh, NoRepeats, UserPage;
    if pages == [] {
      own, leaked := map[], {};
      StartBooked(m);
    } else {
      var init, page := pages[..|pages| - 1], pages[|pages| - 1];
      own, leaked := LoadingBooked(m, init, flags);
      PageBooked(m, MapAll(m, init, flags).0, own, leaked, page, flags);
      assert forall p :: p in pages <==> p in init || p == page;
      leaked := Leaked(own, leaked, page);
      own := own[page := FrameOf(AllocFrame(MapAll(m, init, flags).0.pmm).1)];
      Repeats(pages);
    }
  }

  lemma Repeats(pages: seq<nat>)
    requires pages != []
    ensures var init, page := pages[..|pages| - 1], pages[|pages| - 1];
      NoRepeats(pages) <==> NoRepeats(init) && page !in Elements(init)
  {
    var n := |pages| - 1;
    var init := pages[..n];
    assert forall i :: 0 <= i < n ==> init[i] == pages[i];
  }

  lemma StartBooked(m: Machine)
    requires Loadable(m)
    ensures Books(m, m, map[], {}) && NoRepeats([])
  {
  }

  // ---- Teardown ----

  /** What the teardown reaches: the pages' frames and the tables of the slots open to the user. */
  lemma ReachedBooks(start: Machine, m: Machine, own: map<nat, nat>, leaked: set<nat>, x: nat)
    requires Shape(start) && Shape(m) && Books(start, m, own, leaked)
    ensures Reached(m.mem, Dir(m), USER_ENTRIES, x) <==>
      x in own.Values || exists i :: UserSlot(m.mem, Dir(m), i) && TableAt(m.mem, Dir(m), i) == x
  {
    hide Load, FramesApart, UsedFor, WellFormed, TablesDistinct;
    var d := Dir(m);
    if x in own.Values {
      var p: nat :| p in own && own[p] == x;
      assert UserPage(m, p) && OwnsIn(own, p / ENTRIES);
      assert UserSlot(m.mem, d, p / ENTRIES) && PageIn(m.mem, TableAt(m.mem, d, p / ENTRIES), x);
    }
    if Reached(m.mem, d, USER_ENTRIES, x) {
      var i := ReachedVia(m.mem, d, x);
      if x != TableAt(m.mem, d, i) {
        var k :| 0 <= k < ENTRIES && UserEntry(Load(m.mem, TableAt(m.mem, d, i), k))
                 && FrameOf(Load(m.mem, TableAt(m.mem, d, i), k)) == x;
        PageNumber(i, k);
        assert UserPage(m, i * ENTRIES + k);
        assert own[i * ENTRIES + k] == x;
      }
    }
  }

  lemma PageNumber(i: nat, k: nat)
    requires i < USER_ENTRIES && k < ENTRIES
    ensures var p := i * ENTRIES + k; p < USER_PAGES && p / ENTRIES == i && p % ENTRIES == k
  {
  }

  ghost function ReachedVia(mem: seq<Frame>, d: nat, x: nat): (i: nat)
    requires |mem| == FRAMES_OF_ADDRESS_SPACE && d < FRAMES_OF_ADDRESS_SPACE && Reached(mem, d, USER_ENTRIES, x)
    ensures UserSlot(mem, d, i) && (x == TableAt(mem, d, i) || PageIn(mem, TableAt(mem, d, i), x))
  {
    var i :|
      && 0 <= i < USER_ENTRIES && UserSlot(mem, d, i)
      && (x == TableAt(mem, d, i) || PageIn(mem, TableAt(mem, d, i), x));
    i
  }

  /** The teardown takes the table of slot `i` away from the supervisor: it was there, in a frame that the
      allocator manages, and the slot was open to the user or has been opened by loading a page there. */
  ghost predicate TableLost(m: Machine, pages: seq<nat>, i: nat)
    requires Shape(m)
  {
    && HasTable(m, i) && TableAt(m.mem, Dir(m), i) < |m.pmm.used|
    && (UserSlot(m.mem, Dir(m), i) || HasPageIn(pages, i))
  }

  lemma PagesOwned(pages: seq<nat>, own: map<nat, nat>, i: nat)
    requires own.Keys == Elements(pages) && UserPages(pages)
    ensures OwnsIn(own, i) <==> HasPageIn(pages, i)
  {
    if HasPageIn(pages, i) {
      var j :| 0 <= j < |pages| && pages[j] / ENTRIES == i;
      assert pages[j] in own;
    }
    if OwnsIn(own, i) {
      var p: nat :| p in own && p < USER_PAGES && p / ENTRIES == i;
      var j :| 0 <= j < |pages| && pages[j] == p;
      assert pages[j] / ENTRIES == i;
    }
  }

  lemma NoSelfMap(m: Machine)
    requires WellFormed(m)
    ensures NotSelfMapped(m.mem, Dir(m))
  {
    forall i | 0 <= i < USER_ENTRIES && UserSlot(m.mem, Dir(m), i) ensures TableAt(m.mem, Dir(m), i) != Dir(m) {
      assert Owned(m, FrameOf(Load(m.mem, Dir(m), i)));
    }
  }

  /** Frame `f` is a table that was there at the start, in a slot now open to the user. */
  ghost predicate OpenedTable(start: Machine, m: Machine, f: nat)
    requires Shape(start) && Shape(m)
  {
    exists i :: HasTable(start, i) && UserSlot(m.mem, Dir(m), i) && TableAt(start.mem, Dir(start), i) == f
  }

  /** The flags after the teardown, frame by frame. */
  lemma FlagsAfter(start: Machine, m: Machine, own: map<nat, nat>, leaked: set<nat>, f: nat)
    requires WellFormed(start) && Shape(m) && Books(start, m, own, leaked) && f < |m.pmm.used|
    ensures m.pmm.used[f] && !Reached(m.mem, Dir(m), USER_ENTRIES, f) <==>
      || (start.pmm.used[f] && !OpenedTable(start, m, f))
      || f in leaked
  {
    hide Load, PagesAre, TablesDistinct;
    ReachedBooks(start, m, own, leaked, f);
    forall i | UserSlot(m.mem, Dir(m), i) ensures HasTable(m, i) && (f in leaked ==> TableAt(m.mem, Dir(m), i) != f) {
      assert IsTable(m, TableAt(m.mem, Dir(m), i));
    }
    if f in own.Values {
      var p: nat :| p in own && own[p] == f;
      assert TakenSince(start, m, own[p]);
    }
  }

  /** The round trip, exactly. A program's pages are loaded into any directory without user pages and torn
      down: the allocator is as it was before if and only if no page was loaded twice and no table that was
      already there, in a frame the allocator manages, lies in a slot open to the user before or opened by
      the load. */
  lemma ProgramMemoryReturns(m: Machine, pages: seq<nat>, flags: Word)
    requires Shape(m) && Loadable(m) && m.cr3 != 0 && UserFlag(flags) && UserPages(pages)
    requires PagesExist(pages) && MapAll(m, pages, flags).1
    ensures FreeUserSpace(MapAll(m, pages, flags).0, m.cr3).pmm == m.pmm <==>
      NoRepeats(pages) && !exists i :: TableLost(m, pages, i)
  {
    hide MapAll, Reached, FramesApart, PagesAre, UsedFor;
    var own, leaked := LoadingBooked(m, pages, flags);
    var m1 := MapAll(m, pages, flags).0;
    NoSelfMap(m1);
    ReleasesExactly(m1, m.cr3);
    var after := FreeUserSpace(m1, m.cr3).pmm;
    forall f | 0 <= f < |m.pmm.used|
      ensures after.used[f] <==>
        (m.pmm.used[f] && !exists i :: TableLost(m, pages, i) && TableAt(m.mem, Dir(m), i) == f) || f in leaked
    {
      FlagsAfter(m, m1, own, leaked, f);
      LostTables(m, m1, own, leaked, pages, f);
    }
    LeakedTaken(m, m1, own, leaked);
    if i :| TableLost(m, pages, i) {
      var f := TableAt(m.mem, Dir(m), i);
      assert Owned(m, FrameOf(Load(m.mem, Dir(m), i)));
      assert m.pmm.used[f] && f !in leaked && !after.used[f];
    } else {
      if leaked == {} { assert after.used == m.pmm.used; }
      else {
        var f :| f in leaked;
        assert after.used[f] && !m.pmm.used[f];
      }
    }
  }

  lemma LeakedTaken(start: Machine, m: Machine, own: map<nat, nat>, leaked: set<nat>)
    requires Shape(start) && Shape(m) && Books(start, m, own, leaked)
    ensures forall f :: f in leaked ==> f < |start.pmm.used| && !start.pmm.used[f]
  {
    forall f | f in leaked ensures f < |start.pmm.used| && !start.pmm.used[f] {
      assert TakenSince(start, m, f);
    }
  }

  lemma LostTables(start: Machine, m: Machine, own: map<nat, nat>, leaked: set<nat>, pages: seq<nat>, f: nat)
    requires Shape(start) && Shape(m) && Books(start, m, own, leaked) && own.Keys == Elements(pages) && UserPages(pages)
    requires f < |start.pmm.used|
    ensures OpenedTable(start, m, f)
            <==> exists i :: TableLost(start, pages, i) && TableAt(start.mem, Dir(start), i) == f
  {
    forall i | HasTable(start, i)
      ensures UserSlot(m.mem, Dir(m), i) <==> UserSlot(start.mem, Dir(m), i) || HasPageIn(pages, i)
    {
      PagesOwned(pages, own, i);
    }
  }

  // ---- A loaded ELF file ----

  /** The same for what loading an ELF file leaves: the pages are those of its segments and of the stack. */
  lemma ElfReturns(start: Machine, m: Machine, bytes: seq<Byte>, ss: seq<Segment>, flags: Word)
    requires Shape(start) && Loadable(start) && start.cr3 != 0 && UserFlag(flags) && AllPlaced(bytes, ss)
    requires MapAll(start, ProgramPages(bytes, ss), flags).1
    requires WellFormed(m) && Alike(m, MapAll(start, ProgramPages(bytes, ss), flags).0)
    ensures FreeUserSpace(m, m.cr3).pmm == start.pmm <==>
      NoRepeats(ProgramPages(bytes, ss)) && !exists i :: TableLost(start, ProgramPages(bytes, ss), i)
  {
    hide MapAll, Loadable, ProgramPages, TableLost, NoRepeats;
    var pages := ProgramPages(bytes, ss);
    var own, leaked := LoadingBooked(start, pages, flags);
    ProgramMemoryReturns(start, pages, flags);
    NoSelfMap(m);
    NoSelfMap(MapAll(start, pages, flags).0);
    SameTeardown(m, MapAll(start, pages, flags).0);
  }

  /** The stack lies in slot 1, where the boot directory has a supervisor table. So whatever the program, as
      long as that table's frame is managed, its teardown gives the table away. */
  lemma StackLosesTable(start: Machine, m: Machine, bytes: seq<Byte>, ss: seq<Segment>, flags: Word)
    requires Shape(start) && Loadable(start) && start.cr3 != 0 && UserFlag(flags) && AllPlaced(bytes, ss)
    requires MapAll(start, ProgramPages(bytes, ss), flags).1
    requires WellFormed(m) && Alike(m, MapAll(start, ProgramPages(bytes, ss), flags).0)
    requires HasTable(start, 1) && TableAt(start.mem, Dir(start), 1) < |start.pmm.used|
    ensures FreeUserSpace(m, m.cr3).pmm != start.pmm
  {
    hide MapAll, Loadable, NoRepeats;
    ElfReturns(start, m, bytes, ss, flags);
    var pages := ProgramPages(bytes, ss);
    var k := |LoadedPages(bytes, ss)|;
    assert pages[k] == SegmentPages(STACK_BASE, STACK_PAGES * FRAME_SIZE)[0] == 0x400;
    assert pages[k] / ENTRIES == 1;
    assert TableLost(start, pages, 1);
  }

  // ---- What the directory needs ----

  /** An entry of the kernel half names a table that the teardown gives away. */
  ghost predicate KernelLoses(m: Machine, pages: seq<nat>, i: nat)
    requires Shape(m)
  {
    && USER_ENTRIES <= i < ENTRIES && Present(Load(m.mem, Dir(m), i))
    && exists j :: TableLost(m, pages, j) && TableAt(m.mem, Dir(m), j) == TableAt(m.mem, Dir(m), i)
  }

  /** The directory stays sound through load and teardown if and only if no entry of the kernel half names a
      table that is given away. In the boot directory slot 768 does, when a page is loaded in slot 0. */
  lemma DirectoryStaysSound(m: Machine, pages: seq<nat>, flags: Word)
    requires Shape(m) && Loadable(m) && m.cr3 != 0 && UserFlag(flags) && UserPages(pages)
    requires PagesExist(pages) && MapAll(m, pages, flags).1
    ensures WellFormed(FreeUserSpace(MapAll(m, pages, flags).0, m.cr3)) <==> !exists i :: KernelLoses(m, pages, i)
  {
    hide MapAll, FreeUserSpace, NoRepeats, Books, NeededSurvive, KernelLoses;
    var own, leaked := LoadingBooked(m, pages, flags);
    var m1 := MapAll(m, pages, flags).0;
    BooksSound(m, m1, own, leaked);
    NoSelfMap(m1);
    StaysWellFormed(m1);
    NeededExactly(m, m1, own, leaked, pages);
  }

  lemma NeededExactly(start: Machine, m: Machine, own: map<nat, nat>, leaked: set<nat>, pages: seq<nat>)
    requires Shape(start) && WellFormed(start) && Shape(m) && Books(start, m, own, leaked)
    requires own.Keys == Elements(pages) && UserPages(pages)
    ensures NeededSurvive(m) <==> !exists i :: KernelLoses(start, pages, i)
  {
    hide Books, Gone, KernelLoses, WellFormed, Load;
    NothingElseGone(start, m, own, leaked);
    forall i: nat | Survives(m, i) ensures Gone(m, FrameOf(Load(m.mem, Dir(m), i))) <==> KernelLoses(start, pages, i) {
      SurvivorGone(start, m, own, leaked, pages, i);
    }
    forall i: nat | KernelLoses(start, pages, i) ensures Survives(m, i) {
      KernelSurvives(start, m, own, leaked, pages, i);
    }
  }

  lemma BooksSound(start: Machine, m: Machine, own: map<nat, nat>, leaked: set<nat>)
    requires Shape(start) && Shape(m) && Books(start, m, own, leaked)
    ensures WellFormed(m) && m.cr3 == start.cr3
  {
  }

  lemma KernelSurvives(start: Machine, m: Machine, own: map<nat, nat>, leaked: set<nat>, pages: seq<nat>, i: nat)
    requires Shape(start) && Shape(m) && Books(start, m, own, leaked) && KernelLoses(start, pages, i)
    ensures Survives(m, i)
  {
    assert Load(m.mem, Dir(m), i) == Load(start.mem, Dir(m), i);
  }

  lemma OwnedFrames(start: Machine, m: Machine, own: map<nat, nat>, leaked: set<nat>)
    requires Shape(start) && Shape(m) && Books(start, m, own, leaked)
    ensures forall f :: f in own.Values ==> f != 0 && f != Dir(m) && !IsTable(m, f)
  {
    hide PagesAre, UsedFor;
    forall f | f in own.Values ensures f != 0 && f != Dir(m) && !IsTable(m, f) {
      var p: nat :| p in own && own[p] == f;
      assert TakenSince(start, m, own[p]);
    }
  }

  /** Neither frame 0 nor the directory is reachable as user memory. */
  lemma NothingElseGone(start: Machine, m: Machine, own: map<nat, nat>, leaked: set<nat>)
    requires Shape(start) && Shape(m) && Books(start, m, own, leaked)
    ensures !Gone(m, 0) && !Gone(m, Dir(m))
  {
    hide PagesAre, UsedFor, TablesGrow, FramesApart;
    ReachedBooks(start, m, own, leaked, 0);
    ReachedBooks(start, m, own, leaked, Dir(m));
    OwnedFrames(start, m, own, leaked);
    forall i | UserSlot(m.mem, Dir(m), i)
      ensures TableAt(m.mem, Dir(m), i) != 0 && TableAt(m.mem, Dir(m), i) != Dir(m)
    {
      assert Owned(m, FrameOf(Load(m.mem, Dir(m), i)));
    }
  }

  /** A surviving entry loses its table exactly when it is one of the kernel half that shares an opened one. */
  lemma SurvivorGone(start: Machine, m: Machine, own: map<nat, nat>, leaked: set<nat>, pages: seq<nat>, i: nat)
    requires Shape(start) && WellFormed(start) && Shape(m) && Books(start, m, own, leaked) && Survives(m, i)
    requires own.Keys == Elements(pages) && UserPages(pages)
    ensures Gone(m, FrameOf(Load(m.mem, Dir(m), i))) <==> KernelLoses(start, pages, i)
  {
    hide PagesAre, UsedFor, FramesApart;
    var t := TableAt(m.mem, Dir(m), i);
    ReachedBooks(start, m, own, leaked, t);
    OwnedFrames(start, m, own, leaked);
    assert IsTable(m, t);
    if j :| UserSlot(m.mem, Dir(m), j) && TableAt(m.mem, Dir(m), j) == t && t < |m.pmm.used| {
      assert HasTable(m, j);
      if i >= USER_ENTRIES {
        assert Owned(start, FrameOf(Load(start.mem, Dir(m), i)));
        assert !NewTable(start, m, j);
        PagesOwned(pages, own, j);
        assert TableLost(start, pages, j);
      }
    }
    if KernelLoses(start, pages, i) {
      var j :| TableLost(start, pages, j) && TableAt(start.mem, Dir(start), j) == TableAt(start.mem, Dir(start), i);
      PagesOwned(pages, own, j);
      assert UserSlot(m.mem, Dir(m), j);
    }
  }

  // ---- The second time ----

  lemma EntriesAfterTeardown(m: Machine, i: nat)
    requires WellFormed(m) && m.cr3 != 0 && i < ENTRIES
    ensures var m1 := FreeUserSpace(m, m.cr3);
      Load(m1.mem, Dir(m), i) == if UserSlot(m.mem, Dir(m), i) then 0 else Load(m.mem, Dir(m), i)
  {
    NoSelfMap(m);
    ErasesExactly(m, m.cr3, Dir(m), i);
  }

  /** What the teardown took away it cannot take twice: loading the same pages again, on a directory that
      stayed sound, returns everything as long as no page is loaded twice. */
  lemma SecondLoadReturns(m: Machine, pages: seq<nat>, flags: Word)
    requires Shape(m) && Loadable(m) && m.cr3 != 0 && UserFlag(flags) && UserPages(pages)
    requires PagesExist(pages) && MapAll(m, pages, flags).1
    requires WellFormed(FreeUserSpace(MapAll(m, pages, flags).0, m.cr3))
    requires MapAll(FreeUserSpace(MapAll(m, pages, flags).0, m.cr3), pages, flags).1
    ensures var m2 := FreeUserSpace(MapAll(m, pages, flags).0, m.cr3);
      FreeUserSpace(MapAll(m2, pages, flags).0, m2.cr3).pmm == m2.pmm <==> NoRepeats(pages)
  {
    hide MapAll, FramesApart, UsedFor, FreeUserSpace, NoRepeats;
    var own, leaked := LoadingBooked(m, pages, flags);
    var m1 := MapAll(m, pages, flags).0;
    var m2 := FreeUserSpace(m1, m.cr3);
    NoSelfMap(m1);
    ReleasesExactly(m1, m.cr3);
    CleanHalf(m, m1, own, leaked);
    forall i ensures !TableLost(m2, pages, i) {
      if HasTable(m2, i) {
        EntriesAfterTeardown(m1, i);
        PagesOwned(pages, own, i);
      }
    }
    ProgramMemoryReturns(m2, pages, flags);
  }

  /** User pages lie in slots open to the user. */
  lemma OpenToUser(start: Machine, m: Machine, own: map<nat, nat>, leaked: set<nat>, p: nat)
    requires Shape(start) && Shape(m) && Books(start, m, own, leaked)
    ensures UserPage(m, p) ==> UserSlot(m.mem, Dir(m), p / ENTRIES)
  {
    hide Load, FramesApart, UsedFor;
    if UserPage(m, p) { assert OwnsIn(own, p / ENTRIES); }
  }

  lemma CleanHalf(start: Machine, m: Machine, own: map<nat, nat>, leaked: set<nat>)
    requires Shape(start) && Shape(m) && Books(start, m, own, leaked) && m.cr3 != 0
    requires WellFormed(FreeUserSpace(m, m.cr3)) && FreeUserSpace(m, m.cr3).cr3 == m.cr3
    ensures Loadable(FreeUserSpace(m, m.cr3))
  {
    hide FreeUserSpace, FramesApart, UsedFor, TablesGrow, PagesAre, Load;
    var m2, d := FreeUserSpace(m, m.cr3), Dir(m);
    NoSelfMap(m);
    forall i | 0 <= i < USER_ENTRIES
      ensures Load(m2.mem, d, i) == if UserSlot(m.mem, d, i) then 0 else Load(m.mem, d, i)
    {
      EntriesAfterTeardown(m, i);
    }
    forall p: nat ensures !UserPage(m2, p) {
      OpenToUser(start, m, own, leaked, p);
      if p < USER_PAGES && Present(Load(m2.mem, d, p / ENTRIES)) {
        var t := TableAt(m.mem, d, p / ENTRIES);
        assert Owned(m, FrameOf(Load(m.mem, d, p / ENTRIES)));
        ErasesExactly(m, m.cr3, t, p % ENTRIES);
      }
    }
  }
}
