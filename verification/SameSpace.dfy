/** Machines with the same address space and the same allocator: only the contents of pages may differ. */
module SameSpace {
  import opened Basics
  import opened Frames
  import opened Paging
  import opened PagingRuns
  import opened FrameBudget
  import opened Teardown
  import opened UserMemory

  ghost predicate Alike(a: Machine, b: Machine) {
    && Shape(a) && Shape(b) && a.cr3 == b.cr3 && a.pmm == b.pmm
    && (forall j :: 0 <= j < ENTRIES ==> Load(a.mem, Dir(a), j) == Load(b.mem, Dir(a), j))
    && (forall t, j | IsTable(a, t) && 0 <= j < ENTRIES :: Load(a.mem, t, j) == Load(b.mem, t, j))
  }

  lemma IsTableOf(m: Machine, i: nat)
    requires Shape(m) && i < ENTRIES && Present(Load(m.mem, Dir(m), i))
    ensures IsTable(m, FrameOf(Load(m.mem, Dir(m), i)))
  {
  }

  /** The step of mapping that finds or makes a table. */
  lemma SameGetTable(a: Machine, b: Machine, v: Word, flags: Word)
    requires WellFormed(a) && Alike(a, b)
    ensures GetTable(a, v, flags).1 == GetTable(b, v, flags).1
    ensures Alike(GetTable(a, v, flags).0, GetTable(b, v, flags).0)
  {
    hide AllocFrameBelow;
    var (a1, t) := GetTable(a, v, flags);
    var b1 := GetTable(b, v, flags).0;
    GetTableTables(a, v, flags);
    if Present(Pde(a, v)) { WidenedParts(Pde(a, v), flags); }
    forall g, j | IsTable(a1, g) && 0 <= j < ENTRIES ensures Load(a1.mem, g, j) == Load(b1.mem, g, j) {
      var i :| 0 <= i < ENTRIES && Present(Load(a1.mem, Dir(a1), i)) && FrameOf(Load(a1.mem, Dir(a1), i)) == g;
      if Present(Load(a.mem, Dir(a), i)) {
        IsTableOf(a, i);
        assert Owned(a, g);
        TableUntouched(a, v, flags, g, j);
        TableUntouched(b, v, flags, g, j);
      } else {
        assert g == t;
        TableCleared(a, v, flags, j);
        TableCleared(b, v, flags, j);
      }
    }
  }

  lemma TableUntouched(m: Machine, v: Word, flags: Word, g: nat, j: nat)
    requires Shape(m) && g < FRAMES_OF_ADDRESS_SPACE && g != Dir(m) && j < ENTRIES && Accounted(m.pmm)
    requires !Available(m, g)
    ensures Load(GetTable(m, v, flags).0.mem, g, j) == Load(m.mem, g, j)
  {
    AllocSound(m.pmm, Clip(TABLE_LIMIT / FRAME_SIZE, |m.pmm.used|));
  }

  lemma TableCleared(m: Machine, v: Word, flags: Word, j: nat)
    requires Shape(m) && !Present(Pde(m, v)) && GetTable(m, v, flags).1 != 0 && GetTable(m, v, flags).1 != Dir(m)
    requires j < ENTRIES
    ensures Load(GetTable(m, v, flags).0.mem, GetTable(m, v, flags).1, j) == 0
  {
  }

  lemma SameStore(a: Machine, b: Machine, t: nat, k: nat, w: Word)
    requires Alike(a, b) && t < FRAMES_OF_ADDRESS_SPACE && t != Dir(a) && k < ENTRIES
    ensures Alike(a.(mem := Store(a.mem, t, k, w)), b.(mem := Store(b.mem, t, k, w)))
  {
    var a1 := a.(mem := Store(a.mem, t, k, w));
    forall g | IsTable(a1, g) ensures IsTable(a, g) {
      var i :| 0 <= i < ENTRIES && Present(Load(a1.mem, Dir(a1), i)) && FrameOf(Load(a1.mem, Dir(a1), i)) == g;
      IsTableOf(a, i);
    }
  }

  lemma SameMapFresh(a: Machine, b: Machine, page: nat, flags: Word)
    requires WellFormed(a) && Alike(a, b) && page < FRAMES_OF_ADDRESS_SPACE
    ensures MapFresh(a, page, flags).1 == MapFresh(b, page, flags).1
    ensures MapFresh(a, page, flags).1 == 0 ==> Alike(MapFresh(a, page, flags).0, MapFresh(b, page, flags).0)
  {
    hide AllocFrame, GetTable, Store;
    AllocFrameHolds(a);
    var v, phys := PageBase(page), AllocFrame(a.pmm).1;
    var c, d := Allocated(a), Allocated(b);
    SameAllocated(a, b);
    SameGetTable(c, d, v, flags);
    GetTableKeeps(c, v, flags);
    var (c1, t) := GetTable(c, v, flags);
    if t != 0 { SameStore(c1, GetTable(d, v, flags).0, t, TableIndex(v), Entry(FrameOf(phys), flags)); }
  }

  lemma SameAllocated(a: Machine, b: Machine)
    requires Alike(a, b)
    ensures Alike(Allocated(a), Allocated(b))
  {
    var a1, b1 := Allocated(a), Allocated(b);
    assert a1.mem == a.mem && b1.mem == b.mem && Dir(a1) == Dir(a);
    forall g | IsTable(a1, g) ensures IsTable(a, g) {
      var i :| 0 <= i < ENTRIES && Present(Load(a.mem, Dir(a), i)) && FrameOf(Load(a.mem, Dir(a), i)) == g;
      IsTableOf(a, i);
    }
  }

  /** A store into a page is invisible to the tables. */
  lemma SameAfterWrite(a: Machine, b: Machine, v: Word, byte: Byte)
    requires WellFormed(a) && Alike(a, b) && Walk(a, v).Some? && Held(a, FrameOf(Walk(a, v).value))
    ensures Alike(WriteByte(a, v, byte), b)
  {
    hide WithByte, ByteOf, Walk;
    var a1 := WriteByte(a, v, byte);
    forall g | IsTable(a1, g) ensures IsTable(a, g) {
      var i :| 0 <= i < ENTRIES && Present(Load(a1.mem, Dir(a1), i)) && FrameOf(Load(a1.mem, Dir(a1), i)) == g;
      IsTableOf(a, i);
    }
  }

  /** Tearing down gives the same frames back. */
  lemma SameTeardown(a: Machine, b: Machine)
    requires Alike(a, b) && Accounted(a.pmm) && a.cr3 != 0
    requires NotSelfMapped(a.mem, Dir(a)) && NotSelfMapped(b.mem, Dir(b))
    ensures FreeUserSpace(a, a.cr3).pmm == FreeUserSpace(b, b.cr3).pmm
  {
    hide FreeUserSpace, Load;
    ReleasesExactly(a, a.cr3);
    ReleasesExactly(b, b.cr3);
    forall f: nat ensures Reached(a.mem, Dir(a), USER_ENTRIES, f) <==> Reached(b.mem, Dir(a), USER_ENTRIES, f) {
      forall i | UserSlot(a.mem, Dir(a), i)
        ensures PageIn(a.mem, TableAt(a.mem, Dir(a), i), f) <==> PageIn(b.mem, TableAt(a.mem, Dir(a), i), f)
      {
        IsTableOf(a, i);
        SamePages(a, b, TableAt(a.mem, Dir(a), i), f);
      }
      assert forall i :: 0 <= i < USER_ENTRIES ==> (UserSlot(a.mem, Dir(a), i) <==> UserSlot(b.mem, Dir(a), i));
    }
    assert FreeUserSpace(a, a.cr3).pmm.used == FreeUserSpace(b, b.cr3).pmm.used;
  }

  lemma SamePages(a: Machine, b: Machine, t: nat, f: nat)
    requires Alike(a, b) && IsTable(a, t)
    ensures PageIn(a.mem, t, f) <==> PageIn(b.mem, t, f)
  {
    hide Load;
    if PageIn(a.mem, t, f) {
      var k :| 0 <= k < ENTRIES && UserEntry(Load(a.mem, t, k)) && FrameOf(Load(a.mem, t, k)) == f;
      assert UserEntry(Load(b.mem, t, k));
    }
    if PageIn(b.mem, t, f) {
      var k :| 0 <= k < ENTRIES && UserEntry(Load(b.mem, t, k)) && FrameOf(Load(b.mem, t, k)) == f;
      assert UserEntry(Load(a.mem, t, k));
    }
  }
}
