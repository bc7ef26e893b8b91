/** Whether the kernel reaches its page tables where it looks for them. kernel/mm/vmm.c uses the physical
    address of the directory or of a table as a pointer, which finds the table only while that address is
    translated to itself. */
module TableReach {
  import opened Basics
  import opened Frames
  import opened Paging
  import opened PagingRuns

  /** The code follows a pointer to this frame, or may do so next: the directory, its tables, and every frame
      that can still become a table. */
  ghost predicate Needed(m: Machine, f: nat)
    requires Shape(m)
  {
    f == Dir(m) || IsTable(m, f) || (Available(m, f) && f < TABLE_LIMIT / FRAME_SIZE)
  }

  ghost predicate Identity(m: Machine, f: nat)
    requires Shape(m) && f < FRAMES_OF_ADDRESS_SPACE
  {
    Walk(m, PageBase(f)) == Some(PageBase(f))
  }

  ghost predicate Findable(m: Machine)
    requires Shape(m)
  {
    forall f: nat :: f < FRAMES_OF_ADDRESS_SPACE && Needed(m, f) ==> Identity(m, f)
  }

  /** Then a pointer to any word of such a frame hits that word. */
  lemma FindsWords(m: Machine, f: nat, k: nat)
    requires Shape(m) && Findable(m) && Needed(m, f) && f < FRAMES_OF_ADDRESS_SPACE && k < ENTRIES
    ensures Walk(m, PageBase(f) + 4 * k) == Some(PageBase(f) + 4 * k)
  {
    hide Needed;
    assert Identity(m, f);
    InsidePage(f, 4 * k);
  }

  lemma InsidePage(f: nat, o: nat)
    requires f < FRAMES_OF_ADDRESS_SPACE && o < FRAME_SIZE
    ensures var v: Word := PageBase(f) + o;
      DirIndex(v) == DirIndex(PageBase(f)) && TableIndex(v) == TableIndex(PageBase(f)) && Offset(v) == o
  {
  }

  // ---- What each operation does to it ----

  /** Getting a table makes no frame needed and none superfluous: a new table was a candidate before. */
  lemma GetTableNeeds(m: Machine, v: Word, flags: Word)
    requires WellFormed(m)
    ensures var m1 := GetTable(m, v, flags).0;
      forall f: nat :: f < FRAMES_OF_ADDRESS_SPACE ==> (Needed(m1, f) <==> Needed(m, f))
  {
    var (m1, t) := GetTable(m, v, flags);
    var d := Dir(m);
    if Present(Pde(m, v)) {
      WidenedParts(Pde(m, v), flags);
      SameNames(m, m1);
    } else {
      AllocSound(m.pmm, Clip(TABLE_LIMIT / FRAME_SIZE, |m.pmm.used|));
      if t != 0 {
        EntryParts(t, flags);
        assert Available(m, t) && t < TABLE_LIMIT / FRAME_SIZE;
        forall i | 0 <= i < ENTRIES
          ensures Load(m1.mem, d, i) == if i == DirIndex(v) then Entry(t, flags) else Load(m.mem, d, i)
        {
        }
        forall f: nat ensures IsTable(m1, f) <==> IsTable(m, f) || f == t { OneTableMore(m, m1, DirIndex(v), t, f); }
      }
    }
  }

  /** Tables are determined by presence and frames of the directory's words. */
  lemma SameNames(m: Machine, m1: Machine)
    requires Shape(m) && Shape(m1) && m1.cr3 == m.cr3
    requires forall i :: 0 <= i < ENTRIES ==>
      && Present(Load(m1.mem, Dir(m), i)) == Present(Load(m.mem, Dir(m), i))
      && FrameOf(Load(m1.mem, Dir(m), i)) == FrameOf(Load(m.mem, Dir(m), i))
    ensures forall f: nat :: IsTable(m1, f) <==> IsTable(m, f)
  {
    assert Dir(m1) == Dir(m);
    forall f: nat ensures IsTable(m1, f) <==> IsTable(m, f) {
      if IsTable(m, f) {
        var i :| 0 <= i < ENTRIES && Present(Load(m.mem, Dir(m), i)) && FrameOf(Load(m.mem, Dir(m), i)) == f;
        assert Present(Load(m1.mem, Dir(m), i));
      }
      if IsTable(m1, f) {
        var i :| 0 <= i < ENTRIES && Present(Load(m1.mem, Dir(m), i)) && FrameOf(Load(m1.mem, Dir(m), i)) == f;
        assert Present(Load(m.mem, Dir(m), i));
      }
    }
  }

  lemma OneTableMore(m: Machine, m1: Machine, at: nat, t: nat, f: nat)
    requires Shape(m) && Shape(m1) && m1.cr3 == m.cr3 && at < ENTRIES
    requires !Present(Load(m.mem, Dir(m), at))
    requires Present(Load(m1.mem, Dir(m), at)) && FrameOf(Load(m1.mem, Dir(m), at)) == t
    requires forall i :: 0 <= i < ENTRIES && i != at ==> Load(m1.mem, Dir(m), i) == Load(m.mem, Dir(m), i)
    ensures IsTable(m1, f) <==> IsTable(m, f) || f == t
  {
    assert Dir(m1) == Dir(m);
    if IsTable(m, f) {
      var i :| 0 <= i < ENTRIES && Present(Load(m.mem, Dir(m), i)) && FrameOf(Load(m.mem, Dir(m), i)) == f;
      assert Present(Load(m1.mem, Dir(m), i));
    }
    if IsTable(m1, f) {
      var i :| 0 <= i < ENTRIES && Present(Load(m1.mem, Dir(m), i)) && FrameOf(Load(m1.mem, Dir(m), i)) == f;
      assert i != at ==> Present(Load(m.mem, Dir(m), i));
    }
  }

  lemma MapNeeds(m: Machine, v: Word, phys: Word, flags: Word)
    requires WellFormed(m)
    ensures var m1 := Map(m, v, phys, flags).0;
      && Dir(m1) == Dir(m)
      && (forall f: nat :: f < FRAMES_OF_ADDRESS_SPACE ==> (Needed(m1, f) <==> Needed(m, f)))
      && (forall w: Word :: Present(Pde(m, w)) ==>
            && Present(Pde(m1, w)) && FrameOf(Pde(m1, w)) == FrameOf(Pde(m, w))
            && (!Present(Pde(m, v)) ==> FrameOf(Pde(m1, v)) != FrameOf(Pde(m1, w)) || !Present(Pde(m1, v))))
  {
    var (g, t) := GetTable(m, v, flags);
    var m1 := Map(m, v, phys, flags).0;
    GetTableNeeds(m, v, flags);
    GetTableKeeps(m, v, flags);
    if t != 0 {
      assert forall i :: 0 <= i < ENTRIES ==> Load(m1.mem, Dir(m), i) == Load(g.mem, Dir(m), i);
      SameTables(g, m1);
      if !Present(Pde(m, v)) {
        FreshTableKeeps(m, v, flags);
        forall w: Word | Present(Pde(m, w)) ensures FrameOf(Pde(m, w)) != t {
          assert Owned(m, FrameOf(Pde(m, w)));
        }
      }
    }
  }

  /** The entry of `v` is the one through which the code reaches frame `f`. */
  ghost predicate FoundThrough(m: Machine, v: Word, f: nat)
    requires Shape(m)
  {
    f < FRAMES_OF_ADDRESS_SPACE && Needed(m, f) && SameSlot(m, v, PageBase(f))
  }

  /** Mapping in a slot without a table loses nothing; in a slot with one it loses a pointer exactly when it
      overwrites the entry of a needed frame with another frame. */
  lemma MapReaches(m: Machine, v: Word, phys: Word, flags: Word)
    requires WellFormed(m) && Findable(m)
    ensures var (m1, r) := Map(m, v, phys, flags);
      Findable(m1) <==> r != 0 || forall f: nat :: FoundThrough(m, v, f) ==> f == FrameOf(phys)
  {
    hide Map, Walk, Needed;
    var (m1, r) := Map(m, v, phys, flags);
    MapNeeds(m, v, phys, flags);
    MapTranslates(m, v, phys, flags);
    if r == 0 {
      forall f: nat | f < FRAMES_OF_ADDRESS_SPACE && Needed(m, f)
        ensures Identity(m1, f) <==> (SameSlot(m, v, PageBase(f)) ==> f == FrameOf(phys))
      {
        PageStart(f);
        IdentityPresent(m, f);
      }
      if Findable(m1) {
        forall f: nat | FoundThrough(m, v, f) ensures f == FrameOf(phys) {
          assert Identity(m1, f);
        }
      }
      if forall f: nat :: FoundThrough(m, v, f) ==> f == FrameOf(phys) {
        forall f: nat | f < FRAMES_OF_ADDRESS_SPACE && Needed(m1, f) ensures Identity(m1, f) {
          assert SameSlot(m, v, PageBase(f)) ==> FoundThrough(m, v, f);
        }
      }
    }
  }

  lemma IdentityPresent(m: Machine, f: nat)
    requires Shape(m) && f < FRAMES_OF_ADDRESS_SPACE && Needed(m, f) && Findable(m)
    ensures Identity(m, f) && Present(Pde(m, PageBase(f)))
  {
  }

  lemma UnmapReaches(m: Machine, v: Word)
    requires WellFormed(m) && Findable(m)
    ensures Findable(Unmap(m, v)) <==> forall f: nat :: !FoundThrough(m, v, f)
  {
    hide Walk, Unmap;
    var m1 := Unmap(m, v);
    UnmapTranslates(m, v);
    UnmapNeeds(m, v);
    forall f: nat | f < FRAMES_OF_ADDRESS_SPACE && Needed(m, f)
      ensures Identity(m1, f) <==> !SameSlot(m, v, PageBase(f))
    {
      assert Identity(m, f);
    }
    if forall f: nat :: !FoundThrough(m, v, f) {
      forall f: nat | f < FRAMES_OF_ADDRESS_SPACE && Needed(m1, f) ensures Identity(m1, f) {
        assert !FoundThrough(m, v, f);
      }
    }
  }

  lemma UnmapNeeds(m: Machine, v: Word)
    requires WellFormed(m)
    ensures var m1 := Unmap(m, v);
      && Dir(m1) == Dir(m)
      && (forall f: nat :: f < FRAMES_OF_ADDRESS_SPACE ==> (Needed(m1, f) <==> Needed(m, f)))
  {
    var m1 := Unmap(m, v);
    if Present(Pde(m, v)) {
      assert Owned(m, FrameOf(Pde(m, v)));
      assert forall i :: 0 <= i < ENTRIES ==> Load(m1.mem, Dir(m), i) == Load(m.mem, Dir(m), i);
      SameTables(m, m1);
    }
  }

  /** Taking a frame leaves fewer candidates. */
  lemma TakeReaches(m: Machine, limit: nat)
    requires WellFormed(m) && Findable(m) && limit <= |m.pmm.used|
    ensures Findable(Machine(m.mem, m.cr3, Alloc(m.pmm, limit).0))
  {
    AllocSound(m.pmm, limit);
    var m1 := Machine(m.mem, m.cr3, Alloc(m.pmm, limit).0);
    SameTables(m, m1);
    forall f: nat | f < FRAMES_OF_ADDRESS_SPACE && Needed(m1, f) ensures Identity(m1, f) {
      assert Needed(m, f) && Identity(m, f);
      assert Pde(m1, PageBase(f)) == Pde(m, PageBase(f));
    }
  }

  /** Releasing one adds a candidate below 16 MiB. */
  lemma ReleaseReaches(m: Machine, phys: Word)
    requires WellFormed(m) && Findable(m) && Held(m, phys / FRAME_SIZE)
    ensures Findable(Machine(m.mem, m.cr3, FreeFrame(m.pmm, phys)))
            <==> phys >= TABLE_LIMIT || Identity(m, phys / FRAME_SIZE)
  {
    var g := phys / FRAME_SIZE;
    var m1 := Machine(m.mem, m.cr3, FreeFrame(m.pmm, phys));
    FreeSound(m.pmm, phys);
    SameTables(m, m1);
    forall f: nat | f < FRAMES_OF_ADDRESS_SPACE
      ensures Identity(m1, f) <==> Identity(m, f)
      ensures Needed(m1, f) <==> Needed(m, f) || (f == g && phys < TABLE_LIMIT)
    {
      assert Pde(m1, PageBase(f)) == Pde(m, PageBase(f));
    }
    if Findable(m1) && phys < TABLE_LIMIT { assert Needed(m1, g); }
  }

  // ---- Whole runs ----

  /** An operation that can be checked beforehand to lose no pointer. */
  ghost predicate Gentle(m: Machine, op: Op)
    requires Shape(m)
  {
    match op
    case TakeAny => true
    case TakeBelow(_) => true
    case Release(phys) => phys >= TABLE_LIMIT || Identity(m, phys / FRAME_SIZE)
    case MapPage(v, phys, flags) =>
      Map(m, v, phys, flags).1 != 0 || forall f: nat :: FoundThrough(m, v, f) ==> f == FrameOf(phys)
    case UnmapPage(v) => forall f: nat :: !FoundThrough(m, v, f)
  }

  lemma StepReaches(l: Ledger, op: Op)
    requires Inv(l) && Permitted(l, op) && Findable(l.m)
    ensures Shape(Step(l, op).m) && (Findable(Step(l, op).m) <==> Gentle(l.m, op))
  {
    hide Findable, Identity, FoundThrough, Map, Unmap, Alloc;
    match op
    case TakeAny => TakeReaches(l.m, |l.m.pmm.used|);
    case TakeBelow(maxPhys) => TakeReaches(l.m, Clip(maxPhys / FRAME_SIZE, |l.m.pmm.used|));
    case Release(phys) => ReleaseReaches(l.m, phys);
    case MapPage(v, phys, flags) => MapReaches(l.m, v, phys, flags);
    case UnmapPage(v) => UnmapReaches(l.m, v);
  }

  ghost predicate AllGentle(l: Ledger, ops: seq<Op>)
    requires Shape(l.m) && Legal(l, ops)
    decreases |ops|
  {
    ops != [] ==> Gentle(l.m, ops[0]) && AllGentle(Step(l, ops[0]), ops[1..])
  }

  /** At every point of the run the tables are where the code looks for them. */
  ghost predicate AlwaysFindable(l: Ledger, ops: seq<Op>)
    requires Shape(l.m) && Legal(l, ops)
    decreases |ops|
  {
    Findable(l.m) && (ops != [] ==> AlwaysFindable(Step(l, ops[0]), ops[1..]))
  }

  /** Over a whole run the code reaches its tables throughout if and only if every operation is gentle. */
  lemma {:induction false} RunReaches(l: Ledger, ops: seq<Op>)
    requires Inv(l) && Legal(l, ops) && Findable(l.m)
    ensures AlwaysFindable(l, ops) <==> AllGentle(l, ops)
    decreases |ops|
  {
    if ops != [] {
      hide Findable, Gentle, Step;
      StepReaches(l, ops[0]);
      StepKeepsInv(l, ops[0]);
      if Findable(Step(l, ops[0]).m) {
        RunReaches(Step(l, ops[0]), ops[1..]);
      }
    }
  }
}
