/** Frame ownership over whole runs of allocation, release, mapping and unmapping. */
module PagingRuns {
  import opened Basics
  import opened Frames
  import opened Paging

  /** Frame `f` has been handed out and serves neither as the directory nor as one of its tables. */
  ghost predicate Held(m: Machine, f: nat)
    requires Shape(m)
  {
    0 < f < |m.pmm.used| && m.pmm.used[f] && f != Dir(m) && !IsTable(m, f)
  }

  /** The directory entries from `lo` up to `hi` name pairwise different tables. */
  ghost predicate TablesDistinct(m: Machine, lo: nat, hi: nat)
    requires Shape(m) && hi <= ENTRIES
  {
    forall i, j :: lo <= i < j < hi && Present(Load(m.mem, Dir(m), i)) && Present(Load(m.mem, Dir(m), j)) ==>
      FrameOf(Load(m.mem, Dir(m), i)) != FrameOf(Load(m.mem, Dir(m), j))
  }

  // ---- One operation ----

  /** Tables are determined by the directory's words. */
  lemma SameTables(m: Machine, m1: Machine)
    requires Shape(m) && Shape(m1) && Dir(m1) == Dir(m)
    requires forall i :: 0 <= i < ENTRIES ==> Load(m1.mem, Dir(m), i) == Load(m.mem, Dir(m), i)
    ensures forall g: nat :: IsTable(m1, g) <==> IsTable(m, g)
  {
    forall g: nat ensures IsTable(m1, g) <==> IsTable(m, g) {
      if IsTable(m, g) {
        var i :| 0 <= i < ENTRIES && Present(Load(m.mem, Dir(m), i)) && FrameOf(Load(m.mem, Dir(m), i)) == g;
        assert Present(Load(m1.mem, Dir(m), i));
      }
      if IsTable(m1, g) {
        var i :| 0 <= i < ENTRIES && Present(Load(m1.mem, Dir(m), i)) && FrameOf(Load(m1.mem, Dir(m), i)) == g;
        assert Present(Load(m.mem, Dir(m), i));
      }
    }
  }

  /** An allocated frame belonged to nobody and is held afterwards; the address space is untouched. */
  lemma AllocHolds(m: Machine, limit: nat)
    requires WellFormed(m) && limit <= |m.pmm.used|
    ensures var (pmm, phys) := Alloc(m.pmm, limit);
            var m1 := Machine(m.mem, m.cr3, pmm);
      && WellFormed(m1)
      && (forall g :: Held(m, g) ==> Held(m1, g))
      && (phys == 0 ==> m1 == m)
      && (phys != 0 ==> Held(m1, phys / FRAME_SIZE) && !Held(m, phys / FRAME_SIZE) && Available(m, phys / FRAME_SIZE))
  {
    AllocSound(m.pmm, limit);
    var (pmm, phys) := Alloc(m.pmm, limit);
    var m1 := Machine(m.mem, m.cr3, pmm);
    SameTables(m, m1);
    if phys != 0 {
      var f := phys / FRAME_SIZE;
      forall i | 0 <= i < ENTRIES && Present(Load(m.mem, Dir(m), i)) ensures FrameOf(Load(m.mem, Dir(m), i)) != f {
        assert Owned(m, FrameOf(Load(m.mem, Dir(m), i)));
      }
    }
  }

  /** The same for pmm_alloc_frame, with what the address space keeps. */
  lemma AllocFrameHolds(m: Machine)
    requires WellFormed(m)
    ensures var m1 := Allocated(m);
            var f := AllocFrame(m.pmm).1 / FRAME_SIZE;
      && WellFormed(m1) && m1.mem == m.mem && m1.cr3 == m.cr3
      && (forall g :: Held(m, g) ==> Held(m1, g))
      && (forall w: Word :: Walk(m1, w) == Walk(m, w))
      && (forall lo: nat, hi: nat :: hi <= ENTRIES && TablesDistinct(m, lo, hi) ==> TablesDistinct(m1, lo, hi))
      && (AllocFrame(m.pmm).1 != 0 ==> Held(m1, f) && !Held(m, f))
  {
    AllocHolds(m, |m.pmm.used|);
  }

  /** The machine after pmm_alloc_frame. */
  function Allocated(m: Machine): Machine {
    Machine(m.mem, m.cr3, AllocFrame(m.pmm).0)
  }

  lemma FreeHolds(m: Machine, phys: Word)
    requires WellFormed(m) && Held(m, phys / FRAME_SIZE)
    ensures var m1 := Machine(m.mem, m.cr3, FreeFrame(m.pmm, phys));
      WellFormed(m1) && forall g :: Held(m1, g) <==> Held(m, g) && g != phys / FRAME_SIZE
  {
    var m1 := Machine(m.mem, m.cr3, FreeFrame(m.pmm, phys));
    FreeSound(m.pmm, phys);
    SameTables(m, m1);
    forall i | 0 <= i < ENTRIES && Present(Load(m.mem, Dir(m), i))
      ensures FrameOf(Load(m.mem, Dir(m), i)) != phys / FRAME_SIZE
    {
      assert IsTable(m, FrameOf(Load(m.mem, Dir(m), i)));
    }
  }

  /** The tables after a map are those before it and at most one frame that was available. */
  lemma GetTableTables(m: Machine, v: Word, flags: Word)
    requires WellFormed(m)
    ensures var m1 := GetTable(m, v, flags).0;
      && Dir(m1) == Dir(m) && |m1.pmm.used| == |m.pmm.used|
      && (forall i :: 0 <= i < ENTRIES ==>
            var e, e1 := Load(m.mem, Dir(m), i), Load(m1.mem, Dir(m), i);
            && (Present(e) ==> Present(e1) && FrameOf(e1) == FrameOf(e))
            && (!Present(e) && Present(e1) ==>
                 i == DirIndex(v) && Available(m, FrameOf(e1)) && !Available(m1, FrameOf(e1))))
      && (forall g :: 0 <= g < |m.pmm.used| && m.pmm.used[g] ==> m1.pmm.used[g])
  {
    if Present(Pde(m, v)) {
      WidenedParts(Pde(m, v), flags);
    } else {
      AllocSound(m.pmm, Clip(TABLE_LIMIT / FRAME_SIZE, |m.pmm.used|));
      var t := GetTable(m, v, flags).1;
      if t != 0 { EntryParts(t, flags); }
    }
  }

  lemma MapHolds(m: Machine, v: Word, phys: Word, flags: Word)
    requires WellFormed(m)
    ensures var m1 := Map(m, v, phys, flags).0;
      && WellFormed(m1) && m1.cr3 == m.cr3
      && (forall g :: Held(m, g) ==> Held(m1, g))
      && (forall lo: nat, hi: nat :: hi <= ENTRIES && TablesDistinct(m, lo, hi) ==> TablesDistinct(m1, lo, hi))
  {
    var (m1, r) := Map(m, v, phys, flags);
    MapTranslates(m, v, phys, flags);
    MapDirectory(m, v, phys, flags);
    forall g | Held(m, g) ensures Held(m1, g) {
      forall i | 0 <= i < ENTRIES && Present(Load(m1.mem, Dir(m), i)) ensures FrameOf(Load(m1.mem, Dir(m), i)) != g {
        assert Present(Load(m.mem, Dir(m), i)) ==> IsTable(m, FrameOf(Load(m.mem, Dir(m), i)));
      }
    }
    forall lo: nat, hi: nat | hi <= ENTRIES && TablesDistinct(m, lo, hi) ensures TablesDistinct(m1, lo, hi) {
      forall i, j | lo <= i < j < hi && Present(Load(m1.mem, Dir(m), i)) && Present(Load(m1.mem, Dir(m), j))
        ensures FrameOf(Load(m1.mem, Dir(m), i)) != FrameOf(Load(m1.mem, Dir(m), j))
      {
        assert Present(Load(m.mem, Dir(m), i)) ==> Owned(m, FrameOf(Load(m.mem, Dir(m), i)));
        assert Present(Load(m.mem, Dir(m), j)) ==> Owned(m, FrameOf(Load(m.mem, Dir(m), j)));
      }
    }
  }

  /** The directory after a map, entry by entry. */
  lemma MapDirectory(m: Machine, v: Word, phys: Word, flags: Word)
    requires WellFormed(m)
    ensures var m1 := Map(m, v, phys, flags).0;
      && Dir(m1) == Dir(m) && |m1.pmm.used| == |m.pmm.used|
      && (forall i :: 0 <= i < ENTRIES ==>
            var e, e1 := Load(m.mem, Dir(m), i), Load(m1.mem, Dir(m), i);
            && (Present(e) ==> Present(e1) && FrameOf(e1) == FrameOf(e))
            && (!Present(e) && Present(e1) ==> i == DirIndex(v) && Available(m, FrameOf(e1))))
      && (forall g :: 0 <= g < |m.pmm.used| && m.pmm.used[g] ==> m1.pmm.used[g])
  {
    GetTableTables(m, v, flags);
    GetTableKeeps(m, v, flags);
    var (g, t) := GetTable(m, v, flags);
    if t != 0 {
      var m1 := Map(m, v, phys, flags).0;
      assert forall i :: 0 <= i < ENTRIES ==> Load(m1.mem, Dir(m), i) == Load(g.mem, Dir(m), i);
    }
  }

  /** Mapping writes the directory, one table and, when that table is new, nothing that anybody holds. */
  lemma MapKeepsHeldFrames(m: Machine, v: Word, phys: Word, flags: Word, g: nat)
    requires WellFormed(m) && Held(m, g)
    ensures forall j :: 0 <= j < ENTRIES ==> Load(Map(m, v, phys, flags).0.mem, g, j) == Load(m.mem, g, j)
  {
    if Present(Pde(m, v)) {
      TableOf(m, v);
    } else {
      AllocSound(m.pmm, Clip(TABLE_LIMIT / FRAME_SIZE, |m.pmm.used|));
    }
  }

  lemma UnmapHolds(m: Machine, v: Word)
    requires WellFormed(m)
    ensures var m1 := Unmap(m, v);
      WellFormed(m1) && forall g :: Held(m1, g) <==> Held(m, g)
  {
    UnmapTranslates(m, v);
    var m1 := Unmap(m, v);
    if Present(Pde(m, v)) {
      TableOf(m, v);
      assert Owned(m, FrameOf(Pde(m, v)));
      assert forall i :: 0 <= i < ENTRIES ==> Load(m1.mem, Dir(m), i) == Load(m.mem, Dir(m), i);
      SameTables(m, m1);
    }
  }

  // ---- Whole runs ----

  datatype Op = TakeAny | TakeBelow(maxPhys: Word) | Release(phys: Word)
              | MapPage(v: Word, phys: Word, flags: Word) | UnmapPage(v: Word)

  /** The machine, the frames that clients hold, and the frame the last operation handed out (0: none). */
  datatype Ledger = Ledger(m: Machine, held: set<nat>, last: nat)

  ghost predicate Inv(l: Ledger) {
    WellFormed(l.m) && forall f :: f in l.held ==> Held(l.m, f)
  }

  /** Clients release only frames that they hold. */
  ghost predicate Permitted(l: Ledger, op: Op) {
    op.Release? ==> op.phys / FRAME_SIZE in l.held
  }

  function Taken(l: Ledger, a: (Pmm, nat)): Ledger {
    var f := a.1 / FRAME_SIZE;
    Ledger(Machine(l.m.mem, l.m.cr3, a.0), if a.1 == 0 then l.held else l.held + {f}, f)
  }

  function Step(l: Ledger, op: Op): Ledger
    requires Shape(l.m)
  {
    match op
    case TakeAny => Taken(l, AllocFrame(l.m.pmm))
    case TakeBelow(maxPhys) => Taken(l, AllocFrameBelow(l.m.pmm, maxPhys))
    case Release(phys) => Ledger(Machine(l.m.mem, l.m.cr3, FreeFrame(l.m.pmm, phys)), l.held - {phys / FRAME_SIZE}, 0)
    case MapPage(v, phys, flags) => Ledger(Map(l.m, v, phys, flags).0, l.held, 0)
    case UnmapPage(v) => Ledger(Unmap(l.m, v), l.held, 0)
  }

  lemma TakenKeeps(l: Ledger, limit: nat)
    requires Inv(l) && limit <= |l.m.pmm.used|
    ensures var l1 := Taken(l, Alloc(l.m.pmm, limit));
      Inv(l1) && (l1.last != 0 ==>
        l1.last !in l.held && l1.last in l1.held && !IsTable(l.m, l1.last) && l1.last != Dir(l.m))
  {
    AllocHolds(l.m, limit);
    AllocSound(l.m.pmm, limit);
  }

  lemma StepKeepsInv(l: Ledger, op: Op)
    requires Inv(l) && Permitted(l, op)
    ensures Inv(Step(l, op))
    ensures Step(l, op).last != 0 ==>
      && Step(l, op).last !in l.held && Step(l, op).last in Step(l, op).held
      && !IsTable(l.m, Step(l, op).last) && Step(l, op).last != Dir(l.m)
  {
    match op
    case TakeAny => TakenKeeps(l, |l.m.pmm.used|);
    case TakeBelow(maxPhys) => TakenKeeps(l, Clip(maxPhys / FRAME_SIZE, |l.m.pmm.used|));
    case Release(phys) => FreeHolds(l.m, phys);
    case MapPage(v, phys, flags) => MapHolds(l.m, v, phys, flags);
    case UnmapPage(v) => UnmapHolds(l.m, v);
  }

  ghost predicate Legal(l: Ledger, ops: seq<Op>)
    requires Shape(l.m)
    decreases |ops|
  {
    ops != [] ==> Permitted(l, ops[0]) && Shape(Step(l, ops[0]).m) && Legal(Step(l, ops[0]), ops[1..])
  }

  ghost function Run(l: Ledger, ops: seq<Op>): Ledger
    requires Shape(l.m) && Legal(l, ops)
    decreases |ops|
  {
    if ops == [] then l else Run(Step(l, ops[0]), ops[1..])
  }

  /** Over every legal run the free counter equals the number of clear bits, every frame that a client
      holds is marked used and serves as no table, and the directory and its tables are marked used; so no
      frame still held, and no table, is ever handed out again. */
  lemma {:induction false} RunKeepsAccounts(l: Ledger, ops: seq<Op>)
    requires Inv(l) && Legal(l, ops)
    ensures Inv(Run(l, ops))
    ensures Run(l, ops).m.pmm.free == CountClear(Run(l, ops).m.pmm.used)
    decreases |ops|
  {
    if ops != [] {
      StepKeepsInv(l, ops[0]);
      RunKeepsAccounts(Step(l, ops[0]), ops[1..]);
    }
  }

  /** At any point of a legal run, whatever frame an allocation hands out is held by nobody and is
      neither the directory nor one of its tables. */
  lemma NeverHandedOutTwice(l: Ledger, ops: seq<Op>, op: Op)
    requires Inv(l) && Legal(l, ops) && (op.TakeAny? || op.TakeBelow?)
    ensures var r := Run(l, ops);
      && Shape(r.m)
      && (Step(r, op).last != 0 ==>
            Step(r, op).last !in r.held && Step(r, op).last != Dir(r.m) && !IsTable(r.m, Step(r, op).last))
  {
    RunKeepsAccounts(l, ops);
    StepKeepsInv(Run(l, ops), op);
  }
}
