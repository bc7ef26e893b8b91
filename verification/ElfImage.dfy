/** The flat memory image that an ELF32 file describes, and what kernel/fs/elf.c makes of it: every
    segment zeroes its pages and then copies its file bytes, in program-header order. */
module ElfImage {
  import opened Basics
  import opened Frames
  import opened Paging

  const PT_LOAD := 1
  const EM_386 := 3
  const EHDR_SIZE := 52
  const PHDR_SIZE := 32
  const USER_LIMIT := 0xC000_0000
  const STACK_BASE: Word := 0x0040_0000
  const STACK_PAGES := 4

  type Image = Word -> Byte

  /** The part of a program header that loading uses. */
  datatype Segment = Segment(kind: Word, offset: Word, vaddr: Word, filesz: Word, memsz: Word)

  /** Where program header `i` starts. */
  function PhdrAt(bytes: seq<Byte>, i: nat): nat
    requires |bytes| >= EHDR_SIZE
  {
    U32(bytes, 28) + i * U16(bytes, 42)
  }

  function PhdrCount(bytes: seq<Byte>): nat
    requires |bytes| >= EHDR_SIZE
  {
    U16(bytes, 44)
  }

  function SegmentAt(bytes: seq<Byte>, i: nat): Segment
    requires |bytes| >= EHDR_SIZE && PhdrAt(bytes, i) + PHDR_SIZE <= |bytes|
  {
    var p := PhdrAt(bytes, i);
    Segment(U32(bytes, p), U32(bytes, p + 4), U32(bytes, p + 8), U32(bytes, p + 16), U32(bytes, p + 20))
  }

  /** The loader skips other header types and empty segments. */
  predicate IsLoad(s: Segment) {
    s.kind == PT_LOAD && s.memsz != 0
  }

  /** The loadable segments among the first `n` program headers. */
  function Segments(bytes: seq<Byte>, n: nat): seq<Segment>
    requires |bytes| >= EHDR_SIZE && forall i :: 0 <= i < n ==> PhdrAt(bytes, i) + PHDR_SIZE <= |bytes|
  {
    if n == 0 then []
    else
      var s := SegmentAt(bytes, n - 1);
      Segments(bytes, n - 1) + if IsLoad(s) then [s] else []
  }

  /** The file part lies inside the file and inside the memory part, which lies in the user half. */
  predicate Placed(bytes: seq<Byte>, s: Segment) {
    s.filesz <= s.memsz && s.offset + s.filesz <= |bytes| && s.vaddr + s.memsz <= USER_LIMIT
  }

  predicate ValidFile(bytes: seq<Byte>) {
    && |bytes| >= EHDR_SIZE
    && (forall i :: 0 <= i < PhdrCount(bytes) ==> PhdrAt(bytes, i) + PHDR_SIZE <= |bytes|)
    && (forall i :: 0 <= i < PhdrCount(bytes) && IsLoad(SegmentAt(bytes, i)) ==> Placed(bytes, SegmentAt(bytes, i)))
  }

  // ---- The image ----

  predicate Between(lo: nat, p: nat, hi: nat) {
    lo <= p < hi
  }

  /** The pages from the one that holds `va` up to the rounded-up end. */
  function Touched(va: nat, size: nat): set<nat> {
    PageRun(va / FRAME_SIZE, EndPage(va, size))
  }

  function PageRun(lo: nat, hi: nat): set<nat> {
    set p: nat | p < hi && Between(lo, p, hi)
  }

  function EndPage(va: nat, size: nat): nat {
    (va + size + FRAME_SIZE - 1) / FRAME_SIZE
  }

  function PageCount(va: nat, size: nat): nat {
    EndPage(va, size) - va / FRAME_SIZE
  }

  ghost predicate AllPlaced(bytes: seq<Byte>, ss: seq<Segment>) {
    forall i :: 0 <= i < |ss| ==> Placed(bytes, ss[i])
  }

  /** The pages of one segment, in the order in which they are mapped. */
  ghost function SegmentPages(va: nat, size: nat): (pages: seq<nat>)
    requires va + size <= USER_LIMIT
    ensures PagesExist(pages) && forall i :: 0 <= i < |pages| ==> pages[i] < USER_PAGES
  {
    Consecutive(va / FRAME_SIZE, PageCount(va, size))
  }

  /** The pages that loading the segments maps, in order; a page comes once for every segment on it. */
  ghost function LoadedPages(bytes: seq<Byte>, ss: seq<Segment>): (pages: seq<nat>)
    requires AllPlaced(bytes, ss)
    ensures PagesExist(pages) && forall i :: 0 <= i < |pages| ==> pages[i] < USER_PAGES
  {
    if ss == [] then []
    else LoadedPages(bytes, ss[..|ss| - 1]) + SegmentPages(ss[|ss| - 1].vaddr, ss[|ss| - 1].memsz)
  }

  /** All pages of a program: its segments' and the stack's. */
  ghost function ProgramPages(bytes: seq<Byte>, ss: seq<Segment>): (pages: seq<nat>)
    requires AllPlaced(bytes, ss)
    ensures PagesExist(pages) && forall i :: 0 <= i < |pages| ==> pages[i] < USER_PAGES
  {
    LoadedPages(bytes, ss) + SegmentPages(STACK_BASE, STACK_PAGES * FRAME_SIZE)
  }

  function FileBytes(bytes: seq<Byte>, s: Segment): seq<Byte>
    requires Placed(bytes, s)
  {
    bytes[s.offset..s.offset + s.filesz]
  }

  /** map_user_range on a flat image: all touched pages are cleared, then `src` is copied to `va`. */
  function Loaded(image: Image, va: nat, size: nat, src: seq<Byte>): Image {
    (a: Word) =>
      if va <= a < va + |src| then src[a - va]
      else if PageOf(a) in Touched(va, size) then 0
      else image(a)
  }

  ghost function LoadedAll(image: Image, bytes: seq<Byte>, ss: seq<Segment>): Image
    requires AllPlaced(bytes, ss)
  {
    if ss == [] then image
    else
      var s := ss[|ss| - 1];
      Loaded(LoadedAll(image, bytes, ss[..|ss| - 1]), s.vaddr, s.memsz, FileBytes(bytes, s))
  }

  ghost function PagesOf(ss: seq<Segment>): set<nat> {
    if ss == [] then {} else PagesOf(ss[..|ss| - 1]) + Touched(ss[|ss| - 1].vaddr, ss[|ss| - 1].memsz)
  }

  function WithStack(image: Image): Image {
    Loaded(image, STACK_BASE, STACK_PAGES * FRAME_SIZE, [])
  }

  // ---- What a program finds in memory ----

  /** On every address the last segment that touches its page decides: its file bytes, and zero around
      them; whatever earlier segments put on that page is gone. */
  lemma {:induction false} LastSegmentDecides(image: Image, bytes: seq<Byte>, ss: seq<Segment>, k: nat, a: Word)
    requires AllPlaced(bytes, ss)
    requires k < |ss| && PageOf(a) in Touched(ss[k].vaddr, ss[k].memsz)
    requires forall j :: k < j < |ss| ==> PageOf(a) !in Touched(ss[j].vaddr, ss[j].memsz)
    ensures LoadedAll(image, bytes, ss)(a) ==
      if ss[k].vaddr <= a < ss[k].vaddr + ss[k].filesz then bytes[ss[k].offset + (a - ss[k].vaddr)] else 0
    decreases |ss|
  {
    var n := |ss| - 1;
    if k < n {
      OutsideSegment(ss[n].vaddr, ss[n].memsz, ss[n].filesz, a);
      LastSegmentDecides(image, bytes, ss[..n], k, a);
    }
  }

  /** The bytes of a segment lie on the pages it touches. */
  lemma OutsideSegment(va: nat, size: nat, len: nat, a: Word)
    requires len <= size && PageOf(a) !in Touched(va, size)
    ensures !(va <= a < va + len)
  {
    assert va <= a < va + size ==> Between(va / FRAME_SIZE, PageOf(a), EndPage(va, size));
  }

  ghost predicate PageDisjoint(ss: seq<Segment>) {
    && (forall i, j :: 0 <= i < j < |ss| ==> Touched(ss[i].vaddr, ss[i].memsz) !! Touched(ss[j].vaddr, ss[j].memsz))
    && (forall i :: 0 <= i < |ss| ==>
         Touched(ss[i].vaddr, ss[i].memsz) !! Touched(STACK_BASE, STACK_PAGES * FRAME_SIZE))
  }

  /** When no two segments share a page and none shares one with the stack, the program finds each
      segment's file bytes and zeros up to its memory size. */
  lemma ImageExact(image: Image, bytes: seq<Byte>, ss: seq<Segment>, k: nat, a: Word)
    requires AllPlaced(bytes, ss)
    requires PageDisjoint(ss) && k < |ss|
    ensures var final := WithStack(LoadedAll(image, bytes, ss));
            var s := ss[k];
      && (s.vaddr <= a < s.vaddr + s.filesz ==> final(a) == bytes[s.offset + (a - s.vaddr)])
      && (s.vaddr + s.filesz <= a < s.vaddr + s.memsz ==> final(a) == 0)
  {
    var s := ss[k];
    if s.vaddr <= a < s.vaddr + s.memsz {
      if PageOf(a) !in Touched(s.vaddr, s.memsz) { OutsideSegment(s.vaddr, s.memsz, s.memsz, a); }
      LastSegmentDecides(image, bytes, ss, k, a);
    }
  }

  /** The stack pages are mapped last and start out zero, whatever the segments were. */
  lemma StackStartsZero(image: Image, a: Word)
    requires 0x40_0000 <= a < 0x40_4000
    ensures WithStack(image)(a) == 0
  {
    if PageOf(a) !in Touched(STACK_BASE, STACK_PAGES * FRAME_SIZE) {
      OutsideSegment(STACK_BASE, STACK_PAGES * FRAME_SIZE, STACK_PAGES * FRAME_SIZE, a);
    }
  }

  /** The stack is the four pages from 0x400000 on, and they come last; nothing else changes for it. */
  lemma StackPagesLast(image: Image, bytes: seq<Byte>, ss: seq<Segment>)
    requires AllPlaced(bytes, ss)
    ensures ProgramPages(bytes, ss) == LoadedPages(bytes, ss) + [0x400, 0x401, 0x402, 0x403]
    ensures forall a: Word :: !(0x40_0000 <= a < 0x40_4000) ==> WithStack(image)(a) == image(a)
  {
    assert SegmentPages(STACK_BASE, STACK_PAGES * FRAME_SIZE) == [0x400, 0x401, 0x402, 0x403];
    forall a: Word | !(0x40_0000 <= a < 0x40_4000) ensures WithStack(image)(a) == image(a) {
      assert PageOf(a) !in Touched(STACK_BASE, STACK_PAGES * FRAME_SIZE);
    }
  }

  // ---- Header checks and entry point ----

  /** The loader's verdict on the ELF header: 0, or its error code. */
  function HeaderCheck(bytes: seq<Byte>): int {
    if |bytes| < EHDR_SIZE then -10
    else if !(bytes[0] == 0x7F && bytes[1] == 0x45 && bytes[2] == 0x4C && bytes[3] == 0x46) then -11
    else if U16(bytes, 18) != EM_386 then -12
    else if U32(bytes, 28) == 0 || PhdrCount(bytes) == 0 then -13
    else 0
  }

  /** The address of the first segment, a segment at address 0 not counting. */
  function FirstVaddr(ss: seq<Segment>): Word {
    if ss == [] then 0
    else
      var v := FirstVaddr(ss[..|ss| - 1]);
      if v != 0 then v else ss[|ss| - 1].vaddr
  }

  /** Program header `i`, found through the ELF header, names a loadable segment that is neither empty nor at
      address 0. */
  predicate NamesSegment(bytes: seq<Byte>, i: nat) {
    |bytes| >= 52 &&
    var p := U32(bytes, 28) + i * U16(bytes, 42);
    p + 32 <= |bytes| && U32(bytes, p) == 1 && U32(bytes, p + 20) != 0 && U32(bytes, p + 8) != 0
  }

  /** Header `i` is the first such one, and its segment is at `addr`. */
  ghost predicate FirstNamed(bytes: seq<Byte>, i: nat, addr: Word) {
    && NamesSegment(bytes, i) && addr == U32(bytes, U32(bytes, 28) + i * U16(bytes, 42) + 8)
    && i < U16(bytes, 44) && forall j: nat :: j < i ==> !NamesSegment(bytes, j)
  }

  /** Where a program starts: at the address in its header, else with the first of its segments that is not at
      address 0, else at 0x410000. */
  ghost predicate StartsAt(bytes: seq<Byte>, entry: Word) {
    |bytes| >= 52 &&
    if U32(bytes, 24) != 0 then entry == U32(bytes, 24)
    else || (exists i: nat :: FirstNamed(bytes, i, entry))
         || (entry == 0x41_0000 && forall i: nat :: i < U16(bytes, 44) ==> !NamesSegment(bytes, i))
  }

  lemma NamedIsLoad(bytes: seq<Byte>, i: nat)
    requires ValidFile(bytes) && i < PhdrCount(bytes)
    ensures NamesSegment(bytes, i) <==> IsLoad(SegmentAt(bytes, i)) && SegmentAt(bytes, i).vaddr != 0
    ensures SegmentAt(bytes, i).vaddr == U32(bytes, U32(bytes, 28) + i * U16(bytes, 42) + 8)
  {
  }

  lemma {:induction false} FirstLoads(bytes: seq<Byte>, n: nat)
    requires ValidFile(bytes) && n <= PhdrCount(bytes)
    ensures var v := FirstVaddr(Segments(bytes, n));
      if v == 0 then forall j: nat :: j < n ==> !NamesSegment(bytes, j)
      else exists i: nat :: i < n && FirstNamed(bytes, i, v)
  {
    hide NamesSegment, SegmentAt, IsLoad;
    if n > 0 {
      FirstLoads(bytes, n - 1);
      NamedIsLoad(bytes, n - 1);
      var ss, s := Segments(bytes, n - 1), SegmentAt(bytes, n - 1);
      assert (ss + [s])[..|ss|] == ss;
      assert Segments(bytes, n) == if IsLoad(s) then ss + [s] else ss;
      assert FirstVaddr(ss + [s]) == if FirstVaddr(ss) != 0 then FirstVaddr(ss) else s.vaddr;
      if FirstVaddr(ss) == 0 && IsLoad(s) && s.vaddr != 0 {
        assert FirstNamed(bytes, n - 1, s.vaddr);
      }
    }
  }

  /** The loader's choice is that one. */
  lemma EntryIs(bytes: seq<Byte>)
    requires ValidFile(bytes)
    ensures var e, v := U32(bytes, 24), FirstVaddr(Segments(bytes, PhdrCount(bytes)));
      StartsAt(bytes, if e != 0 then e else if v != 0 then v else 0x41_0000)
  {
    hide NamesSegment, SegmentAt;
    FirstLoads(bytes, PhdrCount(bytes));
  }
}
