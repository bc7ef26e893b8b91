/** Files in the ELF32 format as a linker writes them, little-endian, and the loader's reading of them. The
    writer follows the field order of the System V ABI (chapter 4, "ELF Header" and "Program Header"). */
module ElfFormat {
  import opened Basics
  import opened ElfImage

  /** e_ident up to e_machine. */
  function Identity(machine: Half): (s: seq<Byte>)
    ensures |s| == 20
  {
    [0x7F, 'E' as int, 'L' as int, 'F' as int, 1, 1, 1] + Zeros(9) + Le16(2) + Le16(machine)
  }

  /** The ELF header of a program for the Intel 80386 with its program headers right behind it. */
  function Header(entry: Word, count: Half): (s: seq<Byte>)
    ensures |s| == 52
  {
    Identity(3) + Le32(1) + Le32(entry) + Le32(52) + Le32(0) + Le32(0)
    + Le16(52) + Le16(32) + Le16(count) + Le16(40) + Le16(0) + Le16(0)
  }

  /** p_type, p_offset, p_vaddr, p_paddr, p_filesz, p_memsz, p_flags, p_align. */
  function ProgramHeader(s: Segment): (b: seq<Byte>)
    ensures |b| == 32
  {
    Le32(s.kind) + Le32(s.offset) + Le32(s.vaddr) + Le32(s.vaddr)
    + Le32(s.filesz) + Le32(s.memsz) + Le32(7) + Le32(0x1000)
  }

  function ProgramHeaders(ss: seq<Segment>): (b: seq<Byte>)
    ensures |b| == 32 * |ss|
  {
    if ss == [] then [] else ProgramHeaders(ss[..|ss| - 1]) + ProgramHeader(ss[|ss| - 1])
  }

  function File(entry: Word, ss: seq<Segment>, rest: seq<Byte>): seq<Byte>
    requires |ss| < 0x1_0000
  {
    Header(entry, |ss|) + ProgramHeaders(ss) + rest
  }

  // ---- Reading it back ----

  lemma ReadsHeader(entry: Word, count: Half, rest: seq<Byte>)
    ensures var b := Header(entry, count) + rest;
      && b[0] == 0x7F && b[1] == 0x45 && b[2] == 0x4C && b[3] == 0x46
      && U16(b, 18) == 3 && U32(b, 24) == entry && U32(b, 28) == 52 && U16(b, 42) == 32 && U16(b, 44) == count
  {
    hide U16, U32, Le32, Le16;
    var id := Identity(3);
    var tail := Le32(52) + Le32(0) + Le32(0) + Le16(52) + Le16(32) + Le16(count) + Le16(40) + Le16(0) + Le16(0) + rest;
    assert id[..18] + Le16(3) == id;
    assert Header(entry, count) + rest == id[..18] + Le16(3) + (Le32(1) + Le32(entry) + tail);
    Field16(id[..18], 3, Le32(1) + Le32(entry) + tail);
    assert Header(entry, count) + rest == id + Le32(1) + Le32(entry) + tail;
    Field32(id + Le32(1), entry, tail);
    ReadsCounts(id + Le32(1) + Le32(entry), count, rest);
    assert Header(entry, count) + rest == id + Le32(1) + Le32(entry) + Tables(count) + rest;
  }

  /** The part of the header behind the entry point. */
  function Tables(count: Half): seq<Byte> {
    Le32(52) + Le32(0) + Le32(0) + Le16(52) + Le16(32) + Le16(count) + Le16(40) + Le16(0) + Le16(0)
  }

  lemma ReadsCounts(a: seq<Byte>, count: Half, rest: seq<Byte>)
    requires |a| == 28
    ensures var b := a + Tables(count) + rest;
      U32(b, 28) == 52 && U16(b, 42) == 32 && U16(b, 44) == count
  {
    hide U16, U32, Le32, Le16;
    var b := a + Tables(count) + rest;
    var mid, last := Le32(0) + Le32(0) + Le16(52), Le16(40) + Le16(0) + Le16(0) + rest;
    assert b == a + Le32(52) + (mid + Le16(32) + Le16(count) + last);
    Field32(a, 52, mid + Le16(32) + Le16(count) + last);
    assert b == a + Le32(52) + mid + Le16(32) + (Le16(count) + last);
    Field16(a + Le32(52) + mid, 32, Le16(count) + last);
    assert b == a + Le32(52) + mid + Le16(32) + Le16(count) + last;
    Field16(a + Le32(52) + mid + Le16(32), count, last);
  }

  /** One program header, wherever it stands. */
  lemma ReadsProgramHeader(a: seq<Byte>, s: Segment, rest: seq<Byte>)
    ensures var b, p := a + ProgramHeader(s) + rest, |a|;
      && U32(b, p) == s.kind && U32(b, p + 4) == s.offset && U32(b, p + 8) == s.vaddr
      && U32(b, p + 16) == s.filesz && U32(b, p + 20) == s.memsz
  {
    hide U32, Le32;
    var b := a + ProgramHeader(s) + rest;
    var k, o, v, f, m := Le32(s.kind), Le32(s.offset), Le32(s.vaddr), Le32(s.filesz), Le32(s.memsz);
    var tail := Le32(7) + Le32(0x1000) + rest;
    assert b == a + k + (o + v + v + f + m + tail);
    Field32(a, s.kind, o + v + v + f + m + tail);
    assert b == a + k + o + (v + v + f + m + tail);
    Field32(a + k, s.offset, v + v + f + m + tail);
    assert b == a + k + o + v + (v + f + m + tail);
    Field32(a + k + o, s.vaddr, v + f + m + tail);
    assert b == a + k + o + v + v + f + (m + tail);
    Field32(a + k + o + v + v, s.filesz, m + tail);
    assert b == a + k + o + v + v + f + m + tail;
    Field32(a + k + o + v + v + f, s.memsz, tail);
  }

  lemma {:induction false} HeadersSplit(ss: seq<Segment>, i: nat) returns (rest: seq<Byte>)
    requires i < |ss|
    ensures ProgramHeaders(ss) == ProgramHeaders(ss[..i]) + ProgramHeader(ss[i]) + rest
  {
    hide ProgramHeader;
    var init, last := ss[..|ss| - 1], ProgramHeader(ss[|ss| - 1]);
    if i < |init| {
      rest := HeadersSplit(init, i);
      assert init[..i] == ss[..i];
      rest := rest + last;
    } else {
      assert ss[..i] == init;
      rest := [];
    }
  }

  /** The round trip: of a file so written the loader accepts the header and reads the entry point, the number
      of program headers, and of each header its kind, place in the file, address and sizes. */
  lemma LoaderReadsBack(entry: Word, ss: seq<Segment>, rest: seq<Byte>)
    requires 0 < |ss| < 0x1_0000
    ensures var b := File(entry, ss, rest);
      && HeaderCheck(b) == 0 && U32(b, 24) == entry && PhdrCount(b) == |ss|
      && forall i :: 0 <= i < |ss| ==> PhdrAt(b, i) + 32 <= |b| && SegmentAt(b, i) == ss[i]
  {
    hide U16, U32, Header, ProgramHeader;
    var b := File(entry, ss, rest);
    assert b == Header(entry, |ss|) + (ProgramHeaders(ss) + rest);
    ReadsHeader(entry, |ss|, ProgramHeaders(ss) + rest);
    forall i | 0 <= i < |ss| ensures PhdrAt(b, i) + 32 <= |b| && SegmentAt(b, i) == ss[i] {
      var more := HeadersSplit(ss, i);
      var front := Header(entry, |ss|) + ProgramHeaders(ss[..i]);
      assert b == front + ProgramHeader(ss[i]) + (more + rest);
      ReadsProgramHeader(front, ss[i], more + rest);
      assert |front| == 52 + 32 * i;
    }
  }

  /** Each deviation in the header is refused with its own code. */
  lemma BadHeaders(b: seq<Byte>)
    ensures |b| < 52 <==> HeaderCheck(b) == -10
    ensures |b| >= 52 ==>
      && (HeaderCheck(b) == -11 <==> b[..4] != [0x7F, 'E' as int, 'L' as int, 'F' as int])
      && (HeaderCheck(b) == -12 <==> b[..4] == [0x7F, 'E' as int, 'L' as int, 'F' as int] && U16(b, 18) != 3)
      && HeaderCheck(b) in {0, -11, -12, -13}
      && (HeaderCheck(b) == 0 <==>
            && b[..4] == [0x7F, 'E' as int, 'L' as int, 'F' as int] && U16(b, 18) == 3
            && U32(b, 28) != 0 && U16(b, 44) != 0)
  {
  }
}
