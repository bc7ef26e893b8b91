/** The on-disk structures of ext2 as a formatting program writes them, little-endian, and the driver's reading
    of them. The writers follow the structures at the head of kernel/fs/ext2.c field by field. */
module Ext2Format {
  import opened Basics
  import opened Ext2
  import opened Ext2Mount
  import opened Ext2RootCode

  // ---- The superblock ----

  /** The fields that the driver reads; all others are zero here. */
  function SuperBytes(inodes: Word, logBlockSize: Word, perGroup: Word, inodeSize: Half): (s: Super)
  {
    Le32(inodes) + Zeros(20) + Le32(logBlockSize) + Zeros(12) + Le32(perGroup) + Zeros(12) + Le16(0xEF53)
    + Zeros(30) + Le16(inodeSize) + Zeros(110)
  }

  lemma SuperReadsBack(inodes: Word, logBlockSize: Word, perGroup: Word, inodeSize: Half)
    ensures var sb := SuperBytes(inodes, logBlockSize, perGroup, inodeSize);
      && HasMagic(sb) && InodesCount(sb) == inodes && PerGroup(sb) == perGroup
      && InodeSizeOf(sb) == (if inodeSize == 0 then 128 else inodeSize)
      && BlockSizeOf(sb) == (if logBlockSize < 3 then [1024, 2048, 4096][logBlockSize] else 0)
      && (perGroup > 0 && inodes > 0 ==> (GroupsOf(sb) - 1) * perGroup < inodes <= GroupsOf(sb) * perGroup)
  {
    hide U16, U32, Le32, Le16, Zeros;
    var sb: seq<Byte> := SuperBytes(inodes, logBlockSize, perGroup, inodeSize);
    var a := Le32(inodes) + Zeros(20);
    var b := a + Le32(logBlockSize) + Zeros(12);
    var c := b + Le32(perGroup) + Zeros(12);
    var d := c + Le16(0xEF53) + Zeros(30);
    assert [] + Le32(inodes) == Le32(inodes);
    assert sb == [] + Le32(inodes) + (Zeros(20) + Le32(logBlockSize) + Zeros(12) + Le32(perGroup) + Zeros(12)
                                      + Le16(0xEF53) + Zeros(30) + Le16(inodeSize) + Zeros(110));
    Field32([], inodes, Zeros(20) + Le32(logBlockSize) + Zeros(12) + Le32(perGroup) + Zeros(12)
                        + Le16(0xEF53) + Zeros(30) + Le16(inodeSize) + Zeros(110));
    assert sb == a + Le32(logBlockSize)
                 + (Zeros(12) + Le32(perGroup) + Zeros(12) + Le16(0xEF53) + Zeros(30) + Le16(inodeSize) + Zeros(110));
    Field32(a, logBlockSize,
      Zeros(12) + Le32(perGroup) + Zeros(12) + Le16(0xEF53) + Zeros(30) + Le16(inodeSize) + Zeros(110));
    assert sb == b + Le32(perGroup) + (Zeros(12) + Le16(0xEF53) + Zeros(30) + Le16(inodeSize) + Zeros(110));
    Field32(b, perGroup, Zeros(12) + Le16(0xEF53) + Zeros(30) + Le16(inodeSize) + Zeros(110));
    assert sb == c + Le16(0xEF53) + (Zeros(30) + Le16(inodeSize) + Zeros(110));
    Field16(c, 0xEF53, Zeros(30) + Le16(inodeSize) + Zeros(110));
    assert sb == d + Le16(inodeSize) + Zeros(110);
    Field16(d, inodeSize, Zeros(110));
    if perGroup > 0 && inodes > 0 { WholeGroups(inodes, perGroup); }
  }

  lemma WholeGroups(inodes: nat, perGroup: nat)
    requires perGroup > 0 && inodes > 0
    ensures var g := (inodes + perGroup - 1) / perGroup; (g - 1) * perGroup < inodes <= g * perGroup
  {
    var n := inodes + perGroup - 1;
    assert n == n / perGroup * perGroup + n % perGroup;
  }

  /** The group descriptors begin with the block behind the one that holds the superblock, byte 1024. */
  lemma DescriptorsBehindSuper(bs: nat)
    requires BlockSize(bs)
    ensures GdtStart(bs) == (1024 / bs + 1) * bs
  {
  }

  // ---- Inodes ----

  function Words(ws: seq<Word>): (s: seq<Byte>)
    ensures |s| == 4 * |ws|
  {
    if ws == [] then [] else Words(ws[..|ws| - 1]) + Le32(ws[|ws| - 1])
  }

  lemma {:induction false} WordReadsBack(a: seq<Byte>, ws: seq<Word>, b: seq<Byte>, i: nat)
    requires i < |ws|
    ensures U32(a + Words(ws) + b, |a| + 4 * i) == ws[i]
  {
    hide U32, Le32;
    var init, last := ws[..|ws| - 1], ws[|ws| - 1];
    if i < |init| {
      WordReadsBack(a, init, Le32(last) + b, i);
      assert a + Words(ws) + b == a + Words(init) + (Le32(last) + b);
    } else {
      assert a + Words(ws) + b == (a + Words(init)) + Le32(last) + b;
      Field32(a + Words(init), last, b);
    }
  }

  function InodeBytes(ino: Inode): (s: seq<Byte>)
    requires Shaped(ino) && ino.mode < 0x1_0000
    ensures |s| == 128
  {
    Le16(ino.mode) + Zeros(2) + Le32(ino.size) + Zeros(32) + Words(ino.block) + Zeros(28)
  }

  lemma InodeReadsBack(ino: Inode, rest: seq<Byte>)
    requires Shaped(ino) && ino.mode < 0x1_0000
    ensures Decode(InodeBytes(ino) + rest) == ino
  {
    hide U16, U32, Le32, Le16, Zeros, Words;
    var rec := InodeBytes(ino) + rest;
    var a := Le16(ino.mode) + Zeros(2);
    var b := a + Le32(ino.size) + Zeros(32);
    assert rec == [] + Le16(ino.mode) + (Zeros(2) + Le32(ino.size) + Zeros(32) + Words(ino.block) + Zeros(28) + rest);
    Field16([], ino.mode, Zeros(2) + Le32(ino.size) + Zeros(32) + Words(ino.block) + Zeros(28) + rest);
    assert rec == a + Le32(ino.size) + (Zeros(32) + Words(ino.block) + Zeros(28) + rest);
    Field32(a, ino.size, Zeros(32) + Words(ino.block) + Zeros(28) + rest);
    assert rec == b + Words(ino.block) + (Zeros(28) + rest);
    forall i | 0 <= i < 15 ensures U32(rec, 40 + 4 * i) == ino.block[i] {
      WordReadsBack(b, ino.block, Zeros(28) + rest, i);
    }
    assert Decode(rec).block == ino.block;
  }

  /** Directories are the inodes whose mode has 4 in its upper four of sixteen bits. */
  lemma DirectoryModes(ino: Inode)
    requires ino.mode < 0x1_0000
    ensures IsDirectory(ino) <==> 0x4000 <= ino.mode < 0x5000
  {
  }

  // ---- Directory blocks ----

  /** A directory record; `slack` bytes behind the name belong to it. Deleted ones have inode 0. */
  datatype Rec = Rec(ino: Word, name: seq<Byte>, slack: nat)

  predicate Fine(r: Rec) {
    |r.name| < 0x100 && 8 + |r.name| + r.slack < 0x1_0000
  }

  predicate AllFine(rs: seq<Rec>) {
    forall i :: 0 <= i < |rs| ==> Fine(rs[i])
  }

  function RecBytes(r: Rec): (s: seq<Byte>)
    requires Fine(r)
    ensures |s| == 8 + |r.name| + r.slack
  {
    Le32(r.ino) + Le16(8 + |r.name| + r.slack) + [|r.name|, 0] + r.name + Zeros(r.slack)
  }

  function DirBytes(rs: seq<Rec>): seq<Byte>
    requires AllFine(rs)
  {
    if rs == [] then [] else RecBytes(rs[0]) + DirBytes(rs[1..])
  }

  /** The records in use. */
  function InUse(rs: seq<Rec>): seq<Entry> {
    if rs == [] then []
    else (if rs[0].ino != 0 && rs[0].name != [] then [Entry(rs[0].ino, rs[0].name)] else []) + InUse(rs[1..])
  }

  lemma RecReadsBack(a: seq<Byte>, r: Rec, rest: seq<Byte>)
    requires Fine(r)
    ensures var b, off := a + RecBytes(r) + rest, |a|;
      && off + 8 <= |b| && RecordLength(b, off) == |RecBytes(r)| && NameLength(b, off) == |r.name|
      && U32(b, off) == r.ino && b[off + 8..off + 8 + |r.name|] == r.name
  {
    hide U16, U32, Le32, Le16, Zeros;
    var len := 8 + |r.name| + r.slack;
    var b := a + RecBytes(r) + rest;
    var tail := [|r.name|, 0] + r.name + Zeros(r.slack) + rest;
    assert b == a + Le32(r.ino) + (Le16(len) + tail);
    Field32(a, r.ino, Le16(len) + tail);
    assert b == (a + Le32(r.ino)) + Le16(len) + tail;
    Field16(a + Le32(r.ino), len, tail);
    var front := a + Le32(r.ino) + Le16(len);
    assert b == front + tail;
    assert b[|front|] == tail[0] == |r.name|;
    assert b[|a| + 8..|a| + 8 + |r.name|] == tail[2..2 + |r.name|] == r.name;
  }

  /** A directory block filled with records is walked to its end, and its entries are the records in use. */
  lemma {:induction false} DirectoryReadsBack(a: seq<Byte>, rs: seq<Rec>)
    requires AllFine(rs)
    ensures Tidy(a + DirBytes(rs), |a|) && Entries(a + DirBytes(rs), |a|) == InUse(rs)
    decreases |rs|
  {
    hide U16, U32, RecBytes, RecordLength, NameLength;
    var b := a + DirBytes(rs);
    if rs != [] {
      var next := a + RecBytes(rs[0]);
      RecReadsBack(a, rs[0], DirBytes(rs[1..]));
      assert b == a + RecBytes(rs[0]) + DirBytes(rs[1..]) == next + DirBytes(rs[1..]);
      DirectoryReadsBack(next, rs[1..]);
    }
  }
}
