/** The ext2 volume of kernel/fs/ext2.c on values: blocks, inode records, file data, the root directory. */
module Ext2 {
  import opened Basics

  const SECTOR := 512
  const MAX_BLOCK_SIZE := 4096
  const DIRECT_BLOCKS := 12
  const DESCRIPTOR_SIZE := 32
  /** The cache tag for "no block". */
  const NO_BLOCK: Word := 0xFFFF_FFFF

  /** What a mount learns from the superblock; `gdt` holds the raw group descriptors. */
  datatype Geometry = Geometry(blockSize: nat, inodesPerGroup: nat, inodeSize: nat, groups: nat, gdt: seq<Byte>)

  /** A mounted volume: the bytes of the disk, or of an image in memory. */
  datatype Volume = Volume(onDisk: bool, store: seq<Byte>, geo: Geometry)

  predicate BlockSize(bs: nat) {
    bs == 1024 || bs == 2048 || bs == 4096
  }

  ghost predicate Sane(g: Geometry) {
    && BlockSize(g.blockSize)
    && g.inodesPerGroup > 0 && 128 <= g.inodeSize <= MAX_BLOCK_SIZE
    && g.inodesPerGroup * g.inodeSize < WRAP
    && |g.gdt| == DESCRIPTOR_SIZE * g.groups
  }

  /** Disks are whole sectors with 32-bit numbers, images are shorter than 4 GiB. */
  ghost predicate Sound(v: Volume) {
    Sane(v.geo) && if v.onDisk then |v.store| % SECTOR == 0 && |v.store| <= WRAP * SECTOR else |v.store| < WRAP
  }

  // ---- Blocks ----

  /** Where block `blk` starts; the source computes it in 32 bits, in sectors on disk and in bytes in memory. */
  function Start(v: Volume, blk: Word): nat {
    if v.onDisk then blk * (v.geo.blockSize / SECTOR) % WRAP * SECTOR else blk * v.geo.blockSize % WRAP
  }

  /** Neither the one block number whose end wraps to address 0, nor the one that looks like an empty cache. */
  predicate Safe(v: Volume, blk: Word) {
    if v.onDisk then blk != NO_BLOCK else Start(v, blk) + v.geo.blockSize < WRAP
  }

  predicate Readable(v: Volume, blk: Word) {
    blk != 0 && Start(v, blk) + v.geo.blockSize <= |v.store|
  }

  function BlockOf(v: Volume, blk: Word): (b: seq<Byte>)
    requires Readable(v, blk)
    ensures |b| == v.geo.blockSize
  {
    v.store[Start(v, blk)..Start(v, blk) + v.geo.blockSize]
  }

  /** Block `blk` lies inside the volume. */
  predicate InRange(v: Volume, blk: Word) {
    0 < blk && (blk + 1) * v.geo.blockSize <= |v.store|
  }

  /** Which block of a run of blocks holds position `pos`, and where in it. */
  function Index(bs: nat, pos: nat): nat
    requires BlockSize(bs)
  {
    pos / bs
  }

  function Within(bs: nat, pos: nat): (o: nat)
    requires BlockSize(bs)
    ensures o < bs
  {
    pos % bs
  }

  // ---- Inodes ----

  datatype Inode = Inode(mode: nat, size: Word, block: seq<Word>)

  predicate Shaped(ino: Inode) {
    |ino.block| == 15
  }

  function Decode(rec: seq<Byte>): (ino: Inode)
    requires |rec| >= 128
    ensures Shaped(ino)
  {
    Inode(U16(rec, 0), U32(rec, 4), seq(15, i requires 0 <= i < 15 => U32(rec, 40 + 4 * i)))
  }

  function Group(g: Geometry, num: Word): nat
    requires num > 0 && g.inodesPerGroup > 0
  {
    (num - 1) / g.inodesPerGroup
  }

  ghost predicate HasInode(g: Geometry, num: Word) {
    Sane(g) && num > 0 && Group(g, num) < g.groups
  }

  function TableBlock(g: Geometry, num: Word): Word
    requires num > 0 && g.inodesPerGroup > 0 && DESCRIPTOR_SIZE * Group(g, num) + DESCRIPTOR_SIZE <= |g.gdt|
  {
    U32(g.gdt, DESCRIPTOR_SIZE * Group(g, num) + 8)
  }

  /** The record's distance from the start of its table. */
  function RecordOffset(g: Geometry, num: Word): nat
    requires num > 0 && g.inodesPerGroup > 0
  {
    (num - 1) % g.inodesPerGroup * g.inodeSize
  }

  /** The block holding byte `o` of the record. */
  function RecordBlock(g: Geometry, num: Word, o: nat): Word
    requires HasInode(g, num)
  {
    (TableBlock(g, num) + Index(g.blockSize, RecordOffset(g, num) + o)) % WRAP
  }

  ghost predicate RecordReadable(v: Volume, num: Word)
    requires HasInode(v.geo, num)
  {
    forall o :: 0 <= o < v.geo.inodeSize ==> Readable(v, RecordBlock(v.geo, num, o))
  }

  ghost predicate RecordSafe(v: Volume, num: Word) {
    HasInode(v.geo, num) ==> forall o :: 0 <= o < v.geo.inodeSize ==> Safe(v, RecordBlock(v.geo, num, o))
  }

  ghost function RecordByte(v: Volume, num: Word, o: nat): Byte
    requires HasInode(v.geo, num) && Readable(v, RecordBlock(v.geo, num, o))
  {
    BlockOf(v, RecordBlock(v.geo, num, o))[Within(v.geo.blockSize, RecordOffset(v.geo, num) + o)]
  }

  ghost function Record(v: Volume, num: Word): (r: seq<Byte>)
    requires HasInode(v.geo, num) && RecordReadable(v, num)
    ensures |r| == v.geo.inodeSize
  {
    seq(v.geo.inodeSize, o requires 0 <= o < v.geo.inodeSize && Readable(v, RecordBlock(v.geo, num, o)) =>
      RecordByte(v, num, o))
  }

  /** read_inode. */
  ghost function InodeOf(v: Volume, num: Word): (r: Option<Inode>)
    requires Sane(v.geo)
    ensures r.Some? ==> Shaped(r.value)
  {
    if HasInode(v.geo, num) && RecordReadable(v, num) then Some(Decode(Record(v, num))) else None
  }

  // ---- File data ----

  function Min(a: nat, b: nat): nat {
    if a < b then a else b
  }

  /** The bytes one loop iteration handles: up to the end of the block, of the file and of the request. */
  function Chunk(bs: nat, size: nat, pos: nat, len: nat): (n: nat)
    requires BlockSize(bs)
    ensures n <= len && Within(bs, pos) + n <= bs && (pos < size ==> pos + n <= size)
    ensures pos < size && len > 0 ==> n > 0
  {
    Min(Min(len, bs - Within(bs, pos)), if pos < size then size - pos else 0)
  }

  /** Positions of one chunk lie in one block, one after the other. */
  lemma ChunkInBlock(bs: nat, pos: nat, n: nat, p: nat)
    requires BlockSize(bs) && Within(bs, pos) + n <= bs && pos <= p < pos + n
    ensures Index(bs, p) == Index(bs, pos) && Within(bs, p) == Within(bs, pos) + (p - pos)
  {
    if bs == 1024 {
    } else if bs == 2048 {
    } else {
    }
  }

  /** Position `pos` lies in the file and in one of its direct blocks. */
  predicate Direct(v: Volume, ino: Inode, pos: nat)
    requires BlockSize(v.geo.blockSize)
  {
    pos < ino.size && Index(v.geo.blockSize, pos) < DIRECT_BLOCKS
  }

  /** The number of that block. */
  function BlockAt(v: Volume, ino: Inode, pos: nat): Word
    requires BlockSize(v.geo.blockSize) && Shaped(ino) && Direct(v, ino, pos)
  {
    ino.block[Index(v.geo.blockSize, pos)]
  }

  /** Position `pos` holds data that can be read. */
  predicate Mapped(v: Volume, ino: Inode, pos: nat)
    requires BlockSize(v.geo.blockSize) && Shaped(ino)
  {
    Direct(v, ino, pos) && Readable(v, BlockAt(v, ino, pos))
  }

  /** The byte of the volume that holds position `pos`. */
  function Place(v: Volume, ino: Inode, pos: nat): (x: nat)
    requires BlockSize(v.geo.blockSize) && Shaped(ino) && Mapped(v, ino, pos)
    ensures x < |v.store|
  {
    Start(v, BlockAt(v, ino, pos)) + Within(v.geo.blockSize, pos)
  }

  function FileByte(v: Volume, ino: Inode, pos: nat): Byte
    requires BlockSize(v.geo.blockSize) && Shaped(ino) && Mapped(v, ino, pos)
  {
    v.store[Place(v, ino, pos)]
  }

  /** `n` bytes of block `blk` from `o` on. */
  function Piece(v: Volume, blk: Word, o: nat, n: nat): (d: seq<Byte>)
    requires Readable(v, blk) && o + n <= v.geo.blockSize
    ensures |d| == n
  {
    BlockOf(v, blk)[o..o + n]
  }

  /** read_file_direct. */
  function ReadData(v: Volume, ino: Inode, pos: nat, len: nat): (data: seq<Byte>)
    requires BlockSize(v.geo.blockSize) && Shaped(ino)
    ensures |data| <= len
    decreases len
  {
    if len == 0 || !Mapped(v, ino, pos) then []
    else
      var n := Chunk(v.geo.blockSize, ino.size, pos, len);
      Piece(v, BlockAt(v, ino, pos), Within(v.geo.blockSize, pos), n) + ReadData(v, ino, pos + n, len - n)
  }

  /** Whether copy_to_block accepts `n` bytes at offset `o` of a block. In memory only the bytes have to
      exist, on disk the whole block. */
  predicate Fits(v: Volume, blk: Word, o: nat, n: nat) {
    if v.onDisk then Readable(v, blk) else Start(v, blk) + o + n <= |v.store|
  }

  function Stored(v: Volume, blk: Word, o: nat, data: seq<Byte>): (w: Volume)
    requires Fits(v, blk, o, |data|) && o + |data| <= v.geo.blockSize
    ensures w.geo == v.geo && w.onDisk == v.onDisk && |w.store| == |v.store|
  {
    Volume(v.onDisk, Splice(v.store, Start(v, blk) + o, data), v.geo)
  }

  predicate Storable(v: Volume, blk: Word, o: nat, n: nat) {
    blk != 0 && Fits(v, blk, o, n)
  }

  /** write_file_direct: the volume afterwards and the number of bytes written. */
  function WriteData(v: Volume, ino: Inode, pos: nat, data: seq<Byte>): (r: (Volume, nat))
    requires BlockSize(v.geo.blockSize) && Shaped(ino)
    ensures r.0.geo == v.geo && r.0.onDisk == v.onDisk && |r.0.store| == |v.store| && r.1 <= |data|
    decreases |data|
  {
    if data == [] || !Direct(v, ino, pos) then (v, 0)
    else
      var n := Chunk(v.geo.blockSize, ino.size, pos, |data|);
      var blk, o := BlockAt(v, ino, pos), Within(v.geo.blockSize, pos);
      if !Storable(v, blk, o, n) then (v, 0)
      else
        var r := WriteData(Stored(v, blk, o, data[..n]), ino, pos + n, data[n..]);
        (r.0, n + r.1)
  }

  ghost function FileRead(v: Volume, num: Word, pos: nat, len: nat): Option<seq<Byte>>
    requires Sane(v.geo)
  {
    match InodeOf(v, num) case None => None case Some(ino) => Some(ReadData(v, ino, pos, len))
  }

  ghost function FileWrite(v: Volume, num: Word, pos: nat, data: seq<Byte>): (r: (Volume, int))
    requires Sane(v.geo)
    ensures r.0.geo == v.geo && r.0.onDisk == v.onDisk && |r.0.store| == |v.store|
  {
    match InodeOf(v, num)
    case None => (v, -1)
    case Some(ino) =>
      var w := WriteData(v, ino, pos, data);
      (w.0, w.1 as int)
  }

  // ---- The root directory ----

  const ROOT_INODE: Word := 2
  const NEWLINE: Byte := 10

  datatype Entry = Entry(ino: Word, name: seq<Byte>)

  function RecordLength(b: seq<Byte>, off: nat): nat
    requires off + 8 <= |b|
  {
    U16(b, off + 4)
  }

  function NameLength(b: seq<Byte>, off: nat): nat
    requires off + 8 <= |b|
  {
    b[off + 6]
  }

  predicate Live(b: seq<Byte>, off: nat)
    requires off + 8 <= |b|
  {
    U32(b, off) != 0 && NameLength(b, off) != 0
  }

  /** The walk stops at a record that is too short, or longer than what is left of the block. */
  predicate Ends(b: seq<Byte>, off: nat) {
    off + 8 > |b| || RecordLength(b, off) < 8 || RecordLength(b, off) > |b| - off
  }

  /** From `off` on every live record has room for its name. */
  predicate Tidy(b: seq<Byte>, off: nat)
    decreases |b| - off
  {
    !Ends(b, off) ==>
      && (Live(b, off) ==> 8 + NameLength(b, off) <= RecordLength(b, off))
      && Tidy(b, off + RecordLength(b, off))
  }

  function EntryAt(b: seq<Byte>, off: nat): Entry
    requires off + 8 <= |b| && off + 8 + NameLength(b, off) <= |b|
  {
    Entry(U32(b, off), b[off + 8..off + 8 + NameLength(b, off)])
  }

  /** The live entries of a directory block from `off` on, in walk order. */
  function Entries(b: seq<Byte>, off: nat): seq<Entry>
    requires Tidy(b, off)
    decreases |b| - off
  {
    if Ends(b, off) then []
    else (if Live(b, off) then [EntryAt(b, off)] else []) + Entries(b, off + RecordLength(b, off))
  }

  ghost predicate TidyBlocks(v: Volume, blocks: seq<Word>) {
    forall i :: 0 <= i < |blocks| && Readable(v, blocks[i]) ==> Tidy(BlockOf(v, blocks[i]), 0)
  }

  /** The live entries of a directory's blocks; missing blocks are skipped. */
  ghost function Directory(v: Volume, blocks: seq<Word>): seq<Entry>
    requires TidyBlocks(v, blocks)
  {
    if blocks == [] then []
    else (if Readable(v, blocks[0]) then Entries(BlockOf(v, blocks[0]), 0) else []) + Directory(v, blocks[1..])
  }

  /** Append one name and a newline as far as `len` bytes have room. */
  function Printed(out: seq<Byte>, e: Entry, len: nat): (r: seq<Byte>)
    requires |out| <= len
    ensures |r| <= len
  {
    var room := if |out| + 1 < len then len - 1 - |out| else 0;
    var t := out + e.name[..Min(|e.name|, room)];
    if |t| < len then t + [NEWLINE] else t
  }

  function PrintAll(out: seq<Byte>, es: seq<Entry>, len: nat): (r: seq<Byte>)
    requires |out| <= len
    ensures |r| <= len
    decreases |es|
  {
    if es == [] then out else PrintAll(Printed(out, es[0], len), es[1..], len)
  }

  /** lookup_in_root among the directory's entries. */
  function Find(es: seq<Entry>, name: seq<Byte>): Option<Word> {
    if es == [] then None else if es[0].name == name then Some(es[0].ino) else Find(es[1..], name)
  }
}
