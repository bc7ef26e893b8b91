/** Mounting an ext2 image from memory or from a disk, and copying the one onto the other. */
module Ext2Mount {
  import opened Basics
  import opened Ext2
  import opened Ext2Files

  const SUPER_START := 1024
  const SUPER_SIZE := 200
  const SMALLEST := 2048
  const MAGIC := 0xEF53

  // ---- The superblock ----

  type Super = s: seq<Byte> | |s| == SUPER_SIZE witness seq(SUPER_SIZE, _ => 0)

  function SuperOf(store: seq<Byte>): Super
    requires |store| >= SMALLEST
  {
    store[SUPER_START..SUPER_START + SUPER_SIZE]
  }

  function InodesCount(sb: Super): Word { U32(sb, 0) }

  function PerGroup(sb: Super): Word { U32(sb, 40) }

  function InodeSizeOf(sb: Super): nat {
    if U16(sb, 88) == 0 then 128 else U16(sb, 88)
  }

  /** `1024 << log`, or 0 where the driver finds the size unsupported. */
  function BlockSizeOf(sb: Super): nat {
    match U32(sb, 24) case 0 => 1024 case 1 => 2048 case 2 => 4096 case _ => 0
  }

  predicate HasMagic(sb: Super) { U16(sb, 56) == MAGIC }

  function GroupsOf(sb: Super): nat
    requires PerGroup(sb) > 0
  {
    (InodesCount(sb) + PerGroup(sb) - 1) / PerGroup(sb)
  }

  /** No division by zero, no overflow of 32 bits, and inodes of a size the driver has room for. */
  ghost predicate SaneSuper(sb: Super) {
    && PerGroup(sb) > 0 && InodesCount(sb) + PerGroup(sb) <= WRAP
    && 128 <= InodeSizeOf(sb) <= MAX_BLOCK_SIZE && PerGroup(sb) * InodeSizeOf(sb) < WRAP
    && DESCRIPTOR_SIZE * GroupsOf(sb) + 2 * MAX_BLOCK_SIZE < WRAP
  }

  ghost predicate SaneStore(store: seq<Byte>) {
    |store| >= SMALLEST && HasMagic(SuperOf(store)) && BlockSizeOf(SuperOf(store)) != 0 ==> SaneSuper(SuperOf(store))
  }

  /** The group descriptors follow the superblock's block. */
  function GdtStart(bs: nat): nat {
    if bs == 1024 then 2048 else bs
  }

  function GdtBytes(sb: Super): nat
    requires PerGroup(sb) > 0
  {
    DESCRIPTOR_SIZE * GroupsOf(sb)
  }

  /** `n` bytes rounded up to whole units. */
  function RoundUp(n: nat, unit: nat): nat
    requires unit > 0
  {
    if n == 0 then 0 else unit + RoundUp(n - Min(n, unit), unit)
  }

  function GeometryOf(store: seq<Byte>): Geometry
    requires |store| >= SMALLEST && PerGroup(SuperOf(store)) > 0
    requires GdtStart(BlockSizeOf(SuperOf(store))) + GdtBytes(SuperOf(store)) <= |store|
  {
    var sb := SuperOf(store);
    var bs := BlockSizeOf(sb);
    Geometry(bs, PerGroup(sb), InodeSizeOf(sb), GroupsOf(sb), store[GdtStart(bs)..GdtStart(bs) + GdtBytes(sb)])
  }

  /** ext2_mount_from_module: the descriptors must lie inside the image. */
  ghost function ModuleMount(img: seq<Byte>): Option<Geometry>
    requires SaneStore(img)
  {
    if |img| < SMALLEST then None
    else
      var sb := SuperOf(img);
      if !HasMagic(sb) || BlockSizeOf(sb) == 0 then None
      else if GdtStart(BlockSizeOf(sb)) + GdtBytes(sb) > |img| || GroupsOf(sb) == 0 then None
      else Some(GeometryOf(img))
  }

  /** Where the last block of descriptors that the disk mount reads ends. */
  function GdtEnd(sb: Super): nat
    requires PerGroup(sb) > 0 && BlockSizeOf(sb) > 0
  {
    GdtStart(BlockSizeOf(sb)) + RoundUp(GdtBytes(sb), BlockSizeOf(sb))
  }

  /** ext2_mount_from_disk: the descriptors are read in whole blocks. */
  ghost function DiskMount(disk: seq<Byte>): Option<Geometry>
    requires SaneStore(disk)
  {
    if |disk| < SMALLEST then None
    else
      var sb := SuperOf(disk);
      if !HasMagic(sb) || BlockSizeOf(sb) == 0 || GroupsOf(sb) == 0 || GdtEnd(sb) > |disk| then None
      else
        RoundUpCovers(GdtBytes(sb), BlockSizeOf(sb));
        Some(GeometryOf(disk))
  }

  lemma {:induction false} RoundUpCovers(n: nat, unit: nat)
    requires unit > 0
    ensures n <= RoundUp(n, unit) < n + unit
  {
    if n > 0 { RoundUpCovers(n - Min(n, unit), unit); }
  }

  /** The source counts sectors by division. */
  lemma {:induction false} RoundUpSectors(n: nat)
    ensures RoundUp(n, SECTOR) == (n + 511) / 512 * SECTOR
  {
    if n > 0 { RoundUpSectors(n - Min(n, SECTOR)); }
  }

  /** What a mount yields is sane. */
  lemma MountSane(store: seq<Byte>)
    requires SaneStore(store)
    ensures ModuleMount(store).Some? ==> Sane(ModuleMount(store).value) && ModuleMount(store).value.groups > 0
    ensures DiskMount(store).Some? ==> Sane(DiskMount(store).value) && DiskMount(store).value.groups > 0
  {
    if |store| >= SMALLEST && HasMagic(SuperOf(store)) && BlockSizeOf(SuperOf(store)) != 0 {
      RoundUpCovers(GdtBytes(SuperOf(store)), BlockSizeOf(SuperOf(store)));
    }
  }

  // ---- Copying the image to the disk ----

  /** The image followed by zeros up to a whole sector. */
  function Padded(img: seq<Byte>): (p: seq<Byte>)
    ensures |p| == RoundUp(|img|, SECTOR) && |img| <= |p|
  {
    RoundUpCovers(|img|, SECTOR);
    img + seq(RoundUp(|img|, SECTOR) - |img|, _ => 0)
  }

  /** copy_module_to_disk: the disk afterwards, and success. It stops at the end of a disk that is too small. */
  function Copied(disk: seq<Byte>, img: seq<Byte>): (r: (seq<Byte>, bool))
    ensures |r.0| == |disk|
  {
    if |Padded(img)| <= |disk| then (Padded(img) + disk[|Padded(img)|..], true) else (Padded(img)[..|disk|], false)
  }

  /** The copy byte by byte: the image, zeros up to a whole sector, and behind that the disk as it was; if the
      disk ends before that, as much of it as there is room for. */
  lemma CopiedBytes(disk: seq<Byte>, img: seq<Byte>)
    ensures var (d, ok) := Copied(disk, img);
      && (ok <==> (|img| + 511) / 512 * 512 <= |disk|) && |d| == |disk|
      && forall i :: 0 <= i < |disk| ==>
           d[i] == if i < |img| then img[i] else if i < (|img| + 511) / 512 * 512 then 0 else disk[i]
  {
    RoundUpSectors(|img|);
  }

  /** The image occupies the start of the disk. */
  lemma CopiedPrefix(disk: seq<Byte>, img: seq<Byte>)
    requires Copied(disk, img).1
    ensures |img| <= |disk| && Copied(disk, img).0[..|img|] == img
  {
  }

  lemma SameFields(disk: seq<Byte>, img: seq<Byte>)
    requires |disk| >= |img| >= SMALLEST && disk[..|img|] == img
    ensures SuperOf(disk) == SuperOf(img)
    ensures forall a, b :: 0 <= a <= b <= |img| ==> disk[a..b] == img[a..b]
  {
    forall a, b | 0 <= a <= b <= |img| ensures disk[a..b] == img[a..b] {
      assert disk[a..b] == disk[..|img|][a..b];
    }
  }

  /** An image that mounts from memory, once copied, mounts from the disk exactly when the disk reaches the
      end of the last block of descriptors; the superblock is the same, and so is everything the mount
      learns. */
  lemma SameMount(disk: seq<Byte>, img: seq<Byte>)
    requires SaneStore(img) && ModuleMount(img).Some? && Copied(disk, img).1
    ensures var d := Copied(disk, img).0;
      && |d| >= SMALLEST && SuperOf(d) == SuperOf(img) && SaneStore(d)
      && (DiskMount(d).Some? <==> GdtEnd(SuperOf(img)) <= |disk|)
      && (DiskMount(d).Some? ==> DiskMount(d) == ModuleMount(img))
  {
    var d := Copied(disk, img).0;
    CopiedPrefix(disk, img);
    SameFields(d, img);
    MountSane(img);
  }

  /** For an image of whole blocks that is always so. */
  lemma WholeBlocksMount(disk: seq<Byte>, img: seq<Byte>)
    requires SaneStore(img) && ModuleMount(img).Some? && Copied(disk, img).1
    requires |img| % ModuleMount(img).value.blockSize == 0
    ensures SaneStore(Copied(disk, img).0) && DiskMount(Copied(disk, img).0) == ModuleMount(img)
  {
    SameMount(disk, img);
    CopiedPrefix(disk, img);
    var sb := SuperOf(img);
    WholeBlocks(BlockSizeOf(sb), GdtBytes(sb), |img|);
  }

  lemma WholeBlocks(bs: nat, n: nat, total: nat)
    requires BlockSize(bs) && total % bs == 0 && GdtStart(bs) + n <= total
    ensures GdtStart(bs) + RoundUp(n, bs) <= total
  {
    MinusBlock(bs, total);
    if bs == 1024 { MinusBlock(bs, total - bs); }
    RoundUpInside(bs, n, total - GdtStart(bs));
  }

  lemma {:induction false} RoundUpInside(bs: nat, n: nat, total: nat)
    requires BlockSize(bs) && total % bs == 0 && n <= total
    ensures RoundUp(n, bs) <= total
  {
    if n > 0 {
      MinusBlock(bs, total);
      RoundUpInside(bs, n - Min(n, bs), total - bs);
    }
  }

  lemma MinusBlock(bs: nat, total: nat)
    requires BlockSize(bs) && total % bs == 0 && total > 0
    ensures total >= bs && (total - bs) % bs == 0
  {
    if bs == 1024 {
    } else if bs == 2048 {
    } else {
    }
  }

  /** The two volumes that hold the same image. */
  function InMemory(img: seq<Byte>, g: Geometry): Volume {
    Volume(false, img, g)
  }

  function OnDisk(disk: seq<Byte>, g: Geometry): Volume {
    Volume(true, disk, g)
  }

  /** Every block wholly inside the image reads the same from both. */
  lemma SameBlocks(disk: seq<Byte>, img: seq<Byte>, g: Geometry, blk: Word)
    requires Copied(disk, img).1 && Sound(InMemory(img, g)) && Sound(OnDisk(disk, g)) && InRange(InMemory(img, g), blk)
    ensures var a, b := InMemory(img, g), OnDisk(Copied(disk, img).0, g);
      Readable(a, blk) && Readable(b, blk) && BlockOf(a, blk) == BlockOf(b, blk)
  {
    var a, b := InMemory(img, g), OnDisk(Copied(disk, img).0, g);
    CopiedPrefix(disk, img);
    InRangeStart(a, blk);
    InRangeStart(b, blk);
    assert Copied(disk, img).0[..|img|][blk * g.blockSize..blk * g.blockSize + g.blockSize] == BlockOf(b, blk);
  }

  /** So every file whose record and data lie inside the image has the same contents. */
  lemma {:induction false} SameData(disk: seq<Byte>, img: seq<Byte>, g: Geometry, ino: Inode, pos: nat, len: nat)
    requires Copied(disk, img).1 && Sound(InMemory(img, g)) && Sound(OnDisk(disk, g)) && Shaped(ino)
    requires DataApart(InMemory(img, g), ino, [])
    ensures ReadData(InMemory(img, g), ino, pos, len) == ReadData(OnDisk(Copied(disk, img).0, g), ino, pos, len)
    decreases len
  {
    hide Copied, InRange, BlockOf, Start, Index, Within;
    var a, b := InMemory(img, g), OnDisk(Copied(disk, img).0, g);
    if Direct(a, ino, pos) && BlockAt(a, ino, pos) != 0 { SameBlocks(disk, img, g, BlockAt(a, ino, pos)); }
    if len > 0 && Mapped(a, ino, pos) {
      var n := Chunk(g.blockSize, ino.size, pos, len);
      SameData(disk, img, g, ino, pos + n, len - n);
    }
  }

  lemma SameFiles(disk: seq<Byte>, img: seq<Byte>, g: Geometry, num: Word, pos: nat, len: nat)
    requires Copied(disk, img).1 && Sound(InMemory(img, g)) && Sound(OnDisk(disk, g))
    requires HasInode(g, num) ==> RecordApart(InMemory(img, g), num, [])
    requires InodeOf(InMemory(img, g), num).Some? ==>
      DataApart(InMemory(img, g), InodeOf(InMemory(img, g), num).value, [])
    ensures InodeOf(OnDisk(Copied(disk, img).0, g), num) == InodeOf(InMemory(img, g), num)
    ensures FileRead(OnDisk(Copied(disk, img).0, g), num, pos, len) == FileRead(InMemory(img, g), num, pos, len)
  {
    hide Copied, InRange, BlockOf, Start, RecordBlock, ReadData, Readable;
    var a, b := InMemory(img, g), OnDisk(Copied(disk, img).0, g);
    if HasInode(g, num) {
      forall o | 0 <= o < g.inodeSize
        ensures Readable(a, RecordBlock(g, num, o)) && Readable(b, RecordBlock(g, num, o))
        ensures RecordByte(a, num, o) == RecordByte(b, num, o)
      {
        SameBlocks(disk, img, g, RecordBlock(g, num, o));
      }
      assert Record(a, num) == Record(b, num);
      SameData(disk, img, g, InodeOf(a, num).value, pos, len);
    }
  }

  /** The whole chain: an image of whole blocks, copied to a disk that has room and mounted from there, is
      the same file system. */
  lemma BackendsAgree(disk: seq<Byte>, img: seq<Byte>, num: Word, pos: nat, len: nat)
    requires SaneStore(img) && ModuleMount(img).Some? && |img| < WRAP && |img| % ModuleMount(img).value.blockSize == 0
    requires Copied(disk, img).1 && |disk| % SECTOR == 0 && |disk| <= WRAP * SECTOR
    requires var a := InMemory(img, ModuleMount(img).value);
      && Sane(a.geo) && (HasInode(a.geo, num) ==> RecordApart(a, num, []))
      && (InodeOf(a, num).Some? ==> DataApart(a, InodeOf(a, num).value, []))
    ensures SaneStore(Copied(disk, img).0) && DiskMount(Copied(disk, img).0) == ModuleMount(img)
    ensures FileRead(OnDisk(Copied(disk, img).0, ModuleMount(img).value), num, pos, len)
            == FileRead(InMemory(img, ModuleMount(img).value), num, pos, len)
  {
    hide Copied, FileRead, InodeOf, ModuleMount, DiskMount;
    WholeBlocksMount(disk, img);
    SameFiles(disk, img, ModuleMount(img).value, num, pos, len);
  }
}
