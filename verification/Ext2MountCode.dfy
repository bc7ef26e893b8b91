/** The mount operations, the copy of a boot module to the disk, and the start of the file system layer. */
module Ext2MountCode {
  import opened Basics
  import opened Ext2
  import opened Ext2Mount
  import opened Ext2Code

  /** A byte buffer that the driver does not own, short enough for 32-bit sizes. */
  ghost predicate ImageFor(fs: FileSystem, start: array<Byte>)
    reads start
  {
    start != fs.cache && start != fs.disk && start.Length + SECTOR <= WRAP && SaneStore(start[..])
  }

  ghost predicate AllClosed(fds: seq<Fd>) {
    forall i :: 0 <= i < |fds| ==> !fds[i].used
  }

  method CloseAll(fs: FileSystem)
    modifies fs.fds
    ensures AllClosed(fs.fds[..])
  {
    for i := 0 to fs.fds.Length
      invariant forall j :: 0 <= j < i ==> !fs.fds[j].used
    {
      fs.fds[i] := fs.fds[i].(used := false);
    }
  }

  /** Take the geometry over from the superblock just read, unless its magic or block size is wrong. */
  method AdoptSuper(fs: FileSystem) returns (ok: bool)
    requires HasMagic(fs.sb) && BlockSizeOf(fs.sb) != 0 ==> PerGroup(fs.sb) > 0
    modifies fs`blockSize, fs`inodesPerGroup, fs`inodeSize, fs`groups
    ensures ok <==> HasMagic(fs.sb) && BlockSizeOf(fs.sb) != 0
    ensures !ok ==> fs.blockSize == 0
    ensures ok ==> (fs.blockSize, fs.inodesPerGroup, fs.inodeSize, fs.groups)
                   == (BlockSizeOf(fs.sb), PerGroup(fs.sb), InodeSizeOf(fs.sb), GroupsOf(fs.sb))
  {
    hide BlockSizeOf, PerGroup, InodeSizeOf, GroupsOf, HasMagic;
    if !HasMagic(fs.sb) || BlockSizeOf(fs.sb) == 0 {
      fs.blockSize := 0;
      return false;
    }
    fs.blockSize, fs.inodesPerGroup, fs.inodeSize, fs.groups :=
      BlockSizeOf(fs.sb), PerGroup(fs.sb), InodeSizeOf(fs.sb), GroupsOf(fs.sb);
    return true;
  }

  /** ext2_mount_from_module: too small an image changes nothing, any other failure unmounts. */
  method MountFromModule(fs: FileSystem, start: array<Byte>) returns (r: int)
    requires fs.Steady() && ImageFor(fs, start)
    modifies fs, fs.fds
    ensures r == (if ModuleMount(start[..]).Some? then 0 else -1)
    ensures r == 0 ==>
      && fs.Valid() && fs.Mounted() && !fs.useDisk && fs.img == start
      && Some(fs.Geo()) == ModuleMount(start[..]) && fs.sb == SuperOf(start[..]) && AllClosed(fs.fds[..])
    ensures r == -1 && start.Length >= SMALLEST ==> fs.Valid() && !fs.Mounted() && fs.img == null && !fs.useDisk
    ensures r == -1 && start.Length < SMALLEST ==>
      && fs.img == old(fs.img) && fs.Geo() == old(fs.Geo()) && fs.sb == old(fs.sb)
      && (fs.useDisk, fs.cacheNum) == (old(fs.useDisk), old(fs.cacheNum))
    ensures r == -1 ==> fs.fds[..] == old(fs.fds[..])
  {
    hide Sane, ModuleMount, GeometryOf, HasMagic, BlockSizeOf, PerGroup;
    hide InodeSizeOf, GroupsOf, SaneStore, GdtStart, BlockOf, Readable, FileSystem.View;
    ghost var img := start[..];
    ModuleMountCases(img);
    if start.Length < SMALLEST { return -1; }
    fs.img, fs.useDisk, fs.cacheNum := start, false, NO_BLOCK;
    fs.sb := start[SUPER_START..SUPER_START + SUPER_SIZE];
    assert fs.sb == SuperOf(img);
    var ok := AdoptSuper(fs);
    if ok {
      var off, bytes := GdtStart(fs.blockSize), DESCRIPTOR_SIZE * fs.groups;
      if off + bytes <= start.Length && bytes > 0 {
        fs.gdt := start[off..off + bytes];
        assert fs.gdt == img[off..off + bytes];
        CloseAll(fs);
        return 0;
      }
    }
    fs.img, fs.blockSize, fs.gdt := null, 0, [];
    return -1;
  }

  lemma ModuleMountCases(img: seq<Byte>)
    requires SaneStore(img)
    ensures |img| < SMALLEST ==> ModuleMount(img) == None
    ensures |img| >= SMALLEST ==>
      var sb := SuperOf(img);
      var bs := BlockSizeOf(sb);
      if !HasMagic(sb) || bs == 0 then ModuleMount(img) == None
      else
        && PerGroup(sb) > 0
        && (var start, bytes := GdtStart(bs), DESCRIPTOR_SIZE * GroupsOf(sb);
           if GroupsOf(sb) == 0 || start + bytes > |img| then ModuleMount(img) == None
           else
             && ModuleMount(img) == Some(Geometry(bs, PerGroup(sb), InodeSizeOf(sb), GroupsOf(sb),
                  img[start..start + bytes]))
             && Sane(ModuleMount(img).value))
  {
  }

  /** ext2_mount_from_disk: a disk too small for a superblock leaves the mounted image alone, any other
      failure unmounts. */
  method MountFromDisk(fs: FileSystem) returns (r: int)
    requires fs.Steady() && SaneStore(fs.disk[..])
    modifies fs, fs.fds
    ensures r == (if DiskMount(fs.disk[..]).Some? then 0 else -1)
    ensures fs.Valid()
    ensures r == 0 ==>
      && fs.Mounted() && fs.useDisk && fs.img == null
      && Some(fs.Geo()) == DiskMount(fs.disk[..]) && fs.sb == SuperOf(fs.disk[..]) && AllClosed(fs.fds[..])
    ensures r == -1 ==> !fs.useDisk && fs.img == old(fs.img) && fs.fds[..] == old(fs.fds[..])
    ensures r == -1 && fs.disk.Length >= SMALLEST ==> !fs.Mounted()
    ensures r == -1 && fs.disk.Length < SMALLEST ==> fs.Geo() == old(fs.Geo()) && fs.sb == old(fs.sb)
  {
    hide Sane, DiskMount, GeometryOf, SuperOf, HasMagic, BlockSizeOf, PerGroup;
    hide InodeSizeOf, GroupsOf, RoundUp, SaneStore, GdtStart, BlockOf, Readable, FileSystem.View;
    DiskMountCases(fs.disk[..]);
    fs.useDisk, fs.cacheNum := false, NO_BLOCK;
    var present := ReadSuper(fs);
    if !present { return -1; }
    var ok := AdoptSuper(fs);
    if ok {
      fs.gdt := [];
      if fs.groups > 0 {
        var gdt := ReadDescriptors(fs);
        if gdt != [] {
          fs.gdt, fs.img, fs.useDisk := gdt, null, true;
          CloseAll(fs);
          return 0;
        }
      }
    }
    fs.blockSize := 0;
    return -1;
  }

  /** The superblock lies in sectors 2 and 3. */
  method ReadSuper(fs: FileSystem) returns (ok: bool)
    modifies fs`sb
    ensures ok <==> fs.disk.Length >= SMALLEST
    ensures fs.sb == if ok then SuperOf(fs.disk[..]) else old(fs.sb)
  {
    var buf := new Byte[1024](_ => 0);
    ok := fs.BlockRead(2, 2, buf);
    if ok {
      fs.sb := buf[..SUPER_SIZE];
      SuperRead(fs.disk[..], buf[..]);
    }
  }

  lemma DiskMountCases(disk: seq<Byte>)
    requires SaneStore(disk)
    ensures |disk| < SMALLEST ==> DiskMount(disk) == None
    ensures |disk| >= SMALLEST ==>
      var sb := SuperOf(disk);
      var bs := BlockSizeOf(sb);
      if !HasMagic(sb) || bs == 0 then DiskMount(disk) == None
      else
        && PerGroup(sb) > 0 && BlockSize(bs) && DESCRIPTOR_SIZE * GroupsOf(sb) + 2 * MAX_BLOCK_SIZE < WRAP
        && (var start, bytes := GdtStart(bs), DESCRIPTOR_SIZE * GroupsOf(sb);
           if GroupsOf(sb) == 0 || start + RoundUp(bytes, bs) > |disk| then DiskMount(disk) == None
           else
             && bytes <= RoundUp(bytes, bs)
             && DiskMount(disk) == Some(Geometry(bs, PerGroup(sb), InodeSizeOf(sb), GroupsOf(sb),
                  disk[start..start + bytes]))
             && Sane(DiskMount(disk).value))
  {
    if |disk| >= SMALLEST && HasMagic(SuperOf(disk)) && BlockSizeOf(SuperOf(disk)) != 0 {
      RoundUpCovers(GdtBytes(SuperOf(disk)), BlockSizeOf(SuperOf(disk)));
    }
  }

  lemma SuperRead(disk: seq<Byte>, buf: seq<Byte>)
    requires |disk| >= SMALLEST && |buf| == 1024 && buf[..2 * SECTOR] == disk[2 * SECTOR..2 * SECTOR + 2 * SECTOR]
    ensures buf[..SUPER_SIZE] == SuperOf(disk)
  {
    assert buf[..2 * SECTOR] == buf;
  }

  /** Read the group descriptors in whole blocks; nothing when one of them lies beyond the disk. */
  method ReadDescriptors(fs: FileSystem) returns (gdt: seq<Byte>)
    requires fs.disk.Length >= SMALLEST && fs.disk.Length % SECTOR == 0 && BlockSize(fs.blockSize)
    requires fs.groups > 0 && DESCRIPTOR_SIZE * fs.groups + 2 * MAX_BLOCK_SIZE < WRAP
    ensures var start, bytes, bs := GdtStart(fs.blockSize), DESCRIPTOR_SIZE * fs.groups, fs.blockSize;
      if start + RoundUp(bytes, bs) <= fs.disk.Length
      then bytes <= RoundUp(bytes, bs) && gdt == fs.disk[start..start + bytes]
      else gdt == []
  {
    hide GdtStart, DescriptorBlock, BlockSize, RoundUp, Underway;
    var bs, bytes := fs.blockSize, DESCRIPTOR_SIZE * fs.groups;
    ghost var start, disk := GdtStart(bs), fs.disk[..];
    ghost var pos: nat := 0;
    var block := if bs == 1024 then 2 else 1;
    gdt := [];
    NothingRead(disk, bs, bytes);
    while |gdt| < bytes
      invariant Underway(disk, bs, bytes, block, gdt, pos)
      decreases bytes - |gdt|
    {
      var chunk := Min(bytes - |gdt|, bs);
      BlockWanted(disk, bs, bytes, block, gdt, pos);
      var temp := ReadDescriptorBlock(fs, bytes, block, pos);
      if temp == None { return []; }
      BlockRead(disk, bs, bytes, block, gdt, pos, temp.value);
      gdt := gdt + temp.value[..chunk];
      block, pos := block + 1, pos + bs;
    }
    AllRead(disk, bs, bytes, block, gdt, pos);
  }

  /** Block `block` comes next, `gdt` are the `pos` bytes in front of it, cut to those wanted. */
  ghost predicate Underway(disk: seq<Byte>, bs: nat, bytes: nat, block: nat, gdt: seq<Byte>, pos: nat) {
    && 0 < bs <= MAX_BLOCK_SIZE && |gdt| == Min(pos, bytes) && DescriptorBlock(bs, block, pos)
    && RoundUp(bytes, bs) == pos + RoundUp(bytes - |gdt|, bs) && Gathered(disk, GdtStart(bs), gdt, pos)
  }

  lemma NothingRead(disk: seq<Byte>, bs: nat, bytes: nat)
    requires BlockSize(bs)
    ensures Underway(disk, bs, bytes, if bs == 1024 then 2 else 1, [], 0)
  {
    hide GdtStart, RoundUp, DescriptorBlock;
    FirstDescriptorBlock(bs);
  }

  lemma BlockWanted(disk: seq<Byte>, bs: nat, bytes: nat, block: nat, gdt: seq<Byte>, pos: nat)
    requires Underway(disk, bs, bytes, block, gdt, pos) && |gdt| < bytes
    ensures 0 < bs <= MAX_BLOCK_SIZE && pos < bytes && DescriptorBlock(bs, block, pos) && pos + bs <= RoundUp(bytes, bs)
  {
    hide GdtStart, RoundUp, DescriptorBlock;
    RoundUpStep(bytes - |gdt|, bs);
  }

  lemma BlockRead(disk: seq<Byte>, bs: nat, bytes: nat, block: nat, gdt: seq<Byte>, pos: nat, b: seq<Byte>)
    requires Underway(disk, bs, bytes, block, gdt, pos) && |gdt| < bytes
    requires GdtStart(bs) + pos + bs <= |disk| && b == disk[GdtStart(bs) + pos..GdtStart(bs) + pos + bs]
    ensures Underway(disk, bs, bytes, block + 1, gdt + b[..Min(bytes - |gdt|, bs)], pos + bs)
  {
    hide GdtStart, RoundUp, DescriptorBlock, Gathered;
    RoundUpStep(bytes - |gdt|, bs);
    NextDescriptorBlock(bs, block, pos);
    GatherMore(disk, GdtStart(bs), gdt, pos, bytes, b);
  }

  lemma AllRead(disk: seq<Byte>, bs: nat, bytes: nat, block: nat, gdt: seq<Byte>, pos: nat)
    requires Underway(disk, bs, bytes, block, gdt, pos) && bytes <= |gdt| && bytes > 0
    ensures bytes <= RoundUp(bytes, bs) && GdtStart(bs) + RoundUp(bytes, bs) <= |disk|
    ensures gdt == disk[GdtStart(bs)..GdtStart(bs) + bytes]
  {
    hide GdtStart, RoundUp, DescriptorBlock;
    RoundUpStep(0, bs);
    RoundUpCovers(bytes, bs);
  }

  /** The descriptors read so far: `pos` bytes of whole blocks, cut to what is wanted. */
  ghost predicate Gathered(disk: seq<Byte>, start: nat, gdt: seq<Byte>, pos: nat) {
    |gdt| <= pos && (pos > 0 ==> start + pos <= |disk| && gdt == disk[start..start + |gdt|])
  }

  lemma GatherMore(disk: seq<Byte>, start: nat, gdt: seq<Byte>, pos: nat, bytes: nat, b: seq<Byte>)
    requires Gathered(disk, start, gdt, pos) && |gdt| == Min(pos, bytes) && pos < bytes && b != []
    requires start + pos + |b| <= |disk| && b == disk[start + pos..start + pos + |b|]
    ensures Gathered(disk, start, gdt + b[..Min(bytes - |gdt|, |b|)], pos + |b|)
  {
    var n := Min(bytes - |gdt|, |b|);
    assert disk[start..start + pos] + disk[start + pos..start + pos + |b|][..n] == disk[start..start + pos + n];
  }

  lemma RoundUpStep(n: nat, unit: nat)
    requires unit > 0
    ensures RoundUp(n, unit) == if n == 0 then 0 else unit + RoundUp(n - Min(n, unit), unit)
  {
  }

  method ReadDescriptorBlock(fs: FileSystem, ghost bytes: nat, block: nat, ghost pos: nat)
    returns (b: Option<seq<Byte>>)
    requires DescriptorBlock(fs.blockSize, block, pos) && pos < bytes && bytes + 2 * MAX_BLOCK_SIZE < WRAP
    requires fs.blockSize <= MAX_BLOCK_SIZE
    ensures var at := GdtStart(fs.blockSize) + pos;
      if at + fs.blockSize <= fs.disk.Length then b == Some(fs.disk[at..at + fs.blockSize]) else b == None
  {
    hide Lba, Sectors, DescriptorBlock, GdtStart;
    var temp := new Byte[MAX_BLOCK_SIZE](_ => 0);
    DescriptorSectors(fs.blockSize, bytes, block, pos);
    var ok := fs.BlockRead(Lba(fs.blockSize, block), Sectors(fs.blockSize), temp);
    return if ok then Some(temp[..fs.blockSize]) else None;
  }

  function Sectors(bs: nat): nat {
    bs / SECTOR
  }

  function Lba(bs: nat, block: nat): nat {
    block * Sectors(bs)
  }

  /** Block `block` of the disk is the one `pos` bytes behind the first group descriptor. */
  predicate DescriptorBlock(bs: nat, block: nat, pos: nat) {
    BlockSize(bs) && block * bs == GdtStart(bs) + pos
  }

  lemma FirstDescriptorBlock(bs: nat)
    requires BlockSize(bs)
    ensures DescriptorBlock(bs, if bs == 1024 then 2 else 1, 0) && GdtStart(bs) <= MAX_BLOCK_SIZE
    ensures 0 < bs <= MAX_BLOCK_SIZE
    ensures GdtStart(bs) <= SMALLEST || bs == MAX_BLOCK_SIZE
  {
  }

  lemma DescriptorSectors(bs: nat, bytes: nat, block: nat, pos: nat)
    requires DescriptorBlock(bs, block, pos) && pos < bytes && bytes + 2 * MAX_BLOCK_SIZE < WRAP
    ensures Lba(bs, block) < WRAP && Lba(bs, block) * SECTOR == GdtStart(bs) + pos && Sectors(bs) * SECTOR == bs
  {
    if bs == 1024 {
    } else if bs == 2048 {
    } else {
    }
  }

  lemma NextDescriptorBlock(bs: nat, block: nat, pos: nat)
    requires DescriptorBlock(bs, block, pos)
    ensures DescriptorBlock(bs, block + 1, pos + bs)
  {
    assert (block + 1) * bs == block * bs + bs;
  }

  /** copy_module_to_disk, sector by sector; the last one is filled up with zeros. It writes behind the
      back of the block cache, so no disk may be mounted. */
  method CopyModuleToDisk(fs: FileSystem, data: array<Byte>) returns (r: int)
    requires fs.Steady() && !fs.useDisk && data != fs.disk && data.Length + SECTOR <= WRAP && fs.img != fs.disk
    modifies fs.disk
    ensures data.Length == 0 ==> r == -1 && fs.disk[..] == old(fs.disk[..])
    ensures data.Length > 0 ==>
      && fs.disk[..] == Copied(old(fs.disk[..]), data[..]).0
      && (r == 0 <==> Copied(old(fs.disk[..]), data[..]).1)
    ensures r == 0 || r == -1
  {
    hide Splice, Padded, Copied, Mixed;
    var size := data.Length;
    if size == 0 { return -1; }
    var sectors := (size + 511) / 512;
    ghost var was, img := fs.disk[..], data[..];
    var scratch := new Byte[SECTOR](_ => 0);
    MixedEnds(was, img);
    for i := 0 to sectors
      invariant i * SECTOR <= |was| && fs.disk[..] == Mixed(was, img, i)
    {
      FillSector(data, i, scratch);
      assert scratch[..1 * SECTOR] == scratch[..];
      var ok := fs.BlockWrite(i, 1, scratch);
      if !ok {
        Cut(was, img, i);
        return -1;
      }
      OneMore(was, img, i);
    }
    return 0;
  }

  lemma MixedEnds(disk: seq<Byte>, img: seq<Byte>)
    ensures Mixed(disk, img, 0) == disk
    ensures var n := (|img| + 511) / 512;
      && |Padded(img)| == n * SECTOR
      && (n * SECTOR <= |disk| ==> Mixed(disk, img, n) == Copied(disk, img).0 && Copied(disk, img).1)
  {
    RoundUpSectors(|img|);
  }

  /** The disk after `i` sectors of the image have been copied. */
  ghost function Mixed(disk: seq<Byte>, img: seq<Byte>, i: nat): (d: seq<Byte>)
    requires i * SECTOR <= |disk| && i * SECTOR <= |Padded(img)|
    ensures |d| == |disk|
  {
    Padded(img)[..i * SECTOR] + disk[i * SECTOR..]
  }

  lemma OneMore(disk: seq<Byte>, img: seq<Byte>, i: nat)
    requires (i + 1) * SECTOR <= |disk| && (i + 1) * SECTOR <= |Padded(img)|
    ensures Splice(Mixed(disk, img, i), i * SECTOR, Padded(img)[i * SECTOR..i * SECTOR + SECTOR])
      == Mixed(disk, img, i + 1)
  {
  }

  /** Writing stops at the first sector beyond a disk that is too small. */
  lemma Cut(disk: seq<Byte>, img: seq<Byte>, i: nat)
    requires |disk| % SECTOR == 0 && i * SECTOR <= |disk| < (i + 1) * SECTOR && (i + 1) * SECTOR <= |Padded(img)|
    ensures Mixed(disk, img, i) == Copied(disk, img).0 && !Copied(disk, img).1
  {
  }

  /** The sector to write: a part of the image, at its end filled up with zeros. */
  method FillSector(data: array<Byte>, i: nat, scratch: array<Byte>)
    requires scratch != data && scratch.Length == SECTOR && i * SECTOR < data.Length
    modifies scratch
    ensures i * SECTOR + SECTOR <= |Padded(data[..])|
    ensures scratch[..] == Padded(data[..])[i * SECTOR..i * SECTOR + SECTOR]
  {
    RoundUpSectors(data.Length);
    var remaining := Min(data.Length - i * SECTOR, SECTOR);
    forall k | 0 <= k < SECTOR { scratch[k] := if k < remaining then data[i * SECTOR + k] else 0; }
    assert scratch[..] == Padded(data[..])[i * SECTOR..i * SECTOR + SECTOR];
  }

  // ---- fs_init ----

  datatype Boot = Unmounted | FromDisk | FromImage(k: nat)

  /** The first module that holds a usable image. */
  ghost function FirstUsable(imgs: seq<seq<Byte>>): (r: Option<nat>)
    requires forall i :: 0 <= i < |imgs| ==> SaneStore(imgs[i])
    ensures r.Some? ==> r.value < |imgs| && Usable(imgs[r.value]) && forall i :: 0 <= i < r.value ==> !Usable(imgs[i])
    ensures r == None ==> forall i :: 0 <= i < |imgs| ==> !Usable(imgs[i])
  {
    if imgs == [] then None
    else if FirstUsable(imgs[..|imgs| - 1]).Some? then FirstUsable(imgs[..|imgs| - 1])
    else if Usable(imgs[|imgs| - 1]) then Some(|imgs| - 1)
    else None
  }

  ghost predicate Usable(img: seq<Byte>)
    requires SaneStore(img)
  {
    |img| > SMALLEST && ModuleMount(img).Some?
  }

  /** What is mounted after fs_init, and the disk. */
  ghost function Started(disk: seq<Byte>, imgs: seq<seq<Byte>>, ready: bool): (r: (Boot, seq<Byte>))
    requires SaneStore(disk) && forall i :: 0 <= i < |imgs| ==> SaneStore(imgs[i])
  {
    if ready && DiskMount(disk).Some? then (FromDisk, disk)
    else
      match FirstUsable(imgs)
      case None => (Unmounted, disk)
      case Some(k) =>
        if !ready then (FromImage(k), disk)
        else
          var c := Copied(disk, imgs[k]);
          if !c.1 then (if |disk| < SMALLEST then FromImage(k) else Unmounted, c.0)
          else
            SameMount(disk, imgs[k]);
            (if DiskMount(c.0).Some? then FromDisk else FromImage(k), c.0)
  }

  ghost function Contents(modules: seq<array<Byte>>): (r: seq<seq<Byte>>)
    reads modules
    ensures |r| == |modules| && forall i :: 0 <= i < |r| ==> r[i] == modules[i][..]
  {
    seq(|modules|, i requires 0 <= i < |modules| reads modules => modules[i][..])
  }

  /** fs_init. */
  method FsInit(fs: FileSystem, ready: bool, modules: seq<array<Byte>>)
    requires fs.Valid() && !fs.Mounted() && !fs.useDisk && fs.img == null && SaneStore(fs.disk[..])
    requires forall i :: 0 <= i < |modules| ==> ImageFor(fs, modules[i]) && SaneStore(Contents(modules)[i])
    modifies fs, fs.fds, fs.disk
    ensures fs.Valid() && fs.disk[..] == Started(old(fs.disk[..]), old(Contents(modules)), ready).1
    ensures match Started(old(fs.disk[..]), old(Contents(modules)), ready).0
            case Unmounted => !fs.Mounted()
            case FromDisk =>
              fs.Mounted() && fs.useDisk && SaneStore(fs.disk[..]) && Some(fs.Geo()) == DiskMount(fs.disk[..])
            case FromImage(k) =>
              fs.Mounted() && !fs.useDisk && fs.img == modules[k] && Some(fs.Geo()) == ModuleMount(modules[k][..])
  {
    hide Sane, DiskMount, ModuleMount, Copied;
    if ready {
      var d := MountFromDisk(fs);
      if d == 0 { return; }
    }
    ghost var imgs := Contents(modules);
    var i := 0;
    while i < |modules|
      invariant i <= |modules| && fs.Valid() && !fs.Mounted() && !fs.useDisk && fs.img == null
      invariant fs.disk[..] == old(fs.disk[..])
      invariant forall j :: 0 <= j < i ==> !Usable(imgs[j])
    {
      if modules[i].Length > SMALLEST {
        var m := MountFromModule(fs, modules[i]);
        if m == 0 { break; }
      }
      i := i + 1;
    }
    if i == |modules| {
      assert FirstUsable(imgs) == None;
      return;
    }
    assert FirstUsable(imgs) == Some(i);
    if ready { SyncToDisk(fs, modules[i]); }
  }

  /** A module has been mounted and a disk without a file system is there: copy and change over. */
  method SyncToDisk(fs: FileSystem, data: array<Byte>)
    requires fs.Valid() && fs.Mounted() && !fs.useDisk && fs.img == data && ImageFor(fs, data) && Usable(data[..])
    requires Some(fs.Geo()) == ModuleMount(data[..]) && SaneStore(fs.disk[..]) && DiskMount(fs.disk[..]) == None
    modifies fs, fs.fds, fs.disk
    ensures fs.Valid()
    ensures var was, img := old(fs.disk[..]), data[..];
      && fs.disk[..] == Copied(was, img).0 && (Copied(was, img).1 ==> SaneStore(fs.disk[..]))
      && (!Copied(was, img).1 ==>
            && fs.Mounted() == (|was| < SMALLEST)
            && (fs.Mounted() ==> !fs.useDisk && fs.img == data && Some(fs.Geo()) == ModuleMount(img)))
      && (Copied(was, img).1 ==>
            (if DiskMount(fs.disk[..]).Some? then fs.Mounted() && fs.useDisk && Some(fs.Geo()) == DiskMount(fs.disk[..])
            else fs.Mounted() && !fs.useDisk && fs.img == data && Some(fs.Geo()) == ModuleMount(img)))
  {
    hide Sane, Copied, DiskMount, ModuleMount;
    ghost var was := fs.disk[..];
    var d := MountFromDisk(fs);
    var c := CopyModuleToDisk(fs, data);
    if c == 0 {
      SameMount(was, data[..]);
      var e := MountFromDisk(fs);
      if e != 0 { var _ := MountFromModule(fs, data); }
    }
  }

  /** fs_init reports that it continues from the module image when the copy to the disk failed. It does so
      only on a disk too small to hold even a superblock; otherwise the failed disk mount has already
      unmounted the image. So a usable module ends up mounted, one way or the other, exactly when the disk
      is absent, mountable, smaller than 2048 bytes, or big enough for the whole image. */
  lemma StartsMounted(disk: seq<Byte>, imgs: seq<seq<Byte>>, ready: bool)
    requires SaneStore(disk) && (forall i :: 0 <= i < |imgs| ==> SaneStore(imgs[i])) && FirstUsable(imgs).Some?
    ensures Started(disk, imgs, ready).0 != Unmounted <==>
            || !ready || DiskMount(disk).Some? || |disk| < 2048
            || (|imgs[FirstUsable(imgs).value]| + 511) / 512 * 512 <= |disk|
  {
    hide DiskMount, ModuleMount, FirstUsable;
    RoundUpSectors(|imgs[FirstUsable(imgs).value]|);
  }

  /** Where the system starts from: the disk if it can be mounted; else the first usable module, from memory if
      there is no disk, or one that is too small to be looked at; and without either it starts with nothing. The
      disk is written to only for a copy. */
  lemma StartsWhere(disk: seq<Byte>, imgs: seq<seq<Byte>>, ready: bool)
    requires SaneStore(disk) && (forall i :: 0 <= i < |imgs| ==> SaneStore(imgs[i]))
    ensures ready && DiskMount(disk).Some? ==> Started(disk, imgs, ready) == (FromDisk, disk)
    ensures FirstUsable(imgs).Some? && !ready ==>
      Started(disk, imgs, ready) == (FromImage(FirstUsable(imgs).value), disk)
    ensures FirstUsable(imgs).Some? && ready && |disk| < 2048 ==>
      Started(disk, imgs, ready).0 == FromImage(FirstUsable(imgs).value)
    ensures FirstUsable(imgs) == None && !(ready && DiskMount(disk).Some?) ==>
      Started(disk, imgs, ready) == (Unmounted, disk)
  {
    hide FirstUsable, ModuleMount;
    if FirstUsable(imgs).Some? { RoundUpSectors(|imgs[FirstUsable(imgs).value]|); }
  }

  // ---- The failing input ----

  /** An image of 4 KiB with one group of 16 inodes: all zeros but the two counts and the magic number. */
  ghost function SmallImage(): (img: seq<Byte>)
    ensures |img| == 4096
  {
    seq(4096, i => if i == 1024 || i == 1064 then 16 else if i == 1080 then 0x53 else if i == 1081 then 0xEF else 0)
  }

  lemma SmallSuper()
    ensures var sb := SuperOf(SmallImage());
      && HasMagic(sb) && BlockSizeOf(sb) == 1024 && InodeSizeOf(sb) == 128
      && InodesCount(sb) == 16 && PerGroup(sb) == 16
  {
    var img := SmallImage();
    var sb := SuperOf(img);
    forall i | 0 <= i < SUPER_SIZE ensures sb[i] == img[1024 + i] {
    }
  }

  /** On a blank disk of 2048 bytes that image, though usable, ends up unmounted. */
  lemma UnmountedWitness()
    ensures var disk, img: seq<Byte> := seq(SMALLEST, _ => 0), SmallImage();
      && SaneStore(disk) && SaneStore(img) && FirstUsable([img]).Some?
      && Started(disk, [img], true).0 == Unmounted
  {
    hide SuperOf, HasMagic, BlockSizeOf, InodeSizeOf, InodesCount, PerGroup;
    var disk, img: seq<Byte> := seq(SMALLEST, _ => 0), SmallImage();
    SmallSuper();
    BlankDisk(disk);
    assert Usable(img);
    RoundUpCovers(|img|, SECTOR);
    StartsMounted(disk, [img], true);
  }

  lemma BlankDisk(disk: seq<Byte>)
    requires |disk| >= SMALLEST && forall i :: 0 <= i < |disk| ==> disk[i] == 0
    ensures SaneStore(disk) && DiskMount(disk) == None
  {
    var sb := SuperOf(disk);
    assert sb[56] == 0 && sb[57] == 0;
  }

  /** After the copy both ways of mounting agree: started from a disk that was not mountable and has room,
      the system runs from the disk with the module's own geometry. */
  lemma StartsFromCopy(disk: seq<Byte>, imgs: seq<seq<Byte>>)
    requires SaneStore(disk) && (forall i :: 0 <= i < |imgs| ==> SaneStore(imgs[i])) && FirstUsable(imgs).Some?
    requires DiskMount(disk) == None
    requires var img := imgs[FirstUsable(imgs).value];
      Copied(disk, img).1 && |img| % ModuleMount(img).value.blockSize == 0
    ensures var img := imgs[FirstUsable(imgs).value];
      && Started(disk, imgs, true) == (FromDisk, Copied(disk, img).0)
      && SaneStore(Copied(disk, img).0) && DiskMount(Copied(disk, img).0) == ModuleMount(img)
  {
    hide FirstUsable, Copied;
    WholeBlocksMount(disk, imgs[FirstUsable(imgs).value]);
  }
}
