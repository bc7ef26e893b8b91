/** The ext2 driver itself: an image or a disk changed in place, a one-block cache and a table of open files. */
module Ext2Code {
  import opened Basics
  import opened Ext2
  import opened Ext2Files
  import opened Ext2Mount

  const MAX_FD := 16
  const FIRST_FD := 3

  datatype Fd = Fd(used: bool, ino: Word, pos: Word)

  class FileSystem {
    const disk: array<Byte>
    const cache: array<Byte>
    const fds: array<Fd>
    /** The image in memory, if one is mounted. */
    var img: array?<Byte>
    var sb: Super
    /** 0 while nothing is mounted. */
    var blockSize: nat
    var inodesPerGroup: nat
    var inodeSize: nat
    var groups: nat
    var gdt: seq<Byte>
    var useDisk: bool
    var cacheNum: Word

    ghost predicate Separate()
      reads this
    {
      && cache.Length == MAX_BLOCK_SIZE && fds.Length == MAX_FD && cache != disk
      && disk.Length % SECTOR == 0 && disk.Length <= WRAP * SECTOR
      && (img != null ==> img != cache && img != disk && img.Length < WRAP)
    }

    predicate Mounted()
      reads this
    {
      gdt != [] && blockSize != 0
    }

    ghost function Geo(): Geometry
      reads this
    {
      Geometry(blockSize, inodesPerGroup, inodeSize, groups, gdt)
    }

    ghost function View(): (v: Volume)
      reads this, disk, img
    {
      Volume(useDisk, if useDisk then disk[..] else if img == null then [] else img[..], Geo())
    }

    ghost predicate Steady()
      reads this
    {
      && Separate()
      && (Mounted() ==> Sane(Geo()) && if useDisk then disk.Length >= SMALLEST else img != null)
    }

    /** A valid cache equals the disk block it names. */
    ghost predicate Coherent()
      requires Steady()
      reads this, disk, cache, img
    {
      useDisk && cacheNum != NO_BLOCK ==>
        && Readable(View(), cacheNum) && blockSize <= MAX_BLOCK_SIZE
        && cache[..blockSize] == BlockOf(View(), cacheNum)
    }

    ghost predicate Valid()
      reads this, disk, cache, img
    {
      Steady() && (Mounted() ==> Coherent())
    }

    /** The driver's static storage before any mount. */
    constructor (disk: array<Byte>)
      requires disk.Length % SECTOR == 0 && disk.Length <= WRAP * SECTOR
      ensures Valid() && !Mounted() && this.disk == disk && img == null && fresh(cache) && fresh(fds)
      ensures fds.Length == 16 && forall i :: 0 <= i < 16 ==> !fds[i].used
    {
      this.disk := disk;
      cache := new Byte[MAX_BLOCK_SIZE](_ => 0);
      fds := new Fd[MAX_FD](_ => Fd(false, 0, 0));
      img, blockSize, inodesPerGroup, inodeSize, groups, gdt := null, 0, 0, 128, 0, [];
      sb := seq(SUPER_SIZE, _ => 0);
      useDisk, cacheNum := false, NO_BLOCK;
    }

    // ---- The block device: operations fail exactly when they leave the disk ----

    method BlockRead(lba: Word, count: nat, buf: array<Byte>) returns (ok: bool)
      requires buf != disk && count * SECTOR <= buf.Length
      modifies buf
      ensures ok <==> (lba + count) * SECTOR <= disk.Length
      ensures ok ==> buf[..count * SECTOR] == disk[lba * SECTOR..lba * SECTOR + count * SECTOR]
      ensures !ok ==> buf[..] == old(buf[..])
    {
      ok := (lba + count) * SECTOR <= disk.Length;
      if ok {
        forall i | 0 <= i < count * SECTOR { buf[i] := disk[lba * SECTOR + i]; }
      }
    }

    method BlockWrite(lba: Word, count: nat, data: array<Byte>) returns (ok: bool)
      requires data != disk && count * SECTOR <= data.Length
      modifies disk
      ensures ok <==> (lba + count) * SECTOR <= disk.Length
      ensures disk[..] == if ok then Splice(old(disk[..]), lba * SECTOR, data[..count * SECTOR]) else old(disk[..])
    {
      ok := (lba + count) * SECTOR <= disk.Length;
      if ok {
        forall i | 0 <= i < count * SECTOR { disk[lba * SECTOR + i] := data[i]; }
        assert disk[..] == Splice(old(disk[..]), lba * SECTOR, data[..count * SECTOR]);
      }
    }

    // ---- Blocks ----

    /** memcpy. */
    method CopyBytes(src: array<Byte>, at: nat, dst: array<Byte>, d: nat, n: nat)
      requires at + n <= src.Length && d + n <= dst.Length
      modifies dst
      ensures dst[..] == Splice(old(dst[..]), d, old(src[at..at + n]))
    {
      forall i | 0 <= i < n { dst[d + i] := src[at + i]; }
      assert dst[..] == Splice(old(dst[..]), d, old(src[at..at + n]));
    }

    /** get_block: where the block's bytes are to be found, null for none. */
    method GetBlock(blk: Word) returns (data: array?<Byte>, at: nat)
      requires Valid() && Mounted() && Safe(View(), blk)
      modifies this`cacheNum, cache
      ensures Valid() && View() == old(View())
      ensures data == null <==> !Readable(View(), blk)
      ensures data != null ==>
        && data == (if useDisk then cache else img) && at + blockSize <= data.Length
        && data[at..at + blockSize] == BlockOf(View(), blk)
    {
      at := 0;
      if blk == 0 { return null, 0; }
      if !useDisk {
        var off := blk * blockSize % WRAP;
        BytesOfBlock(View(), blk, 0, blockSize);
        if img == null || (off + blockSize) % WRAP > img.Length { return null, 0; }
        return img, off;
      }
      if cacheNum != blk {
        SectorsOfBlock(View(), blk);
        var ok := BlockRead(blk * (blockSize / SECTOR) % WRAP, blockSize / SECTOR, cache);
        if !ok { return null, 0; }
        cacheNum := blk;
      }
      return cache, 0;
    }

    /** write_block. */
    method WriteBlock(blk: Word, data: array<Byte>) returns (ok: bool)
      requires Steady() && Mounted() && (!useDisk ==> Safe(View(), blk))
      requires data != disk && data != img && blockSize <= data.Length
      modifies this`cacheNum, disk, img
      ensures Steady() && (ok ==> Coherent()) && (!ok ==> cacheNum == old(cacheNum))
      ensures ok <==> Readable(old(View()), blk)
      ensures View() == if ok then Stored(old(View()), blk, 0, data[..blockSize]) else old(View())
    {
      hide Start, Safe;
      if blk == 0 { return false; }
      if !useDisk {
        if img == null { return false; }
        var off := blk * blockSize % WRAP;
        BytesOfBlock(View(), blk, 0, blockSize);
        if (off + blockSize) % WRAP > img.Length { return false; }
        CopyBytes(data, 0, img, off, blockSize);
        return true;
      }
      SectorsOfBlock(View(), blk);
      ok := BlockWrite(blk * (blockSize / SECTOR) % WRAP, blockSize / SECTOR, data);
      if ok { cacheNum := NO_BLOCK; }
    }

    /** copy_from_block. */
    method CopyFromBlock(blk: Word, offset: nat, dst: array<Byte>, d: nat, len: nat) returns (ok: bool)
      requires Valid() && Mounted() && Safe(View(), blk)
      requires dst != disk && dst != cache && dst != img && d + len <= dst.Length
      modifies this`cacheNum, cache, dst
      ensures Valid() && View() == old(View())
      ensures ok <==> Readable(View(), blk) && offset + len <= blockSize
      ensures dst[..] == if ok then Splice(old(dst[..]), d, Piece(View(), blk, offset, len)) else old(dst[..])
    {
      hide Start, Safe, Readable, BlockOf;
      var data, at := GetBlock(blk);
      if data == null || offset + len > blockSize { return false; }
      CopyPiece(data, at, blk, offset, len, dst, d);
      return true;
    }

    /** memcpy out of a block that get_block has found. */
    method CopyPiece(data: array<Byte>, at: nat, blk: Word, o: nat, n: nat, dst: array<Byte>, d: nat)
      requires Valid() && Mounted() && Readable(View(), blk) && o + n <= blockSize
      requires at + blockSize <= data.Length && data[at..at + blockSize] == BlockOf(View(), blk)
      requires dst != disk && dst != cache && dst != img && d + n <= dst.Length
      modifies dst
      ensures Valid() && View() == old(View())
      ensures dst[..] == Splice(old(dst[..]), d, Piece(View(), blk, o, n))
    {
      hide Start, BlockOf;
      SubSlice(data[..], at, blockSize, o, n);
      assert data[at..at + blockSize] == data[..][at..at + blockSize];
      assert data[at + o..at + o + n] == data[..][at + o..at + o + n];
      CopyBytes(data, at + o, dst, d, n);
    }

    /** memcpy from a caller's buffer. */
    method StoreBytes(src: seq<Byte>, dst: array<Byte>, d: nat)
      requires d + |src| <= dst.Length
      modifies dst
      ensures dst[..] == Splice(old(dst[..]), d, src)
    {
      forall i | 0 <= i < |src| { dst[d + i] := src[i]; }
      assert dst[..] == Splice(old(dst[..]), d, src);
    }

    /** copy_to_block: on disk the whole block goes through the cache. */
    method CopyToBlock(blk: Word, offset: nat, src: seq<Byte>) returns (ok: bool)
      requires Valid() && Mounted() && Safe(View(), blk)
      modifies this`cacheNum, cache, disk, img
      ensures Valid()
      ensures ok <==> offset + |src| <= blockSize && Fits(old(View()), blk, offset, |src|)
      ensures View() == if ok then Stored(old(View()), blk, offset, src) else old(View())
    {
      hide Start, Safe, BlockOf, Readable;
      if offset + |src| > blockSize { return false; }
      if !useDisk {
        if img == null { return false; }
        var off := blk * blockSize % WRAP;
        BytesOfBlock(View(), blk, offset, |src|);
        if (off + offset + |src|) % WRAP > img.Length { return false; }
        StoreBytes(src, img, off + offset);
        return true;
      }
      ok := CopyThroughCache(blk, offset, src);
    }

    method PatchCache(data: array<Byte>, at: nat, offset: nat, src: seq<Byte>)
      requires cache.Length == MAX_BLOCK_SIZE && data == cache && blockSize <= cache.Length
      requires at + blockSize <= data.Length && offset + |src| <= blockSize
      modifies cache
      ensures cache[..blockSize] == Splice(old(data[at..at + blockSize]), offset, src)
    {
      hide Splice;
      CopyBytes(data, at, cache, 0, blockSize);
      StoreBytes(src, cache, offset);
      CachePatched(old(cache[..]), old(data[at..at + blockSize]), offset, src);
      assert cache[..blockSize] == cache[..][..blockSize];
    }

    /** Read the block into the cache, change it there, write it back. */
    method CopyThroughCache(blk: Word, offset: nat, src: seq<Byte>) returns (ok: bool)
      requires Valid() && Mounted() && useDisk && Safe(View(), blk) && offset + |src| <= blockSize
      modifies this`cacheNum, cache, disk, img
      ensures Valid()
      ensures ok <==> Readable(old(View()), blk)
      ensures View() == if ok then Stored(old(View()), blk, offset, src) else old(View())
    {
      hide Start, Safe, BlockOf, Readable, Splice, Stored;
      ghost var v := View();
      var data, at := GetBlock(blk);
      if data == null { return false; }
      PatchCache(data, at, offset, src);
      assert cache[..blockSize] == Splice(BlockOf(v, blk), offset, src);
      BlockSpliced(v, blk, offset, src);
      ok := WriteBlock(blk, cache);
    }

    // ---- Inodes ----

    /** read_inode. */
    method ReadInode(num: Word) returns (r: Option<Inode>)
      requires Valid() && Mounted() && RecordSafe(View(), num)
      modifies this`cacheNum, cache
      ensures Valid() && View() == old(View()) && r == InodeOf(View(), num)
    {
      if num == 0 { return None; }
      var idx := num - 1;
      var group, index := idx / inodesPerGroup, idx % inodesPerGroup;
      if group >= groups { return None; }
      var table := U32(gdt, DESCRIPTOR_SIZE * group + 8);
      var tmp := new Byte[MAX_BLOCK_SIZE](_ => 0);
      var whole := ReadRecord(num, table, index * inodeSize, tmp);
      if !whole { return None; }
      return Some(Decode(tmp[..inodeSize]));
    }

    /** The loop over the blocks that the record crosses. */
    method ReadRecord(num: Word, table: Word, off: nat, tmp: array<Byte>) returns (whole: bool)
      requires Valid() && Mounted() && RecordSafe(View(), num) && HasInode(Geo(), num)
      requires table == TableBlock(Geo(), num) && off == RecordOffset(Geo(), num)
      requires tmp.Length == MAX_BLOCK_SIZE && tmp != disk && tmp != cache && tmp != img
      modifies this`cacheNum, cache, tmp
      ensures Valid() && View() == old(View())
      ensures whole <==> RecordReadable(View(), num)
      ensures whole ==> tmp[..inodeSize] == Record(View(), num)
    {
      hide Start, Index, Within, TableBlock, RecordOffset, BlockOf;
      hide RecordBlock, RecordByte, Splice, Piece, Safe, Readable;
      ghost var v := View();
      var d, cur, within := 0, (table + off / blockSize) % WRAP, off % blockSize;
      RecordStart(v.geo, num);
      while d < inodeSize
        invariant Valid() && View() == v && d <= inodeSize
        invariant d < inodeSize ==> cur == RecordBlock(v.geo, num, d) && within == Within(blockSize, off + d)
        invariant RecordCopied(v, num, tmp[..], d)
      {
        var chunk := blockSize - within;
        if chunk > inodeSize - d { chunk := inodeSize - d; }
        ghost var before := tmp[..];
        var ok := CopyFromBlock(cur, within, tmp, d, chunk);
        if !ok { return false; }
        RecordRun(v, num, d, chunk, before);
        NextRecordBlock(v.geo, num, d, chunk);
        d, within, cur := d + chunk, 0, (cur + 1) % WRAP;
      }
      RecordComplete(v, num, tmp[..]);
      assert tmp[..inodeSize] == tmp[..][..inodeSize];
      return true;
    }

    // ---- File data ----

    /** read_file_direct. */
    method ReadFileDirect(ino: Inode, pos: nat, buf: array<Byte>, len: nat) returns (copied: nat)
      requires Valid() && Mounted() && Shaped(ino) && FileSafe(View(), ino)
      requires len <= buf.Length && buf != disk && buf != cache && buf != img
      modifies this`cacheNum, cache, buf
      ensures Valid() && View() == old(View())
      ensures copied == |ReadData(View(), ino, pos, len)|
      ensures buf[..] == Splice(old(buf[..]), 0, ReadData(View(), ino, pos, len))
    {
      hide Start, Index, Within, BlockOf, Readable, ReadData, Piece, Splice, Safe, Chunk;
      ghost var v := View();
      ghost var all := ReadData(v, ino, pos, len);
      copied := 0;
      SpliceNothing(buf[..]);
      while copied < len && pos + copied < ino.size
        invariant Valid() && View() == v
        invariant copied <= |all| <= len && all == all[..copied] + ReadData(v, ino, pos + copied, len - copied)
        invariant buf[..] == Splice(old(buf[..]), 0, all[..copied])
        decreases len - copied
      {
        var offset := pos + copied;
        var i := Index(blockSize, offset);
        if i >= DIRECT_BLOCKS { break; }
        var blk := ino.block[i];
        var data, at := GetBlock(blk);
        if data == null { break; }
        var o := Within(blockSize, offset);
        var n := Chunk(blockSize, ino.size, offset, len - copied);
        ReadNext(v, ino, pos, len, copied, n);
        CopyPiece(data, at, blk, o, n, buf, copied);
        SpliceAppend(old(buf[..]), all[..copied], Piece(v, blk, o, n));
        copied := copied + n;
      }
      ReadNothing(v, ino, pos + copied, len - copied);
      assert all == all[..copied];
    }

    /** write_file_direct. */
    method WriteFileDirect(ino: Inode, pos: nat, data: seq<Byte>) returns (written: nat)
      requires Valid() && Mounted() && Shaped(ino) && FileSafe(View(), ino)
      modifies this`cacheNum, cache, disk, img
      ensures Valid() && (View(), written) == WriteData(old(View()), ino, pos, data)
    {
      hide Start, Index, Within, BlockOf, Readable, Fits, Stored, WriteData, Safe, Chunk;
      ghost var v := View();
      written := 0;
      assert data[0..] == data;
      while written < |data| && pos + written < ino.size
        invariant Valid() && Mounted() && Geo() == v.geo && View().geo == v.geo && View().onDisk == v.onDisk
        invariant |View().store| == |v.store|
        invariant written <= |data|
        invariant WriteData(v, ino, pos, data)
                  == (WriteData(View(), ino, pos + written, data[written..]).0,
                      written + WriteData(View(), ino, pos + written, data[written..]).1)
        decreases |data| - written
      {
        var offset := pos + written;
        var i := Index(blockSize, offset);
        if i >= DIRECT_BLOCKS { break; }
        var blk := ino.block[i];
        if blk == 0 { break; }
        var o := Within(blockSize, offset);
        var n := Chunk(blockSize, ino.size, offset, |data| - written);
        assert data[written..][..n] == data[written..written + n] && data[written..][n..] == data[written + n..];
        WriteUnfold(View(), ino, offset, data[written..]);
        SafeSame(v, View(), ino);
        var ok := CopyToBlock(blk, o, data[written..written + n]);
        if !ok { break; }
        written := written + n;
      }
      WriteUnfold(View(), ino, pos + written, data[written..]);
    }

    // ---- Open files ----

    /** ext2_read. */
    method Read(fd: int, buf: array<Byte>, len: nat) returns (r: int)
      requires Valid() && Mounted() && OpenSafe(View(), fds[..], fd)
      requires len <= buf.Length && buf != disk && buf != cache && buf != img
      modifies this`cacheNum, cache, fds, buf
      ensures Valid() && View() == old(View())
      ensures match ReadOutcome(View(), old(fds[..]), fd, len)
              case None => r == -1 && buf[..] == old(buf[..])
              case Some(d) => r == |d| && buf[..] == Splice(old(buf[..]), 0, d)
      ensures r > 0 ==> 0 <= fd < 16 && old(fds[fd]).used && old(fds[fd]).pos + r < WRAP
      ensures fds[..] == if r > 0 then old(fds[..])[fd := Fd(true, old(fds[fd]).ino, old(fds[fd]).pos + r)]
                         else old(fds[..])
      ensures fds[..] == Advanced(old(fds[..]), fd, r)
    {
      hide InodeOf, ReadData, Safe, Coherent;
      if fd < 0 || fd >= MAX_FD || !fds[fd].used { return -1; }
      var ino := ReadInode(fds[fd].ino);
      if ino == None { return -1; }
      r := ReadFileDirect(ino.value, fds[fd].pos, buf, len);
      ReadEnds(View(), ino.value, fds[fd].pos, len);
      if r > 0 { fds[fd] := fds[fd].(pos := fds[fd].pos + r); }
    }

    /** ext2_write. */
    method Write(fd: int, data: seq<Byte>) returns (r: int)
      requires Valid() && Mounted() && OpenSafe(View(), fds[..], fd)
      modifies this`cacheNum, cache, fds, disk, img
      ensures Valid() && (View(), r) == WriteOutcome(old(View()), old(fds[..]), fd, data)
      ensures r > 0 ==> 0 <= fd < 16 && old(fds[fd]).used && old(fds[fd]).pos + r < WRAP
      ensures fds[..] == if r > 0 then old(fds[..])[fd := Fd(true, old(fds[fd]).ino, old(fds[fd]).pos + r)]
                         else old(fds[..])
      ensures fds[..] == Advanced(old(fds[..]), fd, r)
    {
      hide InodeOf, WriteData, Safe, Coherent;
      if fd < 0 || fd >= MAX_FD || !fds[fd].used { return -1; }
      var ino := ReadInode(fds[fd].ino);
      if ino == None { return -1; }
      WriteEnds(View(), ino.value, fds[fd].pos, data);
      r := WriteFileDirect(ino.value, fds[fd].pos, data);
      if r > 0 { fds[fd] := fds[fd].(pos := fds[fd].pos + r); }
    }

    /** ext2_close. */
    method Close(fd: int) returns (r: int)
      requires fds.Length == MAX_FD
      modifies fds
      ensures r == if OpenFd(old(fds[..]), fd) then 0 else -1
      ensures fds[..] ==
        if OpenFd(old(fds[..]), fd) then old(fds[..])[fd := old(fds[fd]).(used := false)] else old(fds[..])
    {
      if fd < 0 || fd >= MAX_FD || !fds[fd].used { return -1; }
      fds[fd] := fds[fd].(used := false);
      return 0;
    }
  }

  // ---- The table of open files ----

  predicate OpenFd(fds: seq<Fd>, fd: int) {
    0 <= fd < |fds| && fds[fd].used
  }

  /** Blocks the driver may be asked for without leaving the image or hitting the cache's tag. */
  ghost predicate FileSafe(v: Volume, ino: Inode)
    requires Shaped(ino)
  {
    forall i :: 0 <= i < DIRECT_BLOCKS ==> Safe(v, ino.block[i])
  }

  ghost predicate OpenSafe(v: Volume, fds: seq<Fd>, fd: int)
    requires Sane(v.geo)
  {
    OpenFd(fds, fd) ==>
      && RecordSafe(v, fds[fd].ino)
      && (InodeOf(v, fds[fd].ino).Some? ==> FileSafe(v, InodeOf(v, fds[fd].ino).value))
  }

  ghost function ReadOutcome(v: Volume, fds: seq<Fd>, fd: int, len: nat): (d: Option<seq<Byte>>)
    requires Sane(v.geo)
    ensures d.Some? ==> |d.value| <= len
  {
    if OpenFd(fds, fd) then FileRead(v, fds[fd].ino, fds[fd].pos, len) else None
  }

  ghost function WriteOutcome(v: Volume, fds: seq<Fd>, fd: int, data: seq<Byte>): (Volume, int)
    requires Sane(v.geo)
  {
    if OpenFd(fds, fd) then FileWrite(v, fds[fd].ino, fds[fd].pos, data) else (v, -1)
  }

  /** The position moves by what was transferred. */
  function Advanced(fds: seq<Fd>, fd: int, r: int): seq<Fd>
  {
    if OpenFd(fds, fd) && r > 0 && fds[fd].pos + r < WRAP then fds[fd := fds[fd].(pos := fds[fd].pos + r)] else fds
  }

  // ---- Arithmetic and single steps ----

  lemma SectorsOfBlock(v: Volume, blk: Word)
    requires Sane(v.geo) && v.onDisk && blk != 0
    ensures var lba := blk * (v.geo.blockSize / SECTOR) % WRAP;
      && v.geo.blockSize / SECTOR * SECTOR == v.geo.blockSize && lba * SECTOR == Start(v, blk)
      && (Readable(v, blk) <==> (lba + v.geo.blockSize / SECTOR) * SECTOR <= |v.store|)
  {
  }

  lemma SubSlice(s: seq<Byte>, at: nat, size: nat, o: nat, n: nat)
    requires at + size <= |s| && o + n <= size
    ensures s[at..at + size][o..o + n] == s[at + o..at + o + n]
  {
    var whole := s[at..at + size];
    var a, b := whole[o..o + n], s[at + o..at + o + n];
    forall k | 0 <= k < n ensures a[k] == b[k] {
      assert a[k] == whole[o + k];
    }
  }

  lemma CachePatched(c: seq<Byte>, block: seq<Byte>, o: nat, src: seq<Byte>)
    requires |block| <= |c| && o + |src| <= |block|
    ensures Splice(Splice(c, 0, block), o, src)[..|block|] == Splice(block, o, src)
  {
  }

  lemma BytesOfBlock(v: Volume, blk: Word, o: nat, n: nat)
    requires Sane(v.geo) && !v.onDisk && Safe(v, blk) && o + n <= v.geo.blockSize
    ensures var off := blk * v.geo.blockSize % WRAP;
      && off == Start(v, blk) && (off + o + n) % WRAP == off + o + n
      && (Readable(v, blk) <==> blk != 0 && off + v.geo.blockSize <= |v.store|)
      && (Fits(v, blk, o, n) <==> off + o + n <= |v.store|)
  {
  }

  lemma BlockSpliced(v: Volume, blk: Word, offset: nat, src: seq<Byte>)
    requires Readable(v, blk) && offset + |src| <= v.geo.blockSize && v.onDisk
    ensures Stored(v, blk, 0, Splice(BlockOf(v, blk), offset, src)) == Stored(v, blk, offset, src)
  {
    assert Splice(v.store, Start(v, blk), Splice(BlockOf(v, blk), offset, src))
      == Splice(v.store, Start(v, blk) + offset, src);
  }

  lemma RecordStart(g: Geometry, num: Word)
    requires HasInode(g, num)
    ensures var off := RecordOffset(g, num);
      && (TableBlock(g, num) + off / g.blockSize) % WRAP == RecordBlock(g, num, 0)
      && off % g.blockSize == Within(g.blockSize, off + 0)
  {
  }

  /** The first `d` bytes of the record stand at the start of `t`. */
  ghost predicate RecordCopied(v: Volume, num: Word, t: seq<Byte>, d: nat)
    requires HasInode(v.geo, num)
  {
    d <= |t| && forall o :: 0 <= o < d ==> Readable(v, RecordBlock(v.geo, num, o)) && t[o] == RecordByte(v, num, o)
  }

  lemma RecordComplete(v: Volume, num: Word, t: seq<Byte>)
    requires HasInode(v.geo, num) && RecordCopied(v, num, t, v.geo.inodeSize)
    ensures RecordReadable(v, num) && t[..v.geo.inodeSize] == Record(v, num)
  {
  }

  /** The bytes copied out of one block are the record's next ones. */
  lemma RecordRun(v: Volume, num: Word, d: nat, chunk: nat, t: seq<Byte>)
    requires HasInode(v.geo, num) && RecordCopied(v, num, t, d) && d + chunk <= |t|
    requires Readable(v, RecordBlock(v.geo, num, d))
    requires Within(v.geo.blockSize, RecordOffset(v.geo, num) + d) + chunk <= v.geo.blockSize
    ensures var w := Within(v.geo.blockSize, RecordOffset(v.geo, num) + d);
      RecordCopied(v, num, Splice(t, d, Piece(v, RecordBlock(v.geo, num, d), w, chunk)), d + chunk)
  {
    hide Index, Within, RecordOffset, TableBlock, Start;
    var w := Within(v.geo.blockSize, RecordOffset(v.geo, num) + d);
    SpliceBytes(t, d, Piece(v, RecordBlock(v.geo, num, d), w, chunk));
    forall o | d <= o < d + chunk
      ensures Readable(v, RecordBlock(v.geo, num, o))
      ensures Piece(v, RecordBlock(v.geo, num, d), w, chunk)[o - d] == RecordByte(v, num, o)
    {
      ChunkInBlock(v.geo.blockSize, RecordOffset(v.geo, num) + d, chunk, RecordOffset(v.geo, num) + o);
    }
  }

  lemma NextRecordBlock(g: Geometry, num: Word, d: nat, chunk: nat)
    requires HasInode(g, num) && Within(g.blockSize, RecordOffset(g, num) + d) + chunk <= g.blockSize
    ensures Within(g.blockSize, RecordOffset(g, num) + d) + chunk == g.blockSize ==>
      && RecordBlock(g, num, d + chunk) == (RecordBlock(g, num, d) + 1) % WRAP
      && Within(g.blockSize, RecordOffset(g, num) + (d + chunk)) == 0
  {
    hide TableBlock, RecordOffset, Index, Within;
    if Within(g.blockSize, RecordOffset(g, num) + d) + chunk == g.blockSize {
      NextBlock(g.blockSize, RecordOffset(g, num) + d, chunk);
      assert RecordOffset(g, num) + d + chunk == RecordOffset(g, num) + (d + chunk);
      NextWrapped(TableBlock(g, num), Index(g.blockSize, RecordOffset(g, num) + d));
    }
  }

  lemma NextWrapped(t: nat, i: nat)
    ensures (t + (i + 1)) % WRAP == ((t + i) % WRAP + 1) % WRAP
  {
  }

  lemma NextBlock(bs: nat, p: nat, n: nat)
    requires BlockSize(bs) && Within(bs, p) + n == bs
    ensures Index(bs, p + n) == Index(bs, p) + 1 && Within(bs, p + n) == 0
  {
    if bs == 1024 {
    } else if bs == 2048 {
    } else {
    }
  }

  lemma SpliceNothing(s: seq<Byte>)
    ensures Splice(s, 0, []) == s
  {
  }

  lemma SpliceAppend(s: seq<Byte>, a: seq<Byte>, b: seq<Byte>)
    requires |a| + |b| <= |s|
    ensures Splice(Splice(s, 0, a), |a|, b) == Splice(s, 0, a + b)
  {
  }

  lemma ReadNext(v: Volume, ino: Inode, pos: nat, len: nat, copied: nat, n: nat)
    requires BlockSize(v.geo.blockSize) && Shaped(ino) && copied < len
    requires var all := ReadData(v, ino, pos, len);
      copied <= |all| && all == all[..copied] + ReadData(v, ino, pos + copied, len - copied)
    requires Mapped(v, ino, pos + copied) && n == Chunk(v.geo.blockSize, ino.size, pos + copied, len - copied)
    ensures var all := ReadData(v, ino, pos, len);
      var piece := Piece(v, BlockAt(v, ino, pos + copied), Within(v.geo.blockSize, pos + copied), n);
      && copied + n <= |all| && all[..copied + n] == all[..copied] + piece
      && all == all[..copied + n] + ReadData(v, ino, pos + (copied + n), len - (copied + n))
  {
    hide ReadData, Piece, Chunk, Index, Within, Readable;
    ReadStep(v, ino, pos + copied, len - copied);
    var all := ReadData(v, ino, pos, len);
    var piece := Piece(v, BlockAt(v, ino, pos + copied), Within(v.geo.blockSize, pos + copied), n);
    assert all == all[..copied] + piece + ReadData(v, ino, pos + copied + n, len - copied - n);
    assert pos + copied + n == pos + (copied + n) && len - copied - n == len - (copied + n);
  }

  lemma WriteUnfold(v: Volume, ino: Inode, pos: nat, data: seq<Byte>)
    requires BlockSize(v.geo.blockSize) && Shaped(ino)
    ensures WriteData(v, ino, pos, data) ==
      if data == [] || !Direct(v, ino, pos) then (v, 0)
      else
        var n := Chunk(v.geo.blockSize, ino.size, pos, |data|);
        var blk, o := BlockAt(v, ino, pos), Within(v.geo.blockSize, pos);
        if !Storable(v, blk, o, n) then (v, 0)
        else
          var r := WriteData(Stored(v, blk, o, data[..n]), ino, pos + n, data[n..]);
          (r.0, n + r.1)
  {
  }

  lemma SafeSame(v: Volume, w: Volume, ino: Inode)
    requires Shaped(ino) && w.geo == v.geo && w.onDisk == v.onDisk && |w.store| == |v.store|
    ensures FileSafe(w, ino) == FileSafe(v, ino)
  {
    assert forall b: Word :: Safe(w, b) == Safe(v, b);
  }

  lemma ReadEnds(v: Volume, ino: Inode, pos: nat, len: nat)
    requires BlockSize(v.geo.blockSize) && Shaped(ino)
    ensures ReadData(v, ino, pos, len) != [] ==> pos + |ReadData(v, ino, pos, len)| <= ino.size
  {
    var d := ReadData(v, ino, pos, len);
    ReadExact(v, ino, pos, len);
    if d != [] { assert Mapped(v, ino, pos + |d| - 1); }
  }

  lemma {:induction false} WriteEnds(v: Volume, ino: Inode, pos: nat, data: seq<Byte>)
    requires BlockSize(v.geo.blockSize) && Shaped(ino)
    ensures WriteData(v, ino, pos, data).1 > 0 ==> pos + WriteData(v, ino, pos, data).1 <= ino.size
    decreases |data|
  {
    hide Index, Within, Fits, Stored;
    if data != [] && Direct(v, ino, pos) {
      var n := Chunk(v.geo.blockSize, ino.size, pos, |data|);
      var blk, o := BlockAt(v, ino, pos), Within(v.geo.blockSize, pos);
      if Storable(v, blk, o, n) { WriteEnds(Stored(v, blk, o, data[..n]), ino, pos + n, data[n..]); }
    }
  }
}
