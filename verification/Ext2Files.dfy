/** What reads and writes of a file mean: the file is a flat sequence of bytes. */
module Ext2Files {
  import opened Basics
  import opened Ext2

  // ---- Reading ----

  /** A read returns the file's bytes from `pos` on and stops early only where no byte can be read. */
  ghost predicate Reads(v: Volume, ino: Inode, pos: nat, len: nat, d: seq<Byte>)
    requires BlockSize(v.geo.blockSize) && Shaped(ino)
  {
    && |d| <= len
    && (forall p: nat :: pos <= p < pos + |d| ==> Mapped(v, ino, p) && d[p - pos] == FileByte(v, ino, p))
    && (|d| < len ==> !Mapped(v, ino, pos + |d|))
  }

  /** One chunk: bytes of one block, which are the file's bytes at consecutive positions. */
  lemma ReadStep(v: Volume, ino: Inode, pos: nat, len: nat)
    requires BlockSize(v.geo.blockSize) && Shaped(ino) && len > 0 && Mapped(v, ino, pos)
    ensures var n := Chunk(v.geo.blockSize, ino.size, pos, len);
            var d := Piece(v, BlockAt(v, ino, pos), Within(v.geo.blockSize, pos), n);
      && ReadData(v, ino, pos, len) == d + ReadData(v, ino, pos + n, len - n) && n > 0
      && forall p: nat :: pos <= p < pos + n ==> Mapped(v, ino, p) && d[p - pos] == FileByte(v, ino, p)
  {
    hide Index, Within, Readable, Start;
    var n := Chunk(v.geo.blockSize, ino.size, pos, len);
    var blk, o := BlockAt(v, ino, pos), Within(v.geo.blockSize, pos);
    forall p: nat | pos <= p < pos + n
      ensures Mapped(v, ino, p) && Piece(v, blk, o, n)[p - pos] == FileByte(v, ino, p)
    {
      ChunkInBlock(v.geo.blockSize, pos, n, p);
      PieceByte(v, blk, o, n, p - pos);
    }
  }

  lemma PieceByte(v: Volume, blk: Word, o: nat, n: nat, k: nat)
    requires Readable(v, blk) && o + n <= v.geo.blockSize && k < n
    ensures Piece(v, blk, o, n)[k] == v.store[Start(v, blk) + o + k]
  {
  }

  lemma {:induction false} ReadExact(v: Volume, ino: Inode, pos: nat, len: nat)
    requires BlockSize(v.geo.blockSize) && Shaped(ino)
    ensures Reads(v, ino, pos, len, ReadData(v, ino, pos, len))
    decreases len
  {
    hide ReadData, Mapped, FileByte, Chunk, Piece, Direct, BlockAt, Index, Within;
    if len == 0 || !Mapped(v, ino, pos) {
      ReadNothing(v, ino, pos, len);
    } else {
      var n := Chunk(v.geo.blockSize, ino.size, pos, len);
      ReadStep(v, ino, pos, len);
      ReadExact(v, ino, pos + n, len - n);
    }
  }

  lemma ReadNothing(v: Volume, ino: Inode, pos: nat, len: nat)
    requires BlockSize(v.geo.blockSize) && Shaped(ino) && (len == 0 || !Mapped(v, ino, pos))
    ensures ReadData(v, ino, pos, len) == []
  {
  }

  /** Only one sequence fits that description. */
  lemma ReadUnique(v: Volume, ino: Inode, pos: nat, len: nat, d: seq<Byte>, e: seq<Byte>)
    requires BlockSize(v.geo.blockSize) && Shaped(ino)
    requires Reads(v, ino, pos, len, d) && Reads(v, ino, pos, len, e)
    ensures d == e
  {
    hide Mapped, FileByte;
    assert Mapped(v, ino, pos + |d|) ==> |e| <= |d|;
    forall k | 0 <= k < |d| && k < |e| ensures d[k] == e[k] {
      assert Mapped(v, ino, pos + k);
    }
  }

  /** The first direct block from `i` on that cannot be read. */
  function FirstHole(v: Volume, ino: Inode, i: nat): (h: nat)
    requires Shaped(ino) && i <= DIRECT_BLOCKS
    ensures i <= h <= DIRECT_BLOCKS && (h < DIRECT_BLOCKS ==> !Readable(v, ino.block[h]))
    ensures forall j :: i <= j < h ==> Readable(v, ino.block[j])
    decreases DIRECT_BLOCKS - i
  {
    if i < |ino.block| - 3 && Readable(v, ino.block[i]) then FirstHole(v, ino, i + 1) else i
  }

  /** The end of what can be read from `pos` on: the file's size, or the first hole. */
  function EndFrom(v: Volume, ino: Inode, pos: nat): nat
    requires BlockSize(v.geo.blockSize) && Shaped(ino) && Index(v.geo.blockSize, pos) < DIRECT_BLOCKS
  {
    Min(ino.size, FirstHole(v, ino, Index(v.geo.blockSize, pos)) * v.geo.blockSize)
  }

  /** Counts are cut at the file's size, at twelve blocks and at the first hole. */
  lemma ReadCount(v: Volume, ino: Inode, pos: nat, len: nat)
    requires BlockSize(v.geo.blockSize) && Shaped(ino)
    ensures |ReadData(v, ino, pos, len)| ==
      if Index(v.geo.blockSize, pos) >= 12 || pos >= EndFrom(v, ino, pos) then 0
      else Min(len, EndFrom(v, ino, pos) - pos)
  {
    var d := ReadData(v, ino, pos, len);
    hide ReadData, FileByte, Index, EndFrom;
    ReadExact(v, ino, pos, len);
    if Index(v.geo.blockSize, pos) < DIRECT_BLOCKS {
      hide Mapped;
      var end := EndFrom(v, ino, pos);
      MappedUpTo(v, ino, pos, pos + |d|);
      MappedUpTo(v, ino, pos, pos);
      if pos < end {
        MappedUpTo(v, ino, pos, end);
        if pos + |d| > end { NotPast(v, ino, pos, len, d, end); }
      }
    }
  }

  lemma NotPast(v: Volume, ino: Inode, pos: nat, len: nat, d: seq<Byte>, end: nat)
    requires BlockSize(v.geo.blockSize) && Shaped(ino) && Reads(v, ino, pos, len, d) && pos <= end
    requires !Mapped(v, ino, end)
    ensures pos + |d| <= end
  {
  }

  /** From `pos` on exactly the positions below the end can be read. */
  lemma MappedUpTo(v: Volume, ino: Inode, pos: nat, p: nat)
    requires BlockSize(v.geo.blockSize) && Shaped(ino) && Index(v.geo.blockSize, pos) < DIRECT_BLOCKS && pos <= p
    ensures p < EndFrom(v, ino, pos) ==> Mapped(v, ino, p)
    ensures p == EndFrom(v, ino, pos) || pos == p >= EndFrom(v, ino, pos) ==> !Mapped(v, ino, p)
  {
    hide Index, Readable;
    var bs := v.geo.blockSize;
    var hole := FirstHole(v, ino, Index(bs, pos));
    BlockIndex(bs, p, hole);
    BlockIndex(bs, pos, hole);
    IndexMonotone(bs, pos, p);
    if p == hole * bs { BlockStartIndex(bs, hole); }
    if pos == p >= hole * bs { assert Index(bs, pos) == hole; }
  }

  lemma BlockStartIndex(bs: nat, h: nat)
    requires BlockSize(bs)
    ensures Index(bs, h * bs) == h
  {
    if bs == 1024 {
    } else if bs == 2048 {
    } else {
    }
  }

  lemma BlockIndex(bs: nat, p: nat, h: nat)
    requires BlockSize(bs)
    ensures p < h * bs <==> Index(bs, p) < h
  {
    if bs == 1024 {
    } else if bs == 2048 {
    } else {
    }
  }

  lemma IndexMonotone(bs: nat, p: nat, q: nat)
    requires BlockSize(bs) && p <= q
    ensures Index(bs, p) <= Index(bs, q)
  {
    if bs == 1024 {
    } else if bs == 2048 {
    } else {
    }
  }

  /** Reads of the given lengths one after the other, each where the previous one stopped. */
  function ReadInPieces(v: Volume, ino: Inode, pos: nat, lens: seq<nat>): seq<Byte>
    requires BlockSize(v.geo.blockSize) && Shaped(ino)
    decreases |lens|
  {
    if lens == [] then []
    else
      var d := ReadData(v, ino, pos, lens[0]);
      d + ReadInPieces(v, ino, pos + |d|, lens[1..])
  }

  function Sum(lens: seq<nat>): nat {
    if lens == [] then 0 else lens[0] + Sum(lens[1..])
  }

  /** Reading in any chunks concatenates to the single large read. */
  lemma {:induction false} ReadsConcatenate(v: Volume, ino: Inode, pos: nat, lens: seq<nat>)
    requires BlockSize(v.geo.blockSize) && Shaped(ino)
    ensures ReadInPieces(v, ino, pos, lens) == ReadData(v, ino, pos, Sum(lens))
    decreases |lens|
  {
    hide ReadData, Mapped, FileByte;
    ReadExact(v, ino, pos, Sum(lens));
    if lens != [] {
      var d := ReadData(v, ino, pos, lens[0]);
      ReadExact(v, ino, pos, lens[0]);
      ReadsConcatenate(v, ino, pos + |d|, lens[1..]);
      var rest := ReadData(v, ino, pos + |d|, Sum(lens[1..]));
      ReadExact(v, ino, pos + |d|, Sum(lens[1..]));
      ReadsJoin(v, ino, pos, lens[0], Sum(lens[1..]), d, rest);
      ReadUnique(v, ino, pos, Sum(lens), ReadData(v, ino, pos, Sum(lens)), d + rest);
    }
  }

  lemma ReadsJoin(v: Volume, ino: Inode, pos: nat, a: nat, b: nat, d: seq<Byte>, rest: seq<Byte>)
    requires BlockSize(v.geo.blockSize) && Shaped(ino)
    requires Reads(v, ino, pos, a, d) && Reads(v, ino, pos + |d|, b, rest)
    ensures Reads(v, ino, pos, a + b, d + rest)
  {
    hide Mapped, FileByte;
    assert pos + |d| + |rest| == pos + |d + rest|;
  }

  // ---- Writing ----

  /** The direct blocks that are there lie inside the volume, and no two of them are the same. */
  ghost predicate GoodFile(v: Volume, ino: Inode) {
    && Shaped(ino)
    && (forall i :: 0 <= i < DIRECT_BLOCKS && ino.block[i] != 0 ==> InRange(v, ino.block[i]))
    && (forall i, j :: 0 <= i < j < DIRECT_BLOCKS && ino.block[i] != 0 ==> ino.block[i] != ino.block[j])
  }

  lemma InRangeStart(v: Volume, blk: Word)
    requires Sound(v) && InRange(v, blk)
    ensures Start(v, blk) == blk * v.geo.blockSize && Readable(v, blk) && Safe(v, blk)
  {
    if v.onDisk { SectorStart(blk, v.geo.blockSize, |v.store|); }
  }

  lemma SectorStart(blk: Word, bs: nat, total: nat)
    requires BlockSize(bs) && total <= WRAP * SECTOR && (blk + 1) * bs <= total
    ensures blk * (bs / SECTOR) % WRAP * SECTOR == blk * bs && blk != NO_BLOCK
  {
    if bs == 1024 {
    } else if bs == 2048 {
    } else {
    }
  }

  lemma BlocksApart(bs: nat, a: nat, b: nat, o: nat, p: nat)
    requires BlockSize(bs) && a != b && o < bs && p < bs
    ensures a * bs + o != b * bs + p
  {
    if bs == 1024 {
    } else if bs == 2048 {
    } else {
    }
  }

  lemma SamePosition(bs: nat, p: nat, q: nat)
    requires BlockSize(bs) && Index(bs, p) == Index(bs, q) && Within(bs, p) == Within(bs, q)
    ensures p == q
  {
    if bs == 1024 {
    } else if bs == 2048 {
    } else {
    }
  }

  lemma PlacesApart(v: Volume, ino: Inode, p: nat, q: nat)
    requires Sound(v) && GoodFile(v, ino) && p != q && Mapped(v, ino, p) && Mapped(v, ino, q)
    ensures Place(v, ino, p) != Place(v, ino, q)
  {
    hide Index, Within, Readable, Start, InRange;
    var bs := v.geo.blockSize;
    var a, b := BlockAt(v, ino, p), BlockAt(v, ino, q);
    MappedInRange(v, ino, p);
    MappedInRange(v, ino, q);
    InRangeStart(v, a);
    InRangeStart(v, b);
    if a == b {
      if Within(bs, p) == Within(bs, q) { SamePosition(bs, p, q); }
    } else {
      BlocksApart(bs, a, b, Within(bs, p), Within(bs, q));
    }
  }

  lemma MappedInRange(v: Volume, ino: Inode, p: nat)
    requires Sound(v) && GoodFile(v, ino) && Mapped(v, ino, p)
    ensures InRange(v, BlockAt(v, ino, p)) && BlockAt(v, ino, p) in ino.block[..DIRECT_BLOCKS]
  {
    hide Index, InRange;
    assert BlockAt(v, ino, p) == ino.block[..DIRECT_BLOCKS][Index(v.geo.blockSize, p)];
  }

  /** Positions pos..pos+n-1 of the file occupy byte `x` of the volume. */
  ghost predicate Occupies(v: Volume, ino: Inode, pos: nat, n: nat, x: nat)
    requires BlockSize(v.geo.blockSize) && Shaped(ino)
  {
    exists p: nat :: pos <= p < pos + n && Mapped(v, ino, p) && Place(v, ino, p) == x
  }

  /** The volumes have the same layout, though perhaps different bytes. */
  ghost predicate SameLayout(v: Volume, w: Volume) {
    w.geo == v.geo && w.onDisk == v.onDisk && |w.store| == |v.store|
  }

  lemma StorableIsMapped(v: Volume, ino: Inode, pos: nat, n: nat)
    requires Sound(v) && GoodFile(v, ino) && Direct(v, ino, pos) && Within(v.geo.blockSize, pos) + n <= v.geo.blockSize
    ensures Storable(v, BlockAt(v, ino, pos), Within(v.geo.blockSize, pos), n) <==> Mapped(v, ino, pos)
  {
    hide Index, Within, Start, InRange;
    if BlockAt(v, ino, pos) != 0 { InRangeStart(v, BlockAt(v, ino, pos)); }
  }

  function AfterChunk(v: Volume, ino: Inode, pos: nat, data: seq<Byte>): (w: Volume)
    requires BlockSize(v.geo.blockSize) && Shaped(ino) && Mapped(v, ino, pos)
    ensures SameLayout(v, w)
  {
    var n := Chunk(v.geo.blockSize, ino.size, pos, |data|);
    Stored(v, BlockAt(v, ino, pos), Within(v.geo.blockSize, pos), data[..n])
  }

  /** What a write leaves behind: its bytes at the positions pos..pos+n-1, every other byte as it was. */
  ghost predicate Writes(v: Volume, ino: Inode, pos: nat, n: nat, data: seq<Byte>, w: Volume)
    requires BlockSize(v.geo.blockSize) && Shaped(ino)
  {
    && SameLayout(v, w) && n <= |data|
    && (forall p: nat :: pos <= p < pos + n ==> Mapped(v, ino, p) && w.store[Place(v, ino, p)] == data[p - pos])
    && (forall x :: 0 <= x < |v.store| && !Occupies(v, ino, pos, n, x) ==> w.store[x] == v.store[x])
  }

  /** One chunk: exactly the places of its positions take the new bytes. */
  lemma ChunkWritten(v: Volume, ino: Inode, pos: nat, data: seq<Byte>)
    requires Sound(v) && GoodFile(v, ino) && data != [] && Mapped(v, ino, pos)
    ensures var n := Chunk(v.geo.blockSize, ino.size, pos, |data|);
      Writes(v, ino, pos, n, data[..n], AfterChunk(v, ino, pos, data)) && n > 0
  {
    hide Index, Within, Start, InRange, Readable;
    var n := Chunk(v.geo.blockSize, ino.size, pos, |data|);
    var at := Place(v, ino, pos);
    forall p: nat | pos <= p < pos + n ensures Mapped(v, ino, p) && Place(v, ino, p) == at + (p - pos) {
      ChunkInBlock(v.geo.blockSize, pos, n, p);
    }
    forall x | at <= x < at + n ensures Occupies(v, ino, pos, n, x) {
      assert Mapped(v, ino, pos + (x - at));
    }
  }

  /** One iteration of the write loop, or its end. */
  lemma WriteStep(v: Volume, ino: Inode, pos: nat, data: seq<Byte>)
    requires Sound(v) && GoodFile(v, ino)
    ensures WriteData(v, ino, pos, data) ==
      if data == [] || !Mapped(v, ino, pos) then (v, 0)
      else
        var n := Chunk(v.geo.blockSize, ino.size, pos, |data|);
        var r := WriteData(AfterChunk(v, ino, pos, data), ino, pos + n, data[n..]);
        (r.0, n + r.1)
  {
    hide Index, Within, Start, InRange, Readable;
    if data != [] && Direct(v, ino, pos) {
      StorableIsMapped(v, ino, pos, Chunk(v.geo.blockSize, ino.size, pos, |data|));
    }
  }

  /** A write covers exactly the positions that a read of the same range covers. */
  lemma {:induction false} WriteExact(v: Volume, ino: Inode, pos: nat, data: seq<Byte>)
    requires Sound(v) && GoodFile(v, ino)
    ensures var (w, n) := WriteData(v, ino, pos, data);
      Writes(v, ino, pos, n, data, w) && n == |ReadData(v, ino, pos, |data|)|
    decreases |data|
  {
    hide ReadData, WriteData, Chunk, AfterChunk, Mapped, Index, Within;
    hide Place, Occupies, FileByte, InRange, BlockAt, Direct, Piece;
    WriteStep(v, ino, pos, data);
    if data == [] || !Mapped(v, ino, pos) {
      ReadNothing(v, ino, pos, |data|);
    } else {
      var n := Chunk(v.geo.blockSize, ino.size, pos, |data|);
      var v1 := AfterChunk(v, ino, pos, data);
      ChunkWritten(v, ino, pos, data);
      LayoutFacts(v, v1, ino);
      WriteExact(v1, ino, pos + n, data[n..]);
      ReadStep(v, ino, pos, |data|);
      SameLayoutReads(v, v1, ino, pos + n, |data| - n);
      WritesJoin(v, v1, WriteData(v1, ino, pos + n, data[n..]).0, ino, pos, n,
        WriteData(v1, ino, pos + n, data[n..]).1, data);
    }
  }

  lemma WritesJoin(v: Volume, v1: Volume, w: Volume, ino: Inode, pos: nat, n: nat, m: nat, data: seq<Byte>)
    requires Sound(v) && GoodFile(v, ino) && n <= |data| && SameLayout(v, v1)
    requires Writes(v, ino, pos, n, data[..n], v1) && Writes(v1, ino, pos + n, m, data[n..], w)
    ensures Writes(v, ino, pos, n + m, data, w)
  {
    hide Place, Occupies, Mapped, InRange;
    LayoutFacts(v, v1, ino);
    forall p: nat | pos <= p < pos + (n + m) ensures Mapped(v, ino, p) && w.store[Place(v, ino, p)] == data[p - pos] {
      if p < pos + n {
        assert Mapped(v, ino, p);
        ApartFromLater(v, ino, p, pos + n, m);
      } else {
        assert Mapped(v1, ino, p);
      }
    }
    forall x | 0 <= x < |v.store| && !Occupies(v, ino, pos, n + m, x) ensures w.store[x] == v.store[x] {
      NarrowerRange(v, ino, pos, n, m, x);
    }
  }

  lemma NarrowerRange(v: Volume, ino: Inode, pos: nat, n: nat, m: nat, x: nat)
    requires BlockSize(v.geo.blockSize) && Shaped(ino) && !Occupies(v, ino, pos, n + m, x)
    ensures !Occupies(v, ino, pos, n, x) && !Occupies(v, ino, pos + n, m, x)
  {
  }

  lemma ApartFromLater(v: Volume, ino: Inode, p: nat, later: nat, m: nat)
    requires Sound(v) && GoodFile(v, ino) && p < later && Mapped(v, ino, p)
    ensures !Occupies(v, ino, later, m, Place(v, ino, p))
  {
    forall q | later <= q < later + m && Mapped(v, ino, q) ensures Place(v, ino, q) != Place(v, ino, p) {
      PlacesApart(v, ino, p, q);
    }
  }

  lemma LayoutFacts(v: Volume, w: Volume, ino: Inode)
    requires BlockSize(v.geo.blockSize) && Shaped(ino) && SameLayout(v, w)
    ensures forall p: nat :: Mapped(w, ino, p) == Mapped(v, ino, p)
    ensures forall p: nat :: Mapped(v, ino, p) ==> Place(w, ino, p) == Place(v, ino, p)
    ensures forall q: nat, n: nat, x: nat :: Occupies(w, ino, q, n, x) == Occupies(v, ino, q, n, x)
    ensures GoodFile(w, ino) == GoodFile(v, ino) && Sound(w) == Sound(v)
  {
    assert forall p: nat :: Mapped(w, ino, p) == Mapped(v, ino, p);
  }

  lemma {:induction false} SameLayoutReads(v: Volume, w: Volume, ino: Inode, pos: nat, len: nat)
    requires BlockSize(v.geo.blockSize) && Shaped(ino) && SameLayout(v, w)
    ensures |ReadData(w, ino, pos, len)| == |ReadData(v, ino, pos, len)|
    decreases len
  {
    hide ReadData, Mapped, Place, Chunk, Occupies, GoodFile, FileByte, Piece, Direct, BlockAt, Index, Within, Sound;
    LayoutFacts(v, w, ino);
    if len > 0 && Mapped(v, ino, pos) {
      var n := Chunk(v.geo.blockSize, ino.size, pos, len);
      ReadStep(v, ino, pos, len);
      ReadStep(w, ino, pos, len);
      SameLayoutReads(v, w, ino, pos + n, len - n);
    } else {
      ReadNothing(v, ino, pos, len);
      ReadNothing(w, ino, pos, len);
    }
  }

  /** Writing and then reading the same range returns what was written; the file's other bytes stay. */
  lemma WriteThenRead(v: Volume, ino: Inode, pos: nat, data: seq<Byte>)
    requires Sound(v) && GoodFile(v, ino)
    ensures var (w, n) := WriteData(v, ino, pos, data);
      && ReadData(w, ino, pos, |data|) == data[..n]
      && (forall p: nat :: Mapped(v, ino, p) ==>
            && Mapped(w, ino, p)
            && FileByte(w, ino, p) == if pos <= p < pos + n then data[p - pos] else FileByte(v, ino, p))
  {
    hide ReadData, WriteData, Mapped, Place, Occupies, Index, Within, InRange;
    var (w, n) := WriteData(v, ino, pos, data);
    WriteExact(v, ino, pos, data);
    LayoutFacts(v, w, ino);
    SameLayoutReads(v, w, ino, pos, |data|);
    ReadExact(w, ino, pos, |data|);
    forall k | 0 <= k < n ensures ReadData(w, ino, pos, |data|)[k] == data[k] {
      assert Mapped(v, ino, pos + k) && Mapped(w, ino, pos + k);
    }
    forall p: nat | Mapped(v, ino, p)
      ensures FileByte(w, ino, p) == if pos <= p < pos + n then data[p - pos] else FileByte(v, ino, p)
    {
      if p < pos || pos + n <= p { OutsideRange(v, ino, pos, n, p); }
    }
  }

  lemma OutsideRange(v: Volume, ino: Inode, pos: nat, n: nat, p: nat)
    requires Sound(v) && GoodFile(v, ino) && Mapped(v, ino, p) && !(pos <= p < pos + n)
    ensures !Occupies(v, ino, pos, n, Place(v, ino, p))
  {
    forall q | pos <= q < pos + n && Mapped(v, ino, q) ensures Place(v, ino, q) != Place(v, ino, p) {
      PlacesApart(v, ino, p, q);
    }
  }

  // ---- Everything else ----

  /** A write to one file leaves every block that is not one of the file's alone. */
  lemma WriteKeepsBlock(v: Volume, ino: Inode, pos: nat, data: seq<Byte>, blk: Word)
    requires Sound(v) && GoodFile(v, ino) && InRange(v, blk) && blk !in ino.block[..DIRECT_BLOCKS]
    ensures var w := WriteData(v, ino, pos, data).0;
      Readable(v, blk) && Readable(w, blk) && BlockOf(w, blk) == BlockOf(v, blk)
  {
    hide WriteData, ReadData, Occupies, Mapped, Place, Start, InRange;
    var (w, n) := WriteData(v, ino, pos, data);
    WriteExact(v, ino, pos, data);
    InRangeStart(v, blk);
    SameStart(v, w, blk);
    forall x | Start(v, blk) <= x < Start(v, blk) + v.geo.blockSize ensures w.store[x] == v.store[x] {
      ForeignBlock(v, ino, pos, n, blk, x - Start(v, blk));
    }
    assert BlockOf(w, blk) == BlockOf(v, blk);
  }

  lemma SameStart(v: Volume, w: Volume, blk: Word)
    requires SameLayout(v, w)
    ensures Start(w, blk) == Start(v, blk)
  {
  }

  lemma ForeignBlock(v: Volume, ino: Inode, pos: nat, n: nat, blk: Word, i: nat)
    requires Sound(v) && GoodFile(v, ino) && InRange(v, blk) && blk !in ino.block[..DIRECT_BLOCKS]
    requires i < v.geo.blockSize
    ensures !Occupies(v, ino, pos, n, Start(v, blk) + i)
  {
    hide Index, Within, Start, InRange, Readable;
    InRangeStart(v, blk);
    forall p: nat | pos <= p < pos + n && Mapped(v, ino, p) ensures Place(v, ino, p) != Start(v, blk) + i {
      MappedInRange(v, ino, p);
      InRangeStart(v, BlockAt(v, ino, p));
      BlocksApart(v.geo.blockSize, BlockAt(v, ino, p), blk, Within(v.geo.blockSize, p), i);
    }
  }

  /** The inode's record lies inside the volume, on blocks that are none of `blocks`. */
  ghost predicate RecordApart(v: Volume, num: Word, blocks: seq<Word>)
    requires HasInode(v.geo, num)
  {
    forall o :: 0 <= o < v.geo.inodeSize ==>
      InRange(v, RecordBlock(v.geo, num, o)) && RecordBlock(v.geo, num, o) !in blocks
  }

  lemma WriteKeepsInode(v: Volume, ino: Inode, pos: nat, data: seq<Byte>, num: Word)
    requires Sound(v) && GoodFile(v, ino) && HasInode(v.geo, num) && RecordApart(v, num, ino.block[..DIRECT_BLOCKS])
    ensures InodeOf(v, num).Some? && InodeOf(WriteData(v, ino, pos, data).0, num) == InodeOf(v, num)
  {
    hide WriteData, Start, BlockOf, RecordBlock, Readable;
    var w := WriteData(v, ino, pos, data).0;
    forall o | 0 <= o < v.geo.inodeSize
      ensures Readable(v, RecordBlock(v.geo, num, o)) && Readable(w, RecordBlock(v.geo, num, o))
      ensures RecordByte(w, num, o) == RecordByte(v, num, o)
    {
      WriteKeepsBlock(v, ino, pos, data, RecordBlock(v.geo, num, o));
    }
    assert Record(w, num) == Record(v, num);
  }

  /** The record of inode `num` is one run of bytes of the volume, whether or not it crosses from one block to
      the next: record (num - 1) mod g of the table that begins with the block named in bytes 8 to 11 of group
      descriptor (num - 1) / g, where g is the number of inodes in a group. */
  lemma RecordContiguous(v: Volume, num: Word)
    requires Sound(v) && HasInode(v.geo, num) && RecordApart(v, num, [])
    requires TableBlock(v.geo, num) + Index(v.geo.blockSize, RecordOffset(v.geo, num) + v.geo.inodeSize) < WRAP
    ensures 32 * ((num - 1) / v.geo.inodesPerGroup) + 32 <= |v.geo.gdt|
    ensures var table := U32(v.geo.gdt, 32 * ((num - 1) / v.geo.inodesPerGroup) + 8);
            var start := table * v.geo.blockSize + (num - 1) % v.geo.inodesPerGroup * v.geo.inodeSize;
      && start + v.geo.inodeSize <= |v.store| && RecordReadable(v, num)
      && Record(v, num) == v.store[start..start + v.geo.inodeSize]
  {
    TablePlace(v.geo, num);
    hide Start, BlockOf, TableBlock, RecordOffset, Index, Within, RecordBlock, InRange, Readable, RecordByte;
    var start := TableBlock(v.geo, num) * v.geo.blockSize + RecordOffset(v.geo, num);
    forall o | 0 <= o < v.geo.inodeSize
      ensures Readable(v, RecordBlock(v.geo, num, o)) && start + o < |v.store|
      ensures RecordByte(v, num, o) == v.store[start + o]
    {
      RecordByteAt(v, num, o);
    }
    RecordByteAt(v, num, v.geo.inodeSize - 1);
    assert Record(v, num) == v.store[start..start + v.geo.inodeSize];
  }

  lemma TablePlace(g: Geometry, num: Word)
    requires HasInode(g, num)
    ensures 32 * ((num - 1) / g.inodesPerGroup) + 32 <= |g.gdt|
    ensures TableBlock(g, num) == U32(g.gdt, 32 * ((num - 1) / g.inodesPerGroup) + 8)
    ensures RecordOffset(g, num) == (num - 1) % g.inodesPerGroup * g.inodeSize
  {
  }

  lemma RecordByteAt(v: Volume, num: Word, o: nat)
    requires Sound(v) && HasInode(v.geo, num) && o < v.geo.inodeSize && InRange(v, RecordBlock(v.geo, num, o))
    requires TableBlock(v.geo, num) + Index(v.geo.blockSize, RecordOffset(v.geo, num) + v.geo.inodeSize) < WRAP
    ensures var x := TableBlock(v.geo, num) * v.geo.blockSize + RecordOffset(v.geo, num) + o;
      x < |v.store| && Readable(v, RecordBlock(v.geo, num, o)) && RecordByte(v, num, o) == v.store[x]
  {
    hide Start, TableBlock, RecordOffset, Index, Within, InRange;
    InRangeStart(v, RecordBlock(v.geo, num, o));
    RecordPosition(v.geo.blockSize, TableBlock(v.geo, num), RecordOffset(v.geo, num), o, v.geo.inodeSize);
  }

  lemma RecordPosition(bs: nat, table: nat, off: nat, o: nat, size: nat)
    requires BlockSize(bs) && o < size && table + Index(bs, off + size) < WRAP
    ensures var blk := (table + Index(bs, off + o)) % WRAP;
      && blk == table + Index(bs, off + o)
      && blk * bs + Within(bs, off + o) == table * bs + off + o
  {
    if bs == 1024 {
    } else if bs == 2048 {
    } else {
    }
  }

  /** The file's data blocks that are there lie inside the volume and are none of `blocks`. */
  ghost predicate DataApart(v: Volume, ino: Inode, blocks: seq<Word>)
    requires Shaped(ino)
  {
    forall i :: 0 <= i < DIRECT_BLOCKS && ino.block[i] != 0 ==> InRange(v, ino.block[i]) && ino.block[i] !in blocks
  }

  lemma SamePiece(v: Volume, ino: Inode, pos: nat, data: seq<Byte>, other: Inode, p: nat, len: nat)
    requires Sound(v) && GoodFile(v, ino) && Shaped(other) && DataApart(v, other, ino.block[..DIRECT_BLOCKS])
    requires Mapped(v, other, p)
    ensures var w := WriteData(v, ino, pos, data).0;
            var o, n := Within(v.geo.blockSize, p), Chunk(v.geo.blockSize, other.size, p, len);
      && Mapped(w, other, p) && BlockAt(w, other, p) == BlockAt(v, other, p)
      && Piece(w, BlockAt(w, other, p), o, n) == Piece(v, BlockAt(v, other, p), o, n)
  {
    hide WriteData, BlockOf, InRange, Index, Within, Start;
    WriteKeepsBlock(v, ino, pos, data, BlockAt(v, other, p));
  }

  lemma {:induction false} WriteKeepsData(v: Volume, ino: Inode, pos: nat, data: seq<Byte>, other: Inode, p: nat,
                                          len: nat)
    requires Sound(v) && GoodFile(v, ino) && Shaped(other) && DataApart(v, other, ino.block[..DIRECT_BLOCKS])
    ensures ReadData(WriteData(v, ino, pos, data).0, other, p, len) == ReadData(v, other, p, len)
    decreases len
  {
    hide WriteData, ReadData, BlockOf, Mapped, Place, Chunk;
    hide FileByte, InRange, Readable, Index, Within, BlockAt, Occupies;
    var w := WriteData(v, ino, pos, data).0;
    LayoutFacts(v, w, other);
    if len == 0 || !Mapped(v, other, p) {
      ReadNothing(v, other, p, len);
      ReadNothing(w, other, p, len);
    } else {
      SamePiece(v, ino, pos, data, other, p, len);
      ReadStep(v, other, p, len);
      ReadStep(w, other, p, len);
      var n := Chunk(v.geo.blockSize, other.size, p, len);
      WriteKeepsData(v, ino, pos, data, other, p + n, len - n);
    }
  }

  /** The whole story for one file: after writing through its inode number, reading the same range through
      the number gives back the bytes written, and every file on other blocks reads as before. */
  lemma FileWriteThenRead(v: Volume, num: Word, pos: nat, data: seq<Byte>)
    requires Sound(v) && HasInode(v.geo, num) && InodeOf(v, num).Some?
    requires GoodFile(v, InodeOf(v, num).value) && RecordApart(v, num, InodeOf(v, num).value.block[..DIRECT_BLOCKS])
    ensures var (w, n) := FileWrite(v, num, pos, data);
      && 0 <= n <= |data| && Some(data[..n]) == FileRead(w, num, pos, |data|)
      && n == |FileRead(v, num, pos, |data|).value|
  {
    hide WriteData, ReadData, InodeOf;
    var ino := InodeOf(v, num).value;
    WriteKeepsInode(v, ino, pos, data, num);
    WriteThenRead(v, ino, pos, data);
    WriteExact(v, ino, pos, data);
  }

  lemma OtherFilesKept(v: Volume, num: Word, pos: nat, data: seq<Byte>, other: Word, p: nat, len: nat)
    requires Sound(v) && HasInode(v.geo, num) && InodeOf(v, num).Some? && GoodFile(v, InodeOf(v, num).value)
    requires var blocks := InodeOf(v, num).value.block[..DIRECT_BLOCKS];
      && HasInode(v.geo, other) && RecordApart(v, other, blocks)
      && (InodeOf(v, other).Some? ==> DataApart(v, InodeOf(v, other).value, blocks))
    ensures FileRead(FileWrite(v, num, pos, data).0, other, p, len) == FileRead(v, other, p, len)
  {
    hide WriteData, ReadData, InodeOf;
    var ino := InodeOf(v, num).value;
    WriteKeepsInode(v, ino, pos, data, other);
    WriteKeepsData(v, ino, pos, data, InodeOf(v, other).value, p, len);
  }

  /** Two writes one after the other equal the single write of both, whether or not the first one was cut. */
  lemma WritesConcatenate(v: Volume, ino: Inode, pos: nat, a: seq<Byte>, b: seq<Byte>)
    requires Sound(v) && GoodFile(v, ino)
    ensures var (v1, n) := WriteData(v, ino, pos, a);
            var (v2, m) := WriteData(v1, ino, pos + n, b);
      WriteData(v, ino, pos, a + b) == (v2, n + m)
  {
    hide WriteData, ReadData, Place, Mapped;
    var (v1, n) := WriteData(v, ino, pos, a);
    var (v2, m) := WriteData(v1, ino, pos + n, b);
    var (w, k) := WriteData(v, ino, pos, a + b);
    WriteExact(v, ino, pos, a);
    LayoutFacts(v, v1, ino);
    WriteExact(v1, ino, pos + n, b);
    WriteExact(v, ino, pos, a + b);
    TwoPieces(v, ino, pos, |a|, |b|);
    SameLayoutReads(v, v1, ino, pos + n, |b|);
    assert k == n + m;
    CutWrite(v, ino, pos, a, b);
    forall x | 0 <= x < |v.store| ensures w.store[x] == v2.store[x] {
      SameByte(v, ino, pos, a, b, x);
    }
    assert w.store == v2.store;
  }

  /** Behind a write that was cut nothing can be written. */
  lemma CutWrite(v: Volume, ino: Inode, pos: nat, a: seq<Byte>, b: seq<Byte>)
    requires Sound(v) && GoodFile(v, ino)
    ensures var (v1, n) := WriteData(v, ino, pos, a);
      n == |a| || WriteData(v1, ino, pos + n, b).1 == 0
  {
    hide WriteData, ReadData, Place, Mapped;
    var (v1, n) := WriteData(v, ino, pos, a);
    WriteExact(v, ino, pos, a);
    ReadExact(v, ino, pos, |a|);
    LayoutFacts(v, v1, ino);
    if n < |a| { WriteStep(v1, ino, pos + n, b); }
  }

  lemma TwoPieces(v: Volume, ino: Inode, pos: nat, a: nat, b: nat)
    requires BlockSize(v.geo.blockSize) && Shaped(ino)
    ensures var d := ReadData(v, ino, pos, a);
      ReadData(v, ino, pos, a + b) == d + ReadData(v, ino, pos + |d|, b)
  {
    hide ReadData;
    ReadsConcatenate(v, ino, pos, [a, b]);
    var d := ReadData(v, ino, pos, a);
    assert [a, b][1..] == [b] && [b][1..] == [];
    assert Sum([a, b]) == a + Sum([b]) && Sum([b]) == b + Sum([]);
    var rest := ReadData(v, ino, pos + |d|, b);
    assert ReadInPieces(v, ino, pos + |d|, [b]) == rest + ReadInPieces(v, ino, pos + |d| + |rest|, []);
  }

  ghost function Occupant(v: Volume, ino: Inode, pos: nat, n: nat, x: nat): (p: nat)
    requires BlockSize(v.geo.blockSize) && Shaped(ino) && Occupies(v, ino, pos, n, x)
    ensures pos <= p < pos + n && Mapped(v, ino, p) && Place(v, ino, p) == x
  {
    var p: nat :| pos <= p < pos + n && Mapped(v, ino, p) && Place(v, ino, p) == x;
    p
  }

  lemma SameByte(v: Volume, ino: Inode, pos: nat, a: seq<Byte>, b: seq<Byte>, x: nat)
    requires Sound(v) && GoodFile(v, ino) && x < |v.store|
    requires var (v1, n) := WriteData(v, ino, pos, a);
      && (n == |a| || WriteData(v1, ino, pos + n, b).1 == 0)
      && WriteData(v, ino, pos, a + b).1 == n + WriteData(v1, ino, pos + n, b).1
    ensures var (v1, n) := WriteData(v, ino, pos, a);
      WriteData(v, ino, pos, a + b).0.store[x] == WriteData(v1, ino, pos + n, b).0.store[x]
  {
    hide WriteData, ReadData, Place, Mapped, InRange, Occupies;
    var (v1, n) := WriteData(v, ino, pos, a);
    var m := WriteData(v1, ino, pos + n, b).1;
    WriteExact(v, ino, pos, a);
    LayoutFacts(v, v1, ino);
    WriteExact(v1, ino, pos + n, b);
    WriteExact(v, ino, pos, a + b);
    if Occupies(v, ino, pos, n + m, x) {
      var p := Occupant(v, ino, pos, n + m, x);
      if p < pos + n {
        assert Mapped(v, ino, p);
        ApartFromLater(v, ino, p, pos + n, m);
      } else {
        assert Mapped(v1, ino, p);
      }
    } else {
      NarrowerRange(v, ino, pos, n, m, x);
    }
  }
}
