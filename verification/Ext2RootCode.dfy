/** Listing the root directory, looking names up in it and opening files. */
module Ext2RootCode {
  import opened Basics
  import opened Ext2
  import opened Ext2Root
  import opened Ext2Code

  /** The root's record and blocks are safe to ask for and its live names lie inside their records. */
  ghost predicate RootSafe(v: Volume)
    requires Sane(v.geo)
  {
    && RecordSafe(v, ROOT_INODE)
    && (InodeOf(v, ROOT_INODE).Some? ==>
          var root := InodeOf(v, ROOT_INODE).value;
          FileSafe(v, root) && TidyBlocks(v, root.block[..DIRECT_BLOCKS]))
  }

  /** The root directory's entries, if its inode can be read. */
  ghost function RootEntries(v: Volume): Option<seq<Entry>>
    requires Sane(v.geo) && RootSafe(v)
  {
    match InodeOf(v, 2) case None => None case Some(root) => Some(Directory(v, root.block[..12]))
  }

  /** ext2_list. */
  method List(fs: FileSystem, out: array<Byte>, len: nat) returns (n: int)
    requires fs.Valid() && (fs.Mounted() ==> RootSafe(fs.View()))
    requires len <= out.Length && out != fs.disk && out != fs.cache && out != fs.img
    modifies fs`cacheNum, fs.cache, out
    ensures fs.Valid() && fs.View() == old(fs.View())
    ensures !fs.Mounted() || RootEntries(fs.View()) == None ==> n == -1
    ensures fs.Mounted() && RootEntries(fs.View()).Some? ==>
      && 0 <= n <= len && out[..n] == PrintAll([], RootEntries(fs.View()).value, len)
  {
    hide Start, BlockOf, Readable, InodeOf, Entries, Tidy, PrintAll;
    if !fs.Mounted() { return -1; }
    ghost var v := fs.View();
    var root := fs.ReadInode(ROOT_INODE);
    if root == None { return -1; }
    var blocks := root.value.block[..DIRECT_BLOCKS];
    ghost var all := Directory(v, blocks);
    n := 0;
    assert blocks[0..] == blocks && out[..0] == [];
    for i := 0 to |blocks|
      invariant fs.Valid() && fs.View() == v && 0 <= n <= len
      invariant TidyBlocks(v, blocks[i..])
      invariant PrintAll([], all, len) == PrintAll(out[..n], Directory(v, blocks[i..]), len)
    {
      var blk := blocks[i];
      assert blocks[i..][1..] == blocks[i + 1..] && blocks[i..][0] == blk;
      var data, at := fs.GetBlock(blk);
      if data != null {
        var b := data[at..at + fs.blockSize];
        PrintConcat(out[..n], Entries(b, 0), Directory(v, blocks[i + 1..]), len);
        n := ListBlock(b, out, n, len);
      } else {
        assert [] + Directory(v, blocks[i + 1..]) == Directory(v, blocks[i + 1..]);
      }
    }
    PrintNothing(out[..n], len);
  }

  /** The entries of one block; a block number 0 is skipped like one that cannot be read. */
  method ListBlock(b: seq<Byte>, out: array<Byte>, start: nat, len: nat) returns (n: nat)
    requires Tidy(b, 0) && start <= len <= out.Length
    modifies out
    ensures n <= len && out[..n] == PrintAll(old(out[..start]), Entries(b, 0), len)
  {
    hide Entries, PrintAll, Printed, Live, RecordLength, NameLength;
    n := start;
    var off := 0;
    while off + 8 <= |b|
      invariant n <= len && off <= |b| && Tidy(b, off)
      invariant PrintAll(old(out[..start]), Entries(b, 0), len) == PrintAll(out[..n], Entries(b, off), len)
      decreases |b| - off
    {
      if RecordLength(b, off) < 8 || RecordLength(b, off) > |b| - off { break; }
      EntriesStep(b, off);
      if Live(b, off) {
        PrintFirst(out[..n], EntryAt(b, off), Entries(b, off + RecordLength(b, off)), len);
        n := PrintName(b[off + 8..off + 8 + NameLength(b, off)], U32(b, off), out, n, len);
      }
      off := off + RecordLength(b, off);
    }
    EntriesEnd(b, off);
    PrintNothing(out[..n], len);
  }

  lemma EntriesStep(b: seq<Byte>, off: nat)
    requires Tidy(b, off) && !Ends(b, off)
    ensures Live(b, off) ==> off + 8 + NameLength(b, off) <= |b|
    ensures Tidy(b, off + RecordLength(b, off))
    ensures var rest := Entries(b, off + RecordLength(b, off));
      Entries(b, off) == if Live(b, off) then [EntryAt(b, off)] + rest else rest
  {
  }

  lemma EntriesEnd(b: seq<Byte>, off: nat)
    requires Tidy(b, off) && Ends(b, off)
    ensures Entries(b, off) == []
  {
  }

  lemma PrintFirst(t: seq<Byte>, e: Entry, rest: seq<Entry>, len: nat)
    requires |t| <= len
    ensures PrintAll(t, [e] + rest, len) == PrintAll(Printed(t, e, len), rest, len)
  {
    assert ([e] + rest)[0] == e && ([e] + rest)[1..] == rest;
  }

  lemma PrintNothing(t: seq<Byte>, len: nat)
    requires |t| <= len
    ensures PrintAll(t, [], len) == t
  {
  }

  /** One name and its newline. */
  method PrintName(name: seq<Byte>, ghost ino: Word, out: array<Byte>, start: nat, len: nat) returns (n: nat)
    requires start <= len <= out.Length
    modifies out
    ensures n <= len && out[..n] == Printed(old(out[..start]), Entry(ino, name), len)
  {
    n := start;
    var j := 0;
    while j < |name| && n + 1 < len
      invariant j <= |name| && n == start + j && n <= len && (j > 0 ==> n < len)
      invariant out[..n] == old(out[..start]) + name[..j]
    {
      out[n] := name[j];
      assert out[..n + 1] == out[..n] + [name[j]];
      assert name[..j + 1] == name[..j] + [name[j]];
      n, j := n + 1, j + 1;
    }
    if n < len {
      out[n] := NEWLINE;
      n := n + 1;
      assert out[..n] == old(out[..start]) + name[..j] + [NEWLINE];
    }
  }

  /** lookup_in_root. */
  method LookupInRoot(fs: FileSystem, name: seq<Byte>) returns (r: Option<Word>)
    requires fs.Valid() && fs.Mounted() && RootSafe(fs.View())
    modifies fs`cacheNum, fs.cache
    ensures fs.Valid() && fs.View() == old(fs.View())
    ensures r == if RootEntries(fs.View()).Some? then Find(RootEntries(fs.View()).value, name) else None
  {
    hide Start, BlockOf, Readable, InodeOf, Entries, Tidy, Find;
    ghost var v := fs.View();
    var root := fs.ReadInode(ROOT_INODE);
    if root == None { return None; }
    var blocks := root.value.block[..DIRECT_BLOCKS];
    ghost var all := Directory(v, blocks);
    assert blocks[0..] == blocks;
    for i := 0 to |blocks|
      invariant fs.Valid() && fs.View() == v && TidyBlocks(v, blocks[i..])
      invariant Find(all, name) == Find(Directory(v, blocks[i..]), name)
    {
      var blk := blocks[i];
      assert blocks[i..][1..] == blocks[i + 1..] && blocks[i..][0] == blk;
      var data, at := fs.GetBlock(blk);
      if data != null {
        var b := data[at..at + fs.blockSize];
        FindConcat(Entries(b, 0), Directory(v, blocks[i + 1..]), name);
        var found := LookupInBlock(b, name);
        if found.Some? { return found; }
      } else {
        assert [] + Directory(v, blocks[i + 1..]) == Directory(v, blocks[i + 1..]);
      }
    }
    FindNowhere(name);
    return None;
  }

  lemma FindNowhere(name: seq<Byte>)
    ensures Find([], name) == None
  {
  }

  method LookupInBlock(b: seq<Byte>, name: seq<Byte>) returns (r: Option<Word>)
    requires Tidy(b, 0)
    ensures r == Find(Entries(b, 0), name)
  {
    var off := 0;
    while off + 8 <= |b|
      invariant Tidy(b, off) && Find(Entries(b, 0), name) == Find(Entries(b, off), name)
      decreases |b| - off
    {
      if RecordLength(b, off) < 8 || RecordLength(b, off) > |b| - off { break; }
      if Live(b, off) {
        assert Entries(b, off) == [EntryAt(b, off)] + Entries(b, off + RecordLength(b, off));
        if NameLength(b, off) == |name| && b[off + 8..off + 8 + NameLength(b, off)] == name {
          return Some(U32(b, off));
        }
      } else {
        assert Entries(b, off) == Entries(b, off + RecordLength(b, off));
      }
      off := off + RecordLength(b, off);
    }
    return None;
  }

  // ---- Opening ----

  const SLASH: Byte := 0x2F
  const BACKSLASH: Byte := 0x5C

  predicate Separator(c: Byte) {
    c == SLASH || c == BACKSLASH
  }

  /** What follows the last separator of a path. */
  ghost predicate IsBasename(path: seq<Byte>, base: seq<Byte>) {
    && |base| <= |path| && path[|path| - |base|..] == base
    && (forall i :: 0 <= i < |base| ==> !Separator(base[i]))
    && (|base| < |path| ==> Separator(path[|path| - |base| - 1]))
  }

  /** Both kinds of slash separate, and nothing else does. */
  lemma BasenameOfJoin(dir: seq<Byte>, base: seq<Byte>)
    requires 0x2F !in base && 0x5C !in base
    ensures IsBasename(dir + [0x2F] + base, base) && IsBasename(dir + [0x5C] + base, base) && IsBasename(base, base)
  {
  }

  lemma BasenameUnique(path: seq<Byte>, a: seq<Byte>, b: seq<Byte>)
    requires IsBasename(path, a) && IsBasename(path, b)
    ensures a == b
  {
    Shorter(path, a, b);
    Shorter(path, b, a);
  }

  lemma Shorter(path: seq<Byte>, a: seq<Byte>, b: seq<Byte>)
    requires IsBasename(path, a) && IsBasename(path, b)
    ensures |a| >= |b|
  {
    var start := |path| - |b|;
    assert forall j :: start <= j < |path| ==> path[j] == path[start..][j - start];
  }

  /** path_basename: an empty path is refused. */
  method PathBasename(path: seq<Byte>) returns (base: Option<seq<Byte>>)
    ensures base == None <==> path == []
    ensures base.Some? ==> IsBasename(path, base.value)
  {
    if path == [] { return None; }
    var last := 0;
    for p := 0 to |path|
      invariant last <= p && (forall i :: last <= i < p ==> !Separator(path[i]))
      invariant (last > 0 ==> Separator(path[last - 1]))
    {
      if Separator(path[p]) { last := p + 1; }
    }
    return Some(path[last..]);
  }

  /** The first unused descriptor from `fd` on, or -1. */
  function FreeFd(fds: seq<Fd>, fd: nat): (r: int)
    ensures r == -1 ==> forall j :: fd <= j < |fds| ==> fds[j].used
    ensures r != -1 ==> fd <= r < |fds| && !fds[r].used && forall j :: fd <= j < r ==> fds[j].used
    decreases |fds| - fd
  {
    if fd >= |fds| then -1 else if !fds[fd].used then fd else FreeFd(fds, fd + 1)
  }

  predicate IsDirectory(ino: Inode) {
    ino.mode / 0x1000 % 16 == 4
  }

  /** The inode that opening `base` leads to: the first root entry of the name, unless it is a directory. */
  ghost function Openable(v: Volume, base: seq<Byte>): Option<Word>
    requires Sane(v.geo) && RootSafe(v)
  {
    match RootEntries(v)
    case None => None
    case Some(es) =>
      match Find(es, base)
      case None => None
      case Some(num) =>
        if InodeOf(v, num).Some? && !IsDirectory(InodeOf(v, num).value) then Some(num) else None
  }

  ghost predicate EntriesSafe(v: Volume)
    requires Sane(v.geo)
  {
    && RootSafe(v)
    && (RootEntries(v).Some? ==>
          forall k :: 0 <= k < |RootEntries(v).value| ==> RecordSafe(v, RootEntries(v).value[k].ino))
  }

  /** ext2_open: descriptors 0, 1 and 2 are never given out. */
  method Open(fs: FileSystem, path: seq<Byte>) returns (fd: int)
    requires fs.Valid() && (fs.Mounted() ==> EntriesSafe(fs.View()))
    modifies fs`cacheNum, fs.cache, fs.fds
    ensures fs.Valid() && fs.View() == old(fs.View())
    ensures fd == -1 ==>
      && fs.fds[..] == old(fs.fds[..])
      && (!fs.Mounted() || path == [] || FreeFd(old(fs.fds[..]), 3) == -1
          || forall base :: IsBasename(path, base) ==> Openable(fs.View(), base) == None)
    ensures fd != -1 ==>
      && fs.Mounted() && 3 <= fd < 16 && fd == FreeFd(old(fs.fds[..]), 3)
      && exists base :: IsBasename(path, base) && Openable(fs.View(), base).Some?
                        && fs.fds[..] == old(fs.fds[..])[fd := Fd(true, Openable(fs.View(), base).value, 0)]
  {
    hide RootEntries, InodeOf, RecordSafe, Find;
    if !fs.Mounted() { return -1; }
    var base := PathBasename(path);
    if base == None { return -1; }
    forall other | IsBasename(path, other) ensures other == base.value {
      BasenameUnique(path, base.value, other);
    }
    var num := LookupInRoot(fs, base.value);
    if num == None { return -1; }
    FoundSafe(fs.View(), base.value);
    var ino := fs.ReadInode(num.value);
    if ino == None { return -1; }
    if IsDirectory(ino.value) { return -1; }
    assert Openable(fs.View(), base.value) == num;
    fd := FIRST_FD;
    while fd < MAX_FD
      invariant FIRST_FD <= fd <= MAX_FD && FreeFd(old(fs.fds[..]), FIRST_FD) == FreeFd(old(fs.fds[..]), fd)
      invariant fs.fds[..] == old(fs.fds[..])
    {
      if !fs.fds[fd].used {
        fs.fds[fd] := Fd(true, num.value, 0);
        return;
      }
      fd := fd + 1;
    }
    return -1;
  }

  lemma FoundSafe(v: Volume, name: seq<Byte>)
    requires Sane(v.geo) && EntriesSafe(v) && RootEntries(v).Some? && Find(RootEntries(v).value, name).Some?
    ensures RecordSafe(v, Find(RootEntries(v).value, name).value)
  {
    hide RootEntries, RecordSafe, Find;
    FindFirst(RootEntries(v).value, name);
  }
}
