/** Open files over several reads and writes: the position moves so that the pieces join. */
module Ext2Sessions {
  import opened Basics
  import opened Ext2
  import opened Ext2Files
  import opened Ext2Code

  // ---- Reading ----

  /** Reads of the given lengths on descriptor `fd`, one after the other: the bytes delivered and the table of
      open files afterwards. A failing read ends the session. */
  ghost function ReadSession(v: Volume, fds: seq<Fd>, fd: int, lens: seq<nat>): (seq<Byte>, seq<Fd>)
    requires Sane(v.geo)
    decreases |lens|
  {
    if lens == [] || ReadOutcome(v, fds, fd, lens[0]) == None then ([], fds)
    else
      var d := ReadOutcome(v, fds, fd, lens[0]).value;
      var rest := ReadSession(v, Advanced(fds, fd, |d|), fd, lens[1..]);
      (d + rest.0, rest.1)
  }

  /** However a file is read, the bytes are those of the single large read from the first position, and the
      position ends behind them; nothing else in the table changes. */
  lemma {:induction false} ReadsJoinUp(v: Volume, fds: seq<Fd>, fd: int, lens: seq<nat>)
    requires Sane(v.geo) && 0 <= fd < |fds| && fds[fd].used && InodeOf(v, fds[fd].ino).Some?
    ensures var ino, pos := InodeOf(v, fds[fd].ino).value, fds[fd].pos;
            var all := ReadData(v, ino, pos, Sum(lens));
      && pos + |all| < WRAP
      && ReadSession(v, fds, fd, lens) == (all, fds[fd := Fd(true, fds[fd].ino, pos + |all|)])
    decreases |lens|
  {
    hide ReadData, InodeOf;
    var ino, pos := InodeOf(v, fds[fd].ino).value, fds[fd].pos;
    ReadEnds(v, ino, pos, Sum(lens));
    if lens == [] {
      ReadNothing(v, ino, pos, 0);
      assert fds[fd := fds[fd]] == fds;
    } else {
      var d := ReadData(v, ino, pos, lens[0]);
      ReadEnds(v, ino, pos, lens[0]);
      var next := Advanced(fds, fd, |d|);
      assert next == fds[fd := Fd(true, fds[fd].ino, pos + |d|)];
      ReadsJoinUp(v, next, fd, lens[1..]);
      TwoPieces(v, ino, pos, lens[0], Sum(lens[1..]));
      var all := ReadData(v, ino, pos, Sum(lens));
      assert next[fd := Fd(true, fds[fd].ino, pos + |all|)] == fds[fd := Fd(true, fds[fd].ino, pos + |all|)];
    }
  }

  // ---- Writing ----

  ghost function WriteSession(v: Volume, fds: seq<Fd>, fd: int, datas: seq<seq<Byte>>): (r: (Volume, nat, seq<Fd>))
    requires Sane(v.geo)
    ensures r.0.geo == v.geo
    decreases |datas|
  {
    if datas == [] then (v, 0, fds)
    else
      var (w, n) := WriteOutcome(v, fds, fd, datas[0]);
      if n < 0 then (v, 0, fds)
      else
        assert w.geo == v.geo;
        var rest := WriteSession(w, Advanced(fds, fd, n), fd, datas[1..]);
        (rest.0, n + rest.1, rest.2)
  }

  function Joined(datas: seq<seq<Byte>>): seq<Byte> {
    if datas == [] then [] else datas[0] + Joined(datas[1..])
  }

  /** The file behind an open descriptor is sound, and its record lies apart from its data. */
  ghost predicate Writable(v: Volume, num: Word) {
    && Sound(v) && HasInode(v.geo, num) && InodeOf(v, num).Some? && GoodFile(v, InodeOf(v, num).value)
    && RecordApart(v, num, InodeOf(v, num).value.block[..DIRECT_BLOCKS])
  }

  /** However a file is written, the volume is that after the single large write at the first position, and the
      descriptor's position ends behind it. */
  lemma {:induction false} WritesJoinUp(v: Volume, fds: seq<Fd>, fd: int, datas: seq<seq<Byte>>)
    requires 0 <= fd < |fds| && fds[fd].used && Writable(v, fds[fd].ino)
    ensures var ino, pos := InodeOf(v, fds[fd].ino).value, fds[fd].pos;
            var (w, n) := WriteData(v, ino, pos, Joined(datas));
      && pos + n < WRAP
      && WriteSession(v, fds, fd, datas) == (w, n, fds[fd := Fd(true, fds[fd].ino, pos + n)])
    decreases |datas|
  {
    hide WriteData, InodeOf, GoodFile, RecordApart;
    var num, pos := fds[fd].ino, fds[fd].pos;
    var ino := InodeOf(v, num).value;
    if datas == [] {
      WriteUnfold(v, ino, pos, []);
      assert fds[fd := fds[fd]] == fds;
    } else {
      var (w, n) := WriteData(v, ino, pos, datas[0]);
      WriteEnds(v, ino, pos, datas[0]);
      StillWritable(v, num, pos, datas[0]);
      var next := Advanced(fds, fd, n);
      assert next == fds[fd := Fd(true, num, pos + n)];
      WritesJoinUp(w, next, fd, datas[1..]);
      WritesConcatenate(v, ino, pos, datas[0], Joined(datas[1..]));
      var m := WriteData(v, ino, pos, Joined(datas)).1;
      assert next[fd := Fd(true, num, pos + m)] == fds[fd := Fd(true, num, pos + m)];
    }
  }

  lemma StillWritable(v: Volume, num: Word, pos: nat, data: seq<Byte>)
    requires Writable(v, num)
    ensures var w := WriteData(v, InodeOf(v, num).value, pos, data).0;
      Writable(w, num) && InodeOf(w, num) == InodeOf(v, num)
  {
    hide WriteData, InodeOf, RecordBlock;
    var ino := InodeOf(v, num).value;
    WriteKeepsInode(v, ino, pos, data, num);
    LayoutFacts(v, WriteData(v, ino, pos, data).0, ino);
  }
}
