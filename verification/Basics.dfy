/** Fixed-width numbers, optional values, and little-endian fields inside byte sequences. */
module Basics {
  type Byte = b: nat | b < 0x100
  type Half = h: nat | h < 0x1_0000
  type Word = w: nat | w < 0x1_0000_0000

  const WRAP := 0x1_0000_0000

  datatype Option<T> = None | Some(value: T)

  function U16(s: seq<Byte>, at: nat): (n: nat)
    requires at + 2 <= |s|
    ensures n < 0x1_0000
  {
    var lo: nat, hi: nat := s[at], s[at + 1];
    lo + 0x100 * hi
  }

  function U32(s: seq<Byte>, at: nat): Word
    requires at + 4 <= |s|
  {
    U16(s, at) + 0x1_0000 * U16(s, at + 2)
  }

  /** `s` with `data` copied over it from `at` on. */
  function Splice(s: seq<Byte>, at: nat, data: seq<Byte>): (r: seq<Byte>)
    requires at + |data| <= |s|
    ensures |r| == |s|
  {
    s[..at] + data + s[at + |data|..]
  }

  lemma SpliceBytes(s: seq<Byte>, at: nat, data: seq<Byte>)
    requires at + |data| <= |s|
    ensures forall i :: 0 <= i < |s| ==> Splice(s, at, data)[i] == if at <= i < at + |data| then data[i - at] else s[i]
  {
  }

  // ---- Writing fields ----

  function Le16(n: Half): (s: seq<Byte>)
    ensures |s| == 2
  {
    [n % 0x100, n / 0x100]
  }

  function Le32(w: Word): (s: seq<Byte>)
    ensures |s| == 4
  {
    Le16(w % 0x1_0000) + Le16(w / 0x1_0000)
  }

  function Zeros(n: nat): (s: seq<Byte>)
    ensures |s| == n
  {
    seq(n, _ => 0)
  }

  /** A field written between other bytes is read back. */
  lemma Field16(a: seq<Byte>, n: Half, b: seq<Byte>)
    ensures U16(a + Le16(n) + b, |a|) == n
  {
    var s := a + Le16(n) + b;
    assert s[|a|] == n % 0x100 && s[|a| + 1] == n / 0x100;
  }

  lemma Field32(a: seq<Byte>, w: Word, b: seq<Byte>)
    ensures U32(a + Le32(w) + b, |a|) == w
  {
    var lo, hi := w % 0x1_0000, w / 0x1_0000;
    assert a + Le32(w) + b == a + Le16(lo) + (Le16(hi) + b) == (a + Le16(lo)) + Le16(hi) + b;
    Field16(a, lo, Le16(hi) + b);
    Field16(a + Le16(lo), hi, b);
  }
}
