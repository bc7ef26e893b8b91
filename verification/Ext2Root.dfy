/** The root directory: what is listed is what can be looked up. */
module Ext2Root {
  import opened Basics
  import opened Ext2
  import opened Ext2Files

  // ---- Lookup ----

  /** Lookup returns the inode of the first entry with the name, and fails exactly when there is none. */
  lemma {:induction false} FindFirst(es: seq<Entry>, name: seq<Byte>)
    ensures Find(es, name) == None <==> forall k :: 0 <= k < |es| ==> es[k].name != name
    ensures Find(es, name).Some? ==>
      exists k :: 0 <= k < |es| && es[k].name == name && Find(es, name) == Some(es[k].ino)
                  && forall j :: 0 <= j < k ==> es[j].name != name
  {
    if es != [] && es[0].name != name {
      FindFirst(es[1..], name);
      assert forall k :: 0 <= k < |es[1..]| ==> es[1..][k] == es[k + 1];
      if Find(es[1..], name).Some? {
        var k :| 0 <= k < |es[1..]| && es[1..][k].name == name && Find(es[1..], name) == Some(es[1..][k].ino)
                 && forall j :: 0 <= j < k ==> es[1..][j].name != name;
        assert es[k + 1].name == name;
        forall j | 0 <= j < k + 1 ensures es[j].name != name {
          if j > 0 { assert es[j] == es[1..][j - 1]; }
        }
      }
    }
  }

  lemma {:induction false} FindConcat(a: seq<Entry>, b: seq<Entry>, name: seq<Byte>)
    ensures Find(a + b, name) == if Find(a, name).Some? then Find(a, name) else Find(b, name)
  {
    if a == [] {
      assert a + b == b;
    } else {
      FindConcat(a[1..], b, name);
      assert (a + b)[1..] == a[1..] + b;
    }
  }

  // ---- Listing ----

  /** Every name, in order, each followed by a newline. */
  function Text(es: seq<Entry>): seq<Byte> {
    if es == [] then [] else es[0].name + [NEWLINE] + Text(es[1..])
  }

  /** A listing is complete exactly when all names and newlines fit. */
  lemma ListingComplete(es: seq<Entry>, len: nat)
    ensures PrintAll([], es, len) == Text(es) <==> |Text(es)| <= len
  {
    if |Text(es)| <= len {
      PrintsText([], es, len);
      assert [] + Text(es) == Text(es);
    }
  }

  /** What is printed in any case: the whole text if it fits, and otherwise as much of it as leaves room for a
      newline at the very end. */
  lemma ListingExact(es: seq<Entry>, len: nat)
    ensures PrintAll([], es, len) ==
      if |Text(es)| <= len then Text(es) else if len == 0 then [] else Text(es)[..len - 1] + [10]
  {
    PrintsCut([], es, len);
    assert [] + Text(es) == Text(es);
  }

  lemma {:induction false} PrintsCut(out: seq<Byte>, es: seq<Entry>, len: nat)
    requires |out| <= len
    ensures PrintAll(out, es, len) ==
      var all := out + Text(es);
      if |all| <= len then all else if |out| == len then out else all[..len - 1] + [10]
    decreases |es|
  {
    if es == [] {
      assert out + [] == out;
    } else {
      var e := es[0];
      PrintsCut(Printed(out, e, len), es[1..], len);
      var all := out + Text(es);
      if |out| + |e.name| + 1 <= len {
        assert e.name[..|e.name|] == e.name;
        assert all == out + e.name + [NEWLINE] + Text(es[1..]);
      } else if |out| < len {
        assert all[..len - 1] == out + e.name[..len - 1 - |out|];
      }
    }
  }

  lemma {:induction false} PrintsText(out: seq<Byte>, es: seq<Entry>, len: nat)
    requires |out| + |Text(es)| <= len
    ensures PrintAll(out, es, len) == out + Text(es)
    decreases |es|
  {
    if es != [] {
      var e := es[0];
      assert |e.name| + 1 + |Text(es[1..])| == |Text(es)|;
      assert e.name[..|e.name|] == e.name;
      assert Printed(out, e, len) == out + e.name + [NEWLINE];
      PrintsText(out + e.name + [NEWLINE], es[1..], len);
      assert out + e.name + [NEWLINE] + Text(es[1..]) == out + Text(es);
    } else {
      assert out + [] == out;
    }
  }

  lemma {:induction false} PrintConcat(out: seq<Byte>, a: seq<Entry>, b: seq<Entry>, len: nat)
    requires |out| <= len
    ensures PrintAll(out, a + b, len) == PrintAll(PrintAll(out, a, len), b, len)
    decreases |a|
  {
    hide Printed;
    if a == [] {
      assert a + b == b;
    } else {
      PrintConcat(Printed(out, a[0], len), a[1..], b, len);
      assert (a + b)[0] == a[0] && (a + b)[1..] == a[1..] + b;
    }
  }

  /** Line `k` of a text: what stands between the newlines. */
  function Lines(t: seq<Byte>, line: seq<Byte>): seq<seq<Byte>>
    decreases |t|
  {
    if t == [] then [] else if t[0] == 10 then [line] + Lines(t[1..], []) else Lines(t[1..], line + [t[0]])
  }

  lemma {:induction false} LinesOfName(name: seq<Byte>, line: seq<Byte>, rest: seq<Byte>)
    requires NEWLINE !in name
    ensures Lines(name + [NEWLINE] + rest, line) == [line + name] + Lines(rest, [])
    decreases |name|
  {
    var t := name + [NEWLINE] + rest;
    if name == [] {
      assert t == [NEWLINE] + rest && t[1..] == rest && line + name == line;
    } else {
      assert t[1..] == name[1..] + [NEWLINE] + rest;
      LinesOfName(name[1..], line + [name[0]], rest);
      assert line + [name[0]] + name[1..] == line + name;
    }
  }

  /** Reading the complete listing back line by line gives the entries' names, so a name can be opened
      exactly when it is one of the listing's lines. */
  lemma {:induction false} ListingNames(es: seq<Entry>)
    requires forall k :: 0 <= k < |es| ==> NEWLINE !in es[k].name
    ensures |Lines(Text(es), [])| == |es|
    ensures forall k :: 0 <= k < |es| ==> Lines(Text(es), [])[k] == es[k].name
  {
    if es != [] {
      LinesOfName(es[0].name, [], Text(es[1..]));
      assert [] + es[0].name == es[0].name;
      ListingNames(es[1..]);
      forall k | 0 <= k < |es| ensures Lines(Text(es), [])[k] == es[k].name {
        if k > 0 { assert es[k] == es[1..][k - 1]; }
      }
    }
  }

  lemma ListedIsFound(es: seq<Entry>, len: nat, name: seq<Byte>)
    requires forall k :: 0 <= k < |es| ==> NEWLINE !in es[k].name
    requires |Text(es)| <= len
    ensures Find(es, name).Some? <==> name in Lines(PrintAll([], es, len), [])
  {
    ListingComplete(es, len);
    ListingNames(es);
    FindFirst(es, name);
    var ls := Lines(PrintAll([], es, len), []);
    if name in ls {
      var k :| 0 <= k < |ls| && ls[k] == name;
      assert es[k].name == name;
    }
    if Find(es, name).Some? {
      var k :| 0 <= k < |es| && es[k].name == name;
      assert ls[k] == name;
    }
  }

  // ---- Writes elsewhere ----

  /** Writing to a file whose blocks are none of the directory's leaves the directory as it was. */
  lemma {:induction false} WriteKeepsDirectory(v: Volume, ino: Inode, pos: nat, data: seq<Byte>, blocks: seq<Word>)
    requires Sound(v) && GoodFile(v, ino) && TidyBlocks(v, blocks)
    requires forall i :: 0 <= i < |blocks| ==>
      blocks[i] == 0 || (InRange(v, blocks[i]) && blocks[i] !in ino.block[..DIRECT_BLOCKS])
    ensures var w := WriteData(v, ino, pos, data).0;
      TidyBlocks(w, blocks) && Directory(w, blocks) == Directory(v, blocks)
  {
    hide WriteData, InRange, Tidy, Entries, BlockOf, Start;
    var w := WriteData(v, ino, pos, data).0;
    forall i | 0 <= i < |blocks|
      ensures Readable(w, blocks[i]) <==> Readable(v, blocks[i])
      ensures Readable(v, blocks[i]) ==> BlockOf(w, blocks[i]) == BlockOf(v, blocks[i])
    {
      if blocks[i] != 0 { WriteKeepsBlock(v, ino, pos, data, blocks[i]); }
    }
    if blocks != [] { WriteKeepsDirectory(v, ino, pos, data, blocks[1..]); }
  }
}
