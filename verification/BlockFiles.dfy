/** Block files: a file is accepted exactly when it is tiled by frames of valid blocks. */
module BlockFiles {
  import opened Common
  import opened Hashing
  import LittleEndian
  import opened BitcoinReader
  import opened Formats
  import opened Blocks

  /** Blocks parsed one behind the other until the end of the file. */
  function FileFrom(hs: Hashes, v: seq<byte>, pos: nat, read: seq<Block>): Parse<seq<Block>>
    decreases |v| - pos
  {
    if pos >= |v| then Done(read, pos)
    else
      BlockExtent(hs, v, pos);
      var (block, next) :- BlockAt(hs, v, pos);
      FileFrom(hs, v, next, read + [block])
  }

  function FileOf(hs: Hashes, v: seq<byte>): Parse<seq<Block>> { FileFrom(hs, v, 0, []) }

  predicate AllFramed(hs: Hashes, ws: seq<WireBlock>) {
    forall i :: 0 <= i < |ws| ==> ws[i].Valid(hs)
  }

  function Frames(hs: Hashes, ws: seq<WireBlock>): seq<byte>
    requires AllFramed(hs, ws)
  {
    if ws == [] then [] else ws[0].Frame(hs) + Frames(hs, ws[1..])
  }

  function BlocksOf(hs: Hashes, ws: seq<WireBlock>): (blocks: seq<Block>)
    requires AllFramed(hs, ws)
    ensures |blocks| == |ws|
  {
    seq(|ws|, i requires 0 <= i < |ws| => ws[i].Meaning(hs))
  }

  lemma BlocksOfFirst(hs: Hashes, ws: seq<WireBlock>, read: seq<Block>)
    requires AllFramed(hs, ws) && ws != []
    ensures AllFramed(hs, ws[1..])
    ensures read + BlocksOf(hs, ws) == (read + [ws[0].Meaning(hs)]) + BlocksOf(hs, ws[1..])
  {
    hide WireBlock.Meaning, WireBlock.Valid;
  }

  lemma FirstFrameRead(hs: Hashes, v: seq<byte>, pos: nat, ws: seq<WireBlock>)
    requires AllFramed(hs, ws) && ws != [] && pos <= |v| && v[pos..] == Frames(hs, ws)
    ensures AllFramed(hs, ws[1..])
    ensures var next := pos + |ws[0].Frame(hs)|;
      && pos < next <= |v|
      && BlockAt(hs, v, pos) == Done(ws[0].Meaning(hs), next)
      && v[next..] == Frames(hs, ws[1..])
  {
    hide BlockAt, WireBlock.Frame, WireBlock.Valid, WireBlock.Meaning;
    FirstOfTwo(v, pos, ws[0].Frame(hs), Frames(hs, ws[1..]));
    hide Frames;
    FrameReads(hs, v, pos, ws[0]);
    FrameSize(hs, ws[0]);
  }

  lemma {:induction false} FramesAreRead(hs: Hashes, v: seq<byte>, pos: nat, ws: seq<WireBlock>, read: seq<Block>)
    requires AllFramed(hs, ws) && pos <= |v| && v[pos..] == Frames(hs, ws)
    ensures FileFrom(hs, v, pos, read) == Done(read + BlocksOf(hs, ws), |v|)
    decreases |ws|
  {
    hide BlockAt, WireBlock.Frame, WireBlock.Valid, WireBlock.Meaning;
    if ws == [] {
      assert read + BlocksOf(hs, ws) == read;
    } else {
      hide Frames, AllFramed, BlocksOf;
      FirstFrameRead(hs, v, pos, ws);
      BlocksOfFirst(hs, ws, read);
      FramesAreRead(hs, v, pos + |ws[0].Frame(hs)|, ws[1..], read + [ws[0].Meaning(hs)]);
    }
  }

  lemma FirstOfTwo(v: seq<byte>, pos: nat, a: seq<byte>, b: seq<byte>)
    requires pos <= |v| && v[pos..] == a + b
    ensures Holds(v, pos, a) && pos + |a| <= |v| && v[pos + |a|..] == b
  {
    assert v[pos..pos + |a|] == v[pos..][..|a|];
    assert v[pos + |a|..] == v[pos..][|a|..];
  }

  lemma {:induction false} ReadIsFramed(hs: Hashes, v: seq<byte>, pos: nat, read: seq<Block>)
    returns (ws: seq<WireBlock>)
    requires pos <= |v| && FileFrom(hs, v, pos, read).Done?
    ensures AllFramed(hs, ws) && v[pos..] == Frames(hs, ws)
    ensures FileFrom(hs, v, pos, read) == Done(read + BlocksOf(hs, ws), |v|)
    decreases |v| - pos
  {
    hide BlockAt, WireBlock.Frame, WireBlock.Valid, WireBlock.Meaning;
    if pos == |v| {
      ws := [];
      assert read + BlocksOf(hs, ws) == read;
    } else {
      BlockExtent(hs, v, pos);
      var w := FrameExplained(hs, v, pos);
      var next := pos + |w.Frame(hs)|;
      var rest := ReadIsFramed(hs, v, next, read + [w.Meaning(hs)]);
      ws := [w] + rest;
      assert ws[1..] == rest;
      assert v[pos..] == v[pos..next] + v[next..];
      BlocksOfFirst(hs, ws, read);
    }
  }

  /** A file is accepted with the given blocks if and only if it is, from the first byte to the last,
      the adjacent frames of valid blocks with these meanings. */
  lemma FileIsTiled(hs: Hashes, v: seq<byte>, blocks: seq<Block>)
    ensures FileOf(hs, v).Done? ==> FileOf(hs, v).next == |v|
    ensures FileOf(hs, v) == Done(blocks, |v|) <==>
      exists ws: seq<WireBlock> :: AllFramed(hs, ws) && v == Frames(hs, ws) && blocks == BlocksOf(hs, ws)
  {
    hide FileFrom, AllFramed, Frames, BlocksOf;
    assert v[0..] == v;
    if FileOf(hs, v).Done? {
      var ws := ReadIsFramed(hs, v, 0, []);
      assert [] + BlocksOf(hs, ws) == BlocksOf(hs, ws);
    }
    forall ws: seq<WireBlock> | AllFramed(hs, ws) && v == Frames(hs, ws) && blocks == BlocksOf(hs, ws)
      ensures FileOf(hs, v) == Done(blocks, |v|)
    {
      FramesAreRead(hs, v, 0, ws, []);
      assert [] + blocks == blocks;
    }
  }

  /** Where block i of the file starts. */
  function Offset(hs: Hashes, ws: seq<WireBlock>, i: nat): nat
    requires AllFramed(hs, ws) && i <= |ws|
  {
    if i == 0 then 0 else Offset(hs, ws, i - 1) + 8 + |ws[i - 1].Body(hs)|
  }

  lemma {:induction false} FramesFrom(hs: Hashes, ws: seq<WireBlock>, i: nat)
    requires AllFramed(hs, ws) && i <= |ws|
    ensures Offset(hs, ws, i) <= |Frames(hs, ws)|
    ensures Frames(hs, ws)[Offset(hs, ws, i)..] == Frames(hs, ws[i..])
  {
    hide WireBlock.Frame, WireBlock.Body, WireBlock.Valid;
    if i == 0 {
      assert ws[0..] == ws;
    } else {
      FramesFrom(hs, ws, i - 1);
      FramesUncons(hs, ws, i - 1);
      FrameSize(hs, ws[i - 1]);
      hide Frames;
      FirstOfTwo(Frames(hs, ws), Offset(hs, ws, i - 1), ws[i - 1].Frame(hs), Frames(hs, ws[i..]));
    }
  }

  lemma FramesUncons(hs: Hashes, ws: seq<WireBlock>, i: nat)
    requires AllFramed(hs, ws) && i < |ws|
    ensures Frames(hs, ws[i..]) == ws[i].Frame(hs) + Frames(hs, ws[i + 1..])
  {
    assert ws[i..][0] == ws[i] && ws[i..][1..] == ws[i + 1..];
  }

  /** At the position stand the mainnet magic, the size of the block's body, and that body. */
  ghost predicate FrameStandsAt(hs: Hashes, v: seq<byte>, at: nat, w: WireBlock) {
    && Holds(v, at, [0xF9, 0xBE, 0xB4, 0xD9])
    && UintAt(v, at + 4, 4) == Done(|w.Body(hs)|, at + 8)
    && 0 < |w.Body(hs)| <= 104857600
    && Holds(v, at + 8, w.Body(hs))
  }

  /** The frames are adjacent: each starts where the one before it ends, and the last one ends at the
      end of the file. */
  lemma FramesAreAdjacent(hs: Hashes, v: seq<byte>) returns (ws: seq<WireBlock>)
    requires FileOf(hs, v).Done?
    ensures AllFramed(hs, ws) && FileOf(hs, v).value == BlocksOf(hs, ws)
    ensures Offset(hs, ws, |ws|) == |v| >= 89 * |ws|
    ensures forall i :: 0 <= i < |ws| ==> FrameStandsAt(hs, v, Offset(hs, ws, i), ws[i])
  {
    hide FileFrom, WireBlock.Frame, WireBlock.Body, WireBlock.Valid, WireBlock.Meaning, FrameStandsAt, Offset;
    ws := ReadIsFramed(hs, v, 0, []);
    assert [] + BlocksOf(hs, ws) == BlocksOf(hs, ws);
    assert v[0..] == v;
    forall i | 0 <= i < |ws| ensures FrameStandsAt(hs, v, Offset(hs, ws, i), ws[i]) {
      FramesFrom(hs, ws, i);
      FirstFrameStands(hs, v, Offset(hs, ws, i), ws[i..]);
    }
    FramesFrom(hs, ws, |ws|);
    OffsetGrows(hs, ws, |ws|);
    assert Frames(hs, ws[|ws|..]) == [];
  }

  lemma FirstFrameStands(hs: Hashes, v: seq<byte>, at: nat, ws: seq<WireBlock>)
    requires AllFramed(hs, ws) && ws != []
    requires at <= |v| && v[at..] == Frames(hs, ws)
    ensures FrameStandsAt(hs, v, at, ws[0])
  {
    hide WireBlock.Body, LittleEndian.LeBytes, UintAt;
    var w := ws[0];
    FrameSize(hs, w);
    var body := w.Body(hs);
    var magic, size := [0xF9, 0xBE, 0xB4, 0xD9], LittleEndian.LeBytes(|body|, 4);
    assert v[at..at + |w.Frame(hs)|] == v[at..][..|w.Frame(hs)|];
    HoldsSplit(v, at, magic, size + body);
    HoldsSplit(v, at + 4, size, body);
    LittleEndian.Widths();
    UintAtReads(v, at + 4, |body|, 4);
  }

  lemma {:induction false} OffsetGrows(hs: Hashes, ws: seq<WireBlock>, i: nat)
    requires AllFramed(hs, ws) && i <= |ws|
    ensures Offset(hs, ws, i) >= 89 * i
  {
    hide WireBlock.Body, WireBlock.Frame, WireBlock.Valid;
    if i > 0 {
      OffsetGrows(hs, ws, i - 1);
      FrameSize(hs, ws[i - 1]);
    }
  }

  // Truncated files.

  /** Where a prefix of a file has a frame, the file has one of the same size. */
  lemma FrameInPrefix(hs: Hashes, v: seq<byte>, cut: nat, at: nat, ws: seq<WireBlock>, us: seq<WireBlock>)
    requires AllFramed(hs, ws) && AllFramed(hs, us) && us != []
    requires at <= cut <= |v| && v[at..] == Frames(hs, ws) && v[..cut][at..] == Frames(hs, us)
    ensures ws != [] && |ws[0].Body(hs)| == |us[0].Body(hs)|
  {
    hide WireBlock.Body, WireBlock.Frame, UintAt;
    FirstFrameStands(hs, v[..cut], at, us);
    SameNumber(v, cut, at + 4);
    FrameSize(hs, us[0]);
    if ws != [] {
      FirstFrameStands(hs, v, at, ws);
    }
  }

  lemma SameNumber(v: seq<byte>, cut: nat, at: nat)
    requires cut <= |v|
    ensures UintAt(v[..cut], at, 4).Done? ==> UintAt(v[..cut], at, 4) == UintAt(v, at, 4)
  {
    if at + 4 <= cut {
      assert v[..cut][at..at + 4] == v[at..at + 4];
    }
  }

  /** The frames of a file and of a prefix of it lie at the same offsets. */
  lemma {:induction false} SameOffsets(hs: Hashes, v: seq<byte>, cut: nat,
                                       ws: seq<WireBlock>, us: seq<WireBlock>, i: nat)
    requires AllFramed(hs, ws) && AllFramed(hs, us) && cut <= |v|
    requires v == Frames(hs, ws) && v[..cut] == Frames(hs, us)
    requires i <= |us|
    ensures i <= |ws| && Offset(hs, ws, i) == Offset(hs, us, i)
  {
    hide WireBlock.Body, WireBlock.Valid, Frames;
    if i > 0 {
      SameOffsets(hs, v, cut, ws, us, i - 1);
      FramesFrom(hs, us, i - 1);
      FramesFrom(hs, ws, i - 1);
      FrameInPrefix(hs, v, cut, Offset(hs, us, i - 1), ws[i - 1..], us[i - 1..]);
    }
  }

  /** Cutting an accepted file off between two frames leaves the blocks before the cut; cutting it off
      anywhere else makes the parse fail with the reading error. */
  lemma TruncationExactly(hs: Hashes, ws: seq<WireBlock>, cut: nat)
    requires AllFramed(hs, ws)
    ensures var v := Frames(hs, ws);
      cut <= |v| ==>
      var r := FileOf(hs, v[..cut]);
      && (r.Done? <==> exists k: nat :: k <= |ws| && cut == Offset(hs, ws, k))
      && (forall k: nat :: k <= |ws| && cut == Offset(hs, ws, k) ==> r == Done(BlocksOf(hs, ws[..k]), cut))
      && (r.Fail? ==> r.error == FileReadingFailure)
  {
    hide FileFrom, Frames, BlocksOf, Offset, WireBlock.Valid;
    var v := Frames(hs, ws);
    if cut <= |v| {
      assert v[..cut][0..] == v[..cut];
      if FileOf(hs, v[..cut]).Done? {
        var us := ReadIsFramed(hs, v[..cut], 0, []);
        SameOffsets(hs, v, cut, ws, us, |us|);
        WholeFile(hs, us);
      }
      forall k: nat | k <= |ws| && cut == Offset(hs, ws, k)
        ensures FileOf(hs, v[..cut]) == Done(BlocksOf(hs, ws[..k]), cut)
      {
        FramesTo(hs, ws, k);
        FramesAreRead(hs, v[..cut], 0, ws[..k], []);
        assert [] + BlocksOf(hs, ws[..k]) == BlocksOf(hs, ws[..k]);
      }
      assert v[0..] == v;
      PrefixFails(hs, v, cut, 0, ws, []);
    }
  }

  /** Within a file of frames, a parse of a prefix only fails by reaching its end. */
  lemma {:induction false} PrefixFails(hs: Hashes, v: seq<byte>, cut: nat, pos: nat, ws: seq<WireBlock>,
                                       read: seq<Block>)
    requires AllFramed(hs, ws) && pos <= |v| && cut <= |v| && v[pos..] == Frames(hs, ws)
    ensures var r := FileFrom(hs, v[..cut], pos, read); r.Fail? ==> r.error == FileReadingFailure
    decreases |ws|
  {
    hide BlockAt, WireBlock.Frame, WireBlock.Body, WireBlock.Valid, WireBlock.Meaning;
    if pos < cut {
      var w, rest := ws[0], ws[1..];
      FirstOfTwo(v, pos, w.Frame(hs), Frames(hs, rest));
      FrameReads(hs, v, pos, w);
      BlockTruncated(hs, v, pos, cut);
      if BlockAt(hs, v[..cut], pos).Done? {
        BlockExtent(hs, v[..cut], pos);
        PrefixFails(hs, v, cut, pos + |w.Frame(hs)|, rest, read + [w.Meaning(hs)]);
      }
    }
  }

  lemma WholeFile(hs: Hashes, ws: seq<WireBlock>)
    requires AllFramed(hs, ws)
    ensures Offset(hs, ws, |ws|) == |Frames(hs, ws)|
  {
    hide WireBlock.Frame, WireBlock.Body, WireBlock.Valid, Offset;
    FramesFrom(hs, ws, |ws|);
    assert Frames(hs, ws[|ws|..]) == [];
  }

  lemma {:induction false} FramesTo(hs: Hashes, ws: seq<WireBlock>, k: nat)
    requires AllFramed(hs, ws) && k <= |ws|
    ensures AllFramed(hs, ws[..k])
    ensures Offset(hs, ws, k) <= |Frames(hs, ws)| && Frames(hs, ws)[..Offset(hs, ws, k)] == Frames(hs, ws[..k])
  {
    hide WireBlock.Frame, WireBlock.Body, WireBlock.Valid;
    FramesFrom(hs, ws, k);
    FramesConcat(hs, ws[..k], ws[k..]);
    assert ws == ws[..k] + ws[k..];
    var all, front := Frames(hs, ws), Frames(hs, ws[..k]);
    assert |front| == Offset(hs, ws, k);
    assert all[..|front|] == front;
  }

  lemma {:induction false} FramesConcat(hs: Hashes, us: seq<WireBlock>, ws: seq<WireBlock>)
    requires AllFramed(hs, us) && AllFramed(hs, ws)
    ensures Frames(hs, us + ws) == Frames(hs, us) + Frames(hs, ws)
    decreases |us|
  {
    hide WireBlock.Frame, WireBlock.Body, WireBlock.Valid;
    if us == [] {
      assert us + ws == ws;
    } else {
      assert (us + ws)[1..] == us[1..] + ws;
      FramesConcat(hs, us[1..], ws);
    }
  }
}
