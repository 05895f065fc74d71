/** Which bytes make the parse of a block or of a block file fail, and with which error. */
module BlockFailures {
  import opened Common
  import opened Hashing
  import opened LittleEndian
  import opened BitcoinReader
  import opened Formats
  import opened Transactions
  import opened TransactionRoundTrip
  import opened TransactionProperties
  import opened Blocks
  import opened BlockFiles

  // The two numbers of a frame, byte by byte.

  function LittleEndianNumber(a: nat, b: nat, c: nat, d: nat): nat { a + 0x100 * b + 0x1_0000 * c + 0x100_0000 * d }

  predicate MagicStands(v: seq<byte>, pos: nat) {
    pos + 4 <= |v| && v[pos..pos + 4] == [0xF9, 0xBE, 0xB4, 0xD9]
  }

  predicate SizeStands(v: seq<byte>, pos: nat) { MagicStands(v, pos) && pos + 8 <= |v| }

  /** The size that the frame at the position declares for its body. */
  function DeclaredSize(v: seq<byte>, pos: nat): nat
    requires pos + 8 <= |v|
  {
    LittleEndianNumber(v[pos + 4], v[pos + 5], v[pos + 6], v[pos + 7])
  }

  predicate SizeAllowed(v: seq<byte>, pos: nat) {
    SizeStands(v, pos) && 1 <= DeclaredSize(v, pos) <= 104857600
  }

  /** Behind magic and size stand a header and counted transactions. */
  ghost predicate BodyStands(hs: Hashes, v: seq<byte>, pos: nat, w: WireBlock) {
    && w.header.Valid()
    && CountedValid(TransactionFormat(hs), w.transactions)
    && Holds(v, pos + 8, w.Body(hs))
  }

  /** What stands at the position where the parse of a block fails with the given error. */
  ghost predicate Broken(hs: Hashes, v: seq<byte>, pos: nat, error: ErrorCode) {
    match error
    case BlockWrongMagic => pos + 4 <= |v| && v[pos..pos + 4] != [0xF9, 0xBE, 0xB4, 0xD9]
    case EmptyBlockSize => SizeStands(v, pos) && v[pos + 4..pos + 8] == [0, 0, 0, 0]
    case TooLargeBlockSize => SizeStands(v, pos) && DeclaredSize(v, pos) > 104857600
    case BlockParsingFailure =>
      SizeAllowed(v, pos) && exists w: WireBlock :: BodyStands(hs, v, pos, w) && |w.Body(hs)| != DeclaredSize(v, pos)
    case FileReadingFailure =>
      || |v| < pos + 4
      || (MagicStands(v, pos) && |v| < pos + 8)
      || (SizeAllowed(v, pos) && forall w: WireBlock :: !BodyStands(hs, v, pos, w))
    case _ => false
  }

  /** What stands at the position where a block is accepted. */
  ghost predicate Framed(hs: Hashes, v: seq<byte>, pos: nat) {
    SizeAllowed(v, pos) && exists w: WireBlock :: BodyStands(hs, v, pos, w) && |w.Body(hs)| == DeclaredSize(v, pos)
  }

  lemma NumberOfFour(b: seq<byte>)
    requires |b| == 4
    ensures LeValue(b) == LittleEndianNumber(b[0], b[1], b[2], b[3])
  {
    assert b[1..][1..] == b[2..] && b[2..][1..] == b[3..] && b[3..][1..] == [];
    assert LeValue(b[3..]) == b[3];
    var high, middle: nat := b[2], b[1];
    assert LeValue(b[2..]) == high + 256 * LeValue(b[3..]);
    assert LeValue(b[1..]) == middle + 256 * LeValue(b[2..]);
  }

  lemma FourBytesAt(v: seq<byte>, pos: nat)
    ensures UintAt(v, pos, 4).Done? <==> pos + 4 <= |v|
    ensures UintAt(v, pos, 4).Fail? ==> UintAt(v, pos, 4).error == FileReadingFailure
    ensures pos + 4 <= |v| ==>
      UintAt(v, pos, 4) == Done(LittleEndianNumber(v[pos], v[pos + 1], v[pos + 2], v[pos + 3]), pos + 4)
  {
    if pos + 4 <= |v| {
      NumberOfFour(v[pos..pos + 4]);
    }
  }

  lemma MagicIs(v: seq<byte>, pos: nat)
    ensures MagicAt(v, pos).Done? <==> MagicStands(v, pos)
    ensures MagicAt(v, pos).Done? ==> MagicAt(v, pos).next == pos + 4
    ensures MagicAt(v, pos).Fail? ==>
      MagicAt(v, pos).error == if pos + 4 <= |v| then BlockWrongMagic else FileReadingFailure
  {
    hide UintAt;
    FourBytesAt(v, pos);
    if pos + 4 <= |v| {
      assert v[pos..pos + 4] == [v[pos], v[pos + 1], v[pos + 2], v[pos + 3]];
      MagicDigits(v[pos], v[pos + 1], v[pos + 2], v[pos + 3]);
    }
  }

  lemma MagicDigits(a: byte, b: byte, c: byte, d: byte)
    ensures LittleEndianNumber(a, b, c, d) == MAINNET_MAGIC
      <==> a == 0xF9 && b == 0xBE && c == 0xB4 && d == 0xD9
  {
  }

  lemma SizeIs(v: seq<byte>, pos: nat)
    ensures var r := BlockSizeAt(v, pos + 4);
      && (r.Done? <==> pos + 8 <= |v| && 1 <= DeclaredSize(v, pos) <= 104857600)
      && (r.Done? ==> r == Done(DeclaredSize(v, pos), pos + 8))
      && (r.Fail? ==> r.error == if |v| < pos + 8 then FileReadingFailure
                                 else if DeclaredSize(v, pos) == 0 then EmptyBlockSize else TooLargeBlockSize)
  {
    hide UintAt;
    FourBytesAt(v, pos + 4);
  }

  /** The answer for a magic number at the position. */
  predicate MagicAnswered(v: seq<byte>, pos: nat, r: Result<nat>) {
    r == if |v| < pos + 4 then Err(FileReadingFailure)
         else if v[pos..pos + 4] == [0xF9, 0xBE, 0xB4, 0xD9] then Ok(0xD9B4BEF9)
         else Err(BlockWrongMagic)
  }

  /** The answer for a block size at the position. */
  predicate SizeAnswered(v: seq<byte>, pos: nat, r: Result<nat>) {
    if |v| < pos + 4 then r == Err(FileReadingFailure)
    else
      var size := LittleEndianNumber(v[pos], v[pos + 1], v[pos + 2], v[pos + 3]);
      r == if size == 0 then Err(EmptyBlockSize) else if size > 104857600 then Err(TooLargeBlockSize) else Ok(size)
  }

  lemma NoSize(v: seq<byte>, pos: nat)
    requires pos + 8 <= |v|
    ensures DeclaredSize(v, pos) == 0 <==> v[pos + 4..pos + 8] == [0, 0, 0, 0]
  {
    assert v[pos + 4..pos + 8] == [v[pos + 4], v[pos + 5], v[pos + 6], v[pos + 7]];
  }

  // Behind the frame.

  lemma HeaderFails(v: seq<byte>, pos: nat)
    ensures HeaderAt(v, pos).Fail? ==> HeaderAt(v, pos).error == FileReadingFailure
    ensures HeaderAt(v, pos).Done? ==> HeaderAt(v, pos).next == pos + 80 <= |v|
  {
    hide LeValue;
  }

  lemma TransactionsFail(hs: Hashes, v: seq<byte>, pos: nat)
    ensures var r := CountedAt(TransactionFormat(hs).parse, v, pos); r.Fail? ==> r.error == FileReadingFailure
  {
    hide TransactionAt;
    var parse := TransactionFormat(hs).parse;
    forall p: nat ensures parse(v, p).Fail? ==> parse(v, p).error == FileReadingFailure {
      TransactionFails(hs, v, p);
    }
    CountedFails(parse, v, pos);
  }

  lemma BodyReads(hs: Hashes, v: seq<byte>, pos: nat, w: WireBlock)
    requires BodyStands(hs, v, pos, w)
    ensures HeaderAt(v, pos + 8).Done?
    ensures var r := CountedAt(TransactionFormat(hs).parse, v, pos + 88);
      r.Done? && r.next == pos + 8 + |w.Body(hs)|
  {
    hide HeaderAt, CountedAt, TransactionFormat, CountedBytes, CountedValid, Reads, Explains, WireHeader.Bytes,
         WireHeader.Meaning;
    HeaderSize(v, pos, w.header);
    HoldsSplit(v, pos + 8, w.header.Bytes(), CountedBytes(TransactionFormat(hs), w.transactions));
    HeaderReads(v, pos + 8, w.header);
    TransactionIsFormat(hs);
    CountedReads(TransactionFormat(hs), v, pos + 88, w.transactions);
  }

  lemma HeaderSize(v: seq<byte>, pos: nat, w: WireHeader)
    requires w.Valid()
    ensures |w.Bytes()| == 80
  {
  }

  lemma BodyExplained(hs: Hashes, v: seq<byte>, pos: nat) returns (w: WireBlock)
    requires HeaderAt(v, pos + 8).Done? && CountedAt(TransactionFormat(hs).parse, v, pos + 88).Done?
    ensures BodyStands(hs, v, pos, w)
  {
    hide HeaderAt, CountedAt, TransactionFormat, CountedBytes, CountedValid, Reads, Explains, WireHeader.Bytes,
         WireHeader.Meaning, Holds;
    var header := HeaderExplained(v, pos + 8);
    TransactionIsFormat(hs);
    var transactions := CountedExplained(TransactionFormat(hs), v, pos + 88);
    w := WireBlock(header, transactions);
    HoldsSplit(v, pos + 8, header.Bytes(), CountedBytes(TransactionFormat(hs), transactions));
  }

  /** The parse of a block whose frame is in order. */
  lemma BehindFrame(hs: Hashes, v: seq<byte>, pos: nat)
    requires SizeAllowed(v, pos)
    ensures var r, header, transactions :=
        BlockAt(hs, v, pos), HeaderAt(v, pos + 8), CountedAt(TransactionFormat(hs).parse, v, pos + 88);
      if header.Fail? || transactions.Fail? then r.Fail? && r.error == FileReadingFailure
      else if transactions.next != pos + 8 + DeclaredSize(v, pos) then r.Fail? && r.error == BlockParsingFailure
      else r.Done?
  {
    hide MagicAt, BlockSizeAt, HeaderAt, CountedAt, TransactionFormat, HashOf, SizeAllowed;
    FrameInOrder(v, pos);
    HeaderFails(v, pos + 8);
    TransactionsFail(hs, v, pos + 88);
  }

  lemma FrameInOrder(v: seq<byte>, pos: nat)
    requires SizeAllowed(v, pos)
    ensures pos + 8 <= |v| && MagicAt(v, pos).Done? && MagicAt(v, pos).next == pos + 4
    ensures BlockSizeAt(v, pos + 4) == Done(DeclaredSize(v, pos), pos + 8)
  {
    hide MagicAt, BlockSizeAt;
    MagicIs(v, pos);
    SizeIs(v, pos);
  }

  /** The parse of a block whose frame is not. */
  lemma FrameOutOfOrder(hs: Hashes, v: seq<byte>, pos: nat)
    requires !SizeAllowed(v, pos)
    ensures var r := BlockAt(hs, v, pos);
      && r.Fail?
      && r.error ==
        if |v| < pos + 4 then FileReadingFailure
        else if !MagicStands(v, pos) then BlockWrongMagic
        else if |v| < pos + 8 then FileReadingFailure
        else if DeclaredSize(v, pos) == 0 then EmptyBlockSize else TooLargeBlockSize
  {
    hide MagicAt, BlockSizeAt, HeaderAt, CountedAt, TransactionFormat, HashOf, DeclaredSize;
    MagicIs(v, pos);
    SizeIs(v, pos);
  }

  /** A block is accepted, or rejected with a certain error, if and only if certain bytes stand there. */
  lemma BlockFailure(hs: Hashes, v: seq<byte>, pos: nat, error: ErrorCode)
    ensures var r := BlockAt(hs, v, pos);
      && (r.Done? <==> Framed(hs, v, pos))
      && (r.Fail? && r.error == error <==> Broken(hs, v, pos, error))
  {
    hide BlockAt, BodyStands, WireBlock.Body, DeclaredSize;
    if SizeAllowed(v, pos) {
      BehindFrame(hs, v, pos);
      BodyIsRead(hs, v, pos);
      NoSize(v, pos);
    } else {
      FrameOutOfOrder(hs, v, pos);
      if pos + 8 <= |v| {
        NoSize(v, pos);
      }
    }
  }

  lemma BodyIsRead(hs: Hashes, v: seq<byte>, pos: nat)
    ensures var header, transactions := HeaderAt(v, pos + 8), CountedAt(TransactionFormat(hs).parse, v, pos + 88);
      && (header.Done? && transactions.Done? <==> exists w: WireBlock :: BodyStands(hs, v, pos, w))
      && forall w: WireBlock :: BodyStands(hs, v, pos, w) ==>
           header.Done? && transactions.Done? && transactions.next == pos + 8 + |w.Body(hs)|
  {
    hide HeaderAt, CountedAt, TransactionFormat, BodyStands, WireBlock.Body;
    if HeaderAt(v, pos + 8).Done? && CountedAt(TransactionFormat(hs).parse, v, pos + 88).Done? {
      var w := BodyExplained(hs, v, pos);
    }
    forall w: WireBlock | BodyStands(hs, v, pos, w)
      ensures HeaderAt(v, pos + 8).Done?
      ensures var r := CountedAt(TransactionFormat(hs).parse, v, pos + 88);
        r.Done? && r.next == pos + 8 + |w.Body(hs)|
    {
      BodyReads(hs, v, pos, w);
    }
  }

  // Files.

  /** Behind adjacent frames of valid blocks, and before the end of the file, stands what is rejected so. */
  ghost predicate FileBroken(hs: Hashes, v: seq<byte>, error: ErrorCode) {
    exists ws: seq<WireBlock> :: BrokenBehind(hs, v, ws, error)
  }

  ghost predicate BrokenBehind(hs: Hashes, v: seq<byte>, ws: seq<WireBlock>, error: ErrorCode) {
    && AllFramed(hs, ws)
    && Frames(hs, ws) < v
    && Broken(hs, v, |Frames(hs, ws)|, error)
  }

  ghost predicate StopsAt(hs: Hashes, v: seq<byte>, at: nat, error: ErrorCode) {
    at < |v| && BlockAt(hs, v, at).Fail? && BlockAt(hs, v, at).error == error
  }

  lemma {:induction false} FailureIsBehindFrames(hs: Hashes, v: seq<byte>, pos: nat, read: seq<Block>)
    returns (ws: seq<WireBlock>)
    requires FileFrom(hs, v, pos, read).Fail?
    ensures AllFramed(hs, ws) && Holds(v, pos, Frames(hs, ws))
    ensures StopsAt(hs, v, pos + |Frames(hs, ws)|, FileFrom(hs, v, pos, read).error)
    decreases |v| - pos
  {
    hide BlockAt, WireBlock.Frame, WireBlock.Valid, WireBlock.Meaning, Holds;
    if BlockAt(hs, v, pos).Fail? {
      ws := [];
      NothingHolds(v, pos);
    } else {
      hide StopsAt;
      BlockExtent(hs, v, pos);
      var w := FrameExplained(hs, v, pos);
      var next := pos + |w.Frame(hs)|;
      var rest := FailureIsBehindFrames(hs, v, next, read + [w.Meaning(hs)]);
      ws := [w] + rest;
      assert ws[1..] == rest;
      HoldsSplit(v, pos, w.Frame(hs), Frames(hs, rest));
    }
  }

  lemma NothingHolds(v: seq<byte>, pos: nat)
    requires pos <= |v|
    ensures Holds(v, pos, [])
  {
  }

  lemma TailFramed(hs: Hashes, ws: seq<WireBlock>)
    requires AllFramed(hs, ws) && ws != []
    ensures ws[0].Valid(hs) && AllFramed(hs, ws[1..])
  {
    hide WireBlock.Valid;
  }

  lemma FirstFrameHeld(hs: Hashes, v: seq<byte>, pos: nat, ws: seq<WireBlock>)
    requires AllFramed(hs, ws) && ws != [] && Holds(v, pos, Frames(hs, ws))
    ensures AllFramed(hs, ws[1..])
    ensures var next, rest := pos + |ws[0].Frame(hs)|, Frames(hs, ws[1..]);
      && pos < next <= |v|
      && BlockAt(hs, v, pos) == Done(ws[0].Meaning(hs), next)
      && Holds(v, next, rest) && pos + |Frames(hs, ws)| == next + |rest|
  {
    hide BlockAt, WireBlock.Frame, WireBlock.Valid, WireBlock.Meaning, Holds;
    TailFramed(hs, ws);
    hide AllFramed, Frames;
    var frame := ws[0].Frame(hs);
    FramesOfCons(hs, ws);
    HoldsSplit(v, pos, frame, Frames(hs, ws[1..]));
    FrameReads(hs, v, pos, ws[0]);
    FrameSize(hs, ws[0]);
    HeldWithin(v, pos, frame);
  }

  lemma FramesOfCons(hs: Hashes, ws: seq<WireBlock>)
    requires AllFramed(hs, ws) && ws != [] && AllFramed(hs, ws[1..])
    ensures Frames(hs, ws) == ws[0].Frame(hs) + Frames(hs, ws[1..])
  {
    hide AllFramed, WireBlock.Frame;
  }

  lemma HeldWithin(v: seq<byte>, pos: nat, b: seq<byte>)
    requires Holds(v, pos, b)
    ensures pos + |b| <= |v|
  {
  }

  lemma HeldAtStart(v: seq<byte>, b: seq<byte>)
    ensures Holds(v, 0, b) <==> b <= v
  {
    assert |b| <= |v| ==> v[0..0 + |b|] == v[..|b|];
  }

  lemma {:induction false} FailsBehindFrames(
      hs: Hashes, v: seq<byte>, pos: nat, ws: seq<WireBlock>, read: seq<Block>, error: ErrorCode)
    requires AllFramed(hs, ws) && Holds(v, pos, Frames(hs, ws))
    requires StopsAt(hs, v, pos + |Frames(hs, ws)|, error)
    ensures var r := FileFrom(hs, v, pos, read); r.Fail? && r.error == error
    decreases |ws|
  {
    hide BlockAt, WireBlock.Frame, WireBlock.Valid, WireBlock.Meaning, Holds;
    if ws != [] {
      hide StopsAt, Frames, AllFramed;
      FirstFrameHeld(hs, v, pos, ws);
      FailsBehindFrames(hs, v, pos + |ws[0].Frame(hs)|, ws[1..], read + [ws[0].Meaning(hs)], error);
    }
  }

  lemma BrokenFileFails(hs: Hashes, v: seq<byte>, ws: seq<WireBlock>, error: ErrorCode)
    requires BrokenBehind(hs, v, ws, error)
    ensures FileOf(hs, v).Fail? && FileOf(hs, v).error == error
  {
    hide FileFrom, BlockAt, AllFramed, Frames, Broken, Holds;
    BlockFailure(hs, v, |Frames(hs, ws)|, error);
    HeldAtStart(v, Frames(hs, ws));
    FailsBehindFrames(hs, v, 0, ws, [], error);
  }

  lemma FailureIsBroken(hs: Hashes, v: seq<byte>) returns (ws: seq<WireBlock>)
    requires FileOf(hs, v).Fail?
    ensures BrokenBehind(hs, v, ws, FileOf(hs, v).error)
  {
    hide FileFrom, BlockAt, AllFramed, Frames, Broken, Holds;
    ws := FailureIsBehindFrames(hs, v, 0, []);
    HeldAtStart(v, Frames(hs, ws));
    BlockFailure(hs, v, |Frames(hs, ws)|, FileOf(hs, v).error);
  }

  /** A file is rejected with a certain error if and only if adjacent frames of valid blocks are followed by
      certain bytes. */
  lemma FileFailure(hs: Hashes, v: seq<byte>, error: ErrorCode)
    ensures FileOf(hs, v).Fail? && FileOf(hs, v).error == error <==> FileBroken(hs, v, error)
  {
    hide FileOf, BrokenBehind;
    if FileOf(hs, v).Fail? {
      var ws := FailureIsBroken(hs, v);
    }
    forall ws: seq<WireBlock> | BrokenBehind(hs, v, ws, error)
      ensures FileOf(hs, v).Fail? && FileOf(hs, v).error == error
    {
      BrokenFileFails(hs, v, ws, error);
    }
  }
}
