/** Blocks and block files: what the parsers return, and how accepted files are made up. */
module Blocks {
  import opened Common
  import opened Hashing
  import opened LittleEndian
  import opened BitcoinReader
  import opened Formats
  import opened Transactions
  import opened TransactionRoundTrip
  import opened TransactionProperties
  import opened CountedLoops

  const MAINNET_MAGIC: nat := 0xD9B4BEF9
  const MAX_BLOCK_SIZE: nat := 100 * 1024 * 1024
  const HEADER_SIZE: nat := 80

  datatype BlockHeader = BlockHeader(
    version: int,
    hashPrevBlock: seq<byte>,
    hashMerkleRoot: seq<byte>,
    time: nat,
    bits: nat,
    nonce: nat)

  datatype Block = Block(blockHeader: BlockHeader, transactions: seq<Transaction>, currentBlockHash: seq<byte>)

  function HeaderAt(v: seq<byte>, pos: nat): Parse<BlockHeader> {
    var (version, p1) :- Int32At(v, pos);
    var (prev, p2) :- Array32At(v, p1);
    var (merkle, p3) :- Array32At(v, p2);
    var (time, p4) :- UintAt(v, p3, 4);
    var (bits, p5) :- UintAt(v, p4, 4);
    var (nonce, p6) :- UintAt(v, p5, 4);
    Done(BlockHeader(version, prev, merkle, time, bits, nonce), p6)
  }

  function MagicAt(v: seq<byte>, pos: nat): Parse<nat> {
    var (magic, next) :- UintAt(v, pos, 4);
    if magic != MAINNET_MAGIC then Fail(BlockWrongMagic, next) else Done(magic, next)
  }

  function BlockSizeAt(v: seq<byte>, pos: nat): Parse<nat> {
    var (size, next) :- UintAt(v, pos, 4);
    if size == 0 then Fail(EmptyBlockSize, next)
    else if size > MAX_BLOCK_SIZE then Fail(TooLargeBlockSize, next)
    else Done(size, next)
  }

  /** The hash of the eighty bytes at the position, which are not consumed. */
  function BlockHashAt(hs: Hashes, v: seq<byte>, pos: nat): Parse<seq<byte>> {
    var (header, _) :- Take(v, pos, HEADER_SIZE);
    Done(HashOf(hs, header), pos)
  }

  function BlockAt(hs: Hashes, v: seq<byte>, pos: nat): Parse<Block> {
    var (_, p1) :- MagicAt(v, pos);
    var (size, p2) :- BlockSizeAt(v, p1);
    var (hash, p3) :- BlockHashAt(hs, v, p2);
    var (header, p4) :- HeaderAt(v, p3);
    var (transactions, p5) :- CountedAt(TransactionFormat(hs).parse, v, p4);
    if p5 != pos + size + 8 then Fail(BlockParsingFailure, p5)
    else Done(Block(header, transactions, hash), p5)
  }

  // Wire values.

  datatype WireHeader = WireHeader(version: int, prev: seq<byte>, merkle: seq<byte>, time: nat, bits: nat, nonce: nat) {
    predicate Valid() {
      && -0x8000_0000 <= version < 0x8000_0000
      && |prev| == 32 && |merkle| == 32
      && time < Pow256(4) && bits < Pow256(4) && nonce < Pow256(4)
    }

    function Bytes(): seq<byte> {
      Int32Bytes(version) + (prev + (merkle + (LeBytes(time, 4) + (LeBytes(bits, 4) + LeBytes(nonce, 4)))))
    }

    function Meaning(): BlockHeader {
      BlockHeader(version, Reverse(prev), Reverse(merkle), time, bits, nonce)
    }
  }

  datatype WireBlock = WireBlock(header: WireHeader, transactions: Counted<WireTx>) {
    /** A block fits a frame when its size is one that the frame may declare. */
    predicate Valid(hs: Hashes) {
      && header.Valid()
      && CountedValid(TransactionFormat(hs), transactions)
      && |Body(hs)| <= 104857600
    }

    function Body(hs: Hashes): seq<byte> {
      header.Bytes() + CountedBytes(TransactionFormat(hs), transactions)
    }

    /** The frame around a block: magic, size of the body, body. */
    function Frame(hs: Hashes): seq<byte> {
      [0xF9, 0xBE, 0xB4, 0xD9] + (LeBytes(|Body(hs)|, 4) + Body(hs))
    }

    function Meaning(hs: Hashes): Block {
      Block(header.Meaning(), Meanings(TransactionFormat(hs), transactions.items), HashOf(hs, header.Bytes()))
    }
  }

  lemma HeaderReads(v: seq<byte>, pos: nat, w: WireHeader)
    requires w.Valid() && Holds(v, pos, w.Bytes())
    ensures |w.Bytes()| == HEADER_SIZE
    ensures HeaderAt(v, pos) == Done(w.Meaning(), pos + HEADER_SIZE)
  {
    hide Int32At, Array32At, UintAt, LeBytes;
    var b1, b4, b5, b6 := Int32Bytes(w.version), LeBytes(w.time, 4), LeBytes(w.bits, 4), LeBytes(w.nonce, 4);
    HoldsSplit(v, pos, b1, w.prev + (w.merkle + (b4 + (b5 + b6))));
    HoldsSplit(v, pos + 4, w.prev, w.merkle + (b4 + (b5 + b6)));
    HoldsSplit(v, pos + 36, w.merkle, b4 + (b5 + b6));
    HoldsSplit(v, pos + 68, b4, b5 + b6);
    HoldsSplit(v, pos + 72, b5, b6);
    Int32Reads(v, pos, w.version);
    Array32Reads(v, pos + 4, w.prev);
    Array32Reads(v, pos + 36, w.merkle);
    UintAtReads(v, pos + 68, w.time, 4);
    UintAtReads(v, pos + 72, w.bits, 4);
    UintAtReads(v, pos + 76, w.nonce, 4);
  }

  lemma HeaderExplained(v: seq<byte>, pos: nat) returns (w: WireHeader)
    requires HeaderAt(v, pos).Done?
    ensures w.Valid() && Holds(v, pos, w.Bytes()) && |w.Bytes()| == HEADER_SIZE
    ensures HeaderAt(v, pos) == Done(w.Meaning(), pos + HEADER_SIZE)
  {
    hide Int32At, Array32At, UintAt, LeBytes;
    Int32Explained(v, pos);
    var prev := Array32Explained(v, pos + 4);
    var merkle := Array32Explained(v, pos + 36);
    UintAtExplained(v, pos + 68, 4);
    UintAtExplained(v, pos + 72, 4);
    UintAtExplained(v, pos + 76, 4);
    w := WireHeader(Int32At(v, pos).value, prev, merkle,
      UintAt(v, pos + 68, 4).value, UintAt(v, pos + 72, 4).value, UintAt(v, pos + 76, 4).value);
    var b1, b4, b5, b6 := Int32Bytes(w.version), LeBytes(w.time, 4), LeBytes(w.bits, 4), LeBytes(w.nonce, 4);
    HoldsSplit(v, pos + 72, b5, b6);
    HoldsSplit(v, pos + 68, b4, b5 + b6);
    HoldsSplit(v, pos + 36, merkle, b4 + (b5 + b6));
    HoldsSplit(v, pos + 4, prev, merkle + (b4 + (b5 + b6)));
    HoldsSplit(v, pos, b1, prev + (merkle + (b4 + (b5 + b6))));
  }

  /** The block hash is taken over the serialisation of the very header that is parsed next. */
  lemma BlockHashPreimage(hs: Hashes, v: seq<byte>, pos: nat) returns (w: WireHeader)
    requires HeaderAt(v, pos).Done?
    ensures w.Valid() && HeaderAt(v, pos).value == w.Meaning()
    ensures BlockHashAt(hs, v, pos) == Done(Reverse(hs.sha256(hs.sha256(w.Bytes()))), pos)
  {
    w := HeaderExplained(v, pos);
    TakeHolds(v, pos, w.Bytes());
  }

  lemma MagicInBytes()
    ensures LeBytes(MAINNET_MAGIC, 4) == [0xF9, 0xBE, 0xB4, 0xD9]
  {
    assert LeBytes(0xD9B4, 2) == [0xB4, 0xD9];
  }

  lemma FrameReads(hs: Hashes, v: seq<byte>, pos: nat, w: WireBlock)
    requires w.Valid(hs) && Holds(v, pos, w.Frame(hs))
    ensures BlockAt(hs, v, pos) == Done(w.Meaning(hs), pos + |w.Frame(hs)|)
  {
    hide HeaderAt, CountedAt, UintAt, LeBytes, TransactionFormat, HashOf, CountedBytes, CountedValid, Reads,
         WireHeader.Bytes, WireHeader.Meaning, BlockHashAt;
    Widths();
    var body, txs := w.Body(hs), CountedBytes(TransactionFormat(hs), w.transactions);
    MagicInBytes();
    HoldsSplit(v, pos, LeBytes(MAINNET_MAGIC, 4), LeBytes(|body|, 4) + body);
    HoldsSplit(v, pos + 4, LeBytes(|body|, 4), body);
    HoldsSplit(v, pos + 8, w.header.Bytes(), txs);
    UintAtReads(v, pos, MAINNET_MAGIC, 4);
    UintAtReads(v, pos + 4, |body|, 4);
    HeaderReads(v, pos + 8, w.header);
    HashReads(hs, v, pos + 8, w.header);
    TransactionIsFormat(hs);
    CountedReads(TransactionFormat(hs), v, pos + 8 + HEADER_SIZE, w.transactions);
  }

  lemma HashReads(hs: Hashes, v: seq<byte>, pos: nat, w: WireHeader)
    requires w.Valid() && Holds(v, pos, w.Bytes()) && |w.Bytes()| == HEADER_SIZE
    ensures BlockHashAt(hs, v, pos) == Done(HashOf(hs, w.Bytes()), pos)
  {
    hide HashOf;
    TakeHolds(v, pos, w.Bytes());
  }

  lemma FrameExplained(hs: Hashes, v: seq<byte>, pos: nat) returns (w: WireBlock)
    requires BlockAt(hs, v, pos).Done?
    ensures w.Valid(hs) && Holds(v, pos, w.Frame(hs))
    ensures BlockAt(hs, v, pos) == Done(w.Meaning(hs), pos + |w.Frame(hs)|)
  {
    hide HeaderAt, CountedAt, UintAt, LeBytes, TransactionFormat, HashOf, CountedBytes, CountedValid, Explains,
         WireHeader.Bytes, WireHeader.Meaning, BlockHashAt;
    UintAtExplained(v, pos, 4);
    UintAtExplained(v, pos + 4, 4);
    BlockParts(hs, v, pos);
    var header := HeaderExplained(v, pos + 8);
    TransactionIsFormat(hs);
    var txs := CountedExplained(TransactionFormat(hs), v, pos + 8 + HEADER_SIZE);
    w := WireBlock(header, txs);
    var body := w.Body(hs);
    HoldsSplit(v, pos + 8, header.Bytes(), CountedBytes(TransactionFormat(hs), txs));
    HoldsSplit(v, pos + 4, LeBytes(|body|, 4), body);
    MagicInBytes();
    HoldsSplit(v, pos, LeBytes(MAINNET_MAGIC, 4), LeBytes(|body|, 4) + body);
    FrameReads(hs, v, pos, w);
  }

  lemma BlockParts(hs: Hashes, v: seq<byte>, pos: nat)
    requires BlockAt(hs, v, pos).Done?
    ensures UintAt(v, pos, 4) == Done(MAINNET_MAGIC, pos + 4)
    ensures UintAt(v, pos + 4, 4).Done? && 0 < UintAt(v, pos + 4, 4).value <= MAX_BLOCK_SIZE
    ensures HeaderAt(v, pos + 8).Done?
    ensures var txs := CountedAt(TransactionFormat(hs).parse, v, HeaderAt(v, pos + 8).next);
      && txs.Done? && txs.next == pos + 8 + UintAt(v, pos + 4, 4).value
      && BlockAt(hs, v, pos).next == txs.next && BlockAt(hs, v, pos).value.transactions == txs.value
  {
    hide HeaderAt, CountedAt, TransactionFormat, HashOf, LeValue;
  }

  /** An accepted block takes at least 89 bytes and ten more for each transaction, all within the file. */
  lemma BlockExtent(hs: Hashes, v: seq<byte>, pos: nat)
    ensures var r := BlockAt(hs, v, pos);
      r.Done? ==> pos + 89 + 10 * |r.value.transactions| <= r.next <= |v|
  {
    hide BlockAt, CountedAt, HeaderAt, TransactionFormat;
    if BlockAt(hs, v, pos).Done? {
      BlockParts(hs, v, pos);
      var header := HeaderExplained(v, pos + 8);
      TransactionCosts(hs, v);
      CountedExtent(TransactionFormat(hs).parse, v, pos + 88, 10);
    }
  }

  lemma FrameSize(hs: Hashes, w: WireBlock)
    requires w.Valid(hs)
    ensures |w.Frame(hs)| == 8 + |w.Body(hs)| >= 89
  {
    hide TransactionFormat, LeBytes;
    CompactFirstByte(w.transactions.form, |w.transactions.items|);
  }

  /** Cutting the file off behind an accepted block changes nothing; cutting it off anywhere within
      makes the read fail. */
  lemma BlockTruncated(hs: Hashes, v: seq<byte>, pos: nat, cut: nat)
    requires pos <= cut <= |v| && BlockAt(hs, v, pos).Done?
    ensures var r, t := BlockAt(hs, v, pos), BlockAt(hs, v[..cut], pos);
      if r.next <= cut then t == r else t.Fail? && t.error == FileReadingFailure
  {
    hide BlockAt, WireBlock.Frame, WireBlock.Valid, WireBlock.Meaning;
    var r, t := BlockAt(hs, v, pos), BlockAt(hs, v[..cut], pos);
    var w := FrameExplained(hs, v, pos);
    if r.next <= cut {
      assert v[..cut][pos..r.next] == v[pos..r.next];
      FrameReads(hs, v[..cut], pos, w);
    } else {
      if t.Done? {
        var u := FrameExplained(hs, v[..cut], pos);
        assert v[..cut][pos..t.next] == v[pos..t.next];
        FrameReads(hs, v, pos, u);
      }
      BlockCutFails(hs, v, pos, cut);
    }
  }

  /** Up to the transactions a prefix reads what the file reads, and the transactions only fail to be read. */
  lemma BlockCutFails(hs: Hashes, v: seq<byte>, pos: nat, cut: nat)
    requires pos <= cut <= |v| && BlockAt(hs, v, pos).Done? && cut < BlockAt(hs, v, pos).next
    ensures var t := BlockAt(hs, v[..cut], pos); t.Fail? ==> t.error == FileReadingFailure
  {
    hide HeaderAt, CountedAt, TransactionFormat, HashOf, LeValue;
    BlockParts(hs, v, pos);
    UintCut(v, pos, cut);
    UintCut(v, pos + 4, cut);
    HeaderCut(v, pos + 8, cut);
    if pos + 88 <= cut {
      TransactionsCut(hs, v, pos + 88, cut);
    }
  }

  lemma UintCut(v: seq<byte>, pos: nat, cut: nat)
    requires cut <= |v|
    ensures UintAt(v[..cut], pos, 4) == if pos + 4 <= cut then UintAt(v, pos, 4) else Fail(FileReadingFailure, pos)
  {
    if pos + 4 <= cut {
      assert v[..cut][pos..pos + 4] == v[pos..pos + 4];
    }
  }

  lemma HeaderCut(v: seq<byte>, pos: nat, cut: nat)
    requires cut <= |v| && HeaderAt(v, pos).Done?
    ensures HeaderAt(v, pos).next == pos + HEADER_SIZE
    ensures pos + HEADER_SIZE <= cut ==> HeaderAt(v[..cut], pos) == HeaderAt(v, pos)
  {
    hide HeaderAt;
    var w := HeaderExplained(v, pos);
    if pos + HEADER_SIZE <= cut {
      assert v[..cut][pos..pos + HEADER_SIZE] == v[pos..pos + HEADER_SIZE];
      HeaderReads(v[..cut], pos, w);
    }
  }

  lemma TransactionsCut(hs: Hashes, v: seq<byte>, pos: nat, cut: nat)
    requires cut <= |v|
    ensures var t := CountedAt(TransactionFormat(hs).parse, v[..cut], pos);
      if t.Done? then t.next <= cut && CountedAt(TransactionFormat(hs).parse, v, pos) == t
      else t.error == FileReadingFailure
  {
    hide TransactionAt, CountedBytes, CountedValid, Reads, Explains;
    var f := TransactionFormat(hs);
    TransactionIsFormat(hs);
    forall p: nat ensures f.parse(v[..cut], p).Fail? ==> f.parse(v[..cut], p).error == FileReadingFailure {
      TransactionFails(hs, v[..cut], p);
    }
    CountedFails(f.parse, v[..cut], pos);
    var t := CountedAt(f.parse, v[..cut], pos);
    if t.Done? {
      var c := CountedExplained(f, v[..cut], pos);
      assert v[..cut][pos..t.next] == v[pos..t.next];
      CountedReads(f, v, pos, c);
    }
  }
}
