/** The parsers of block headers, single blocks and whole block files. */
module BlockParsers {
  import opened Common
  import opened Hashing
  import opened FileReader
  import opened Obfuscation
  import opened BitcoinReader
  import opened Formats
  import opened Transactions
  import opened Blocks
  import opened BlockFiles
  import opened BlockFailures
  import TransactionParser

  /** The answer is the reversed double hash of the next eighty bytes. */
  predicate HeaderHashed(hs: Hashes, v: seq<byte>, pos: nat, r: Result<seq<byte>>) {
    r == if pos + 80 <= |v| then Ok(Reverse(hs.sha256(hs.sha256(v[pos..pos + 80])))) else Err(FileReadingFailure)
  }

  class BlockHeaderParser {
    const m_reader: BitcoinReader
    const m_hashes: Hashes

    constructor (reader: BitcoinReader, hashes: Hashes)
      ensures m_reader == reader && m_hashes == hashes
    {
      m_reader := reader;
      m_hashes := hashes;
    }

    method Parse() returns (r: Result<BlockHeader>)
      requires m_reader.Ready()
      modifies m_reader, m_reader.m_fileReader
      ensures m_reader.Agrees(HeaderAt(m_reader.FileView(), old(m_reader.m_readPosition)), r)
    {
      hide Int32At, Array32At, UintAt;
      var version :- m_reader.ReadDataInt32();
      var hashPrevBlock :- m_reader.ReadDataArray32();
      var hashMerkleRoot :- m_reader.ReadDataArray32();
      var time :- m_reader.ReadDataUint(4);
      var bits :- m_reader.ReadDataUint(4);
      var nonce :- m_reader.ReadDataUint(4);
      return Ok(BlockHeader(version, hashPrevBlock, hashMerkleRoot, time, bits, nonce));
    }

    /** Hashes the eighty bytes of the header and moves back to their start. */
    method GetBlockHash() returns (r: Result<seq<byte>>)
      requires m_reader.Ready()
      modifies m_reader, m_reader.m_fileReader
      ensures m_reader.Agrees(BlockHashAt(m_hashes, m_reader.FileView(), old(m_reader.m_readPosition)), r)
      ensures m_reader.m_readPosition == old(m_reader.m_readPosition)
      ensures HeaderHashed(m_hashes, m_reader.FileView(), old(m_reader.m_readPosition), r)
    {
      var startReadPosition := m_reader.GetReadPosition();
      var fullBlockHeader :- m_reader.ReadData(HEADER_SIZE);
      var hashResult := m_hashes.DoubleSha256(fullBlockHeader);
      var setPosResult := m_reader.SetReadPosition(startReadPosition);
      if !setPosResult {
        assert false;
      }
      return Ok(Reverse(hashResult));
    }
  }

  class SingleBlockParser {
    const m_reader: BitcoinReader
    const m_hashes: Hashes

    constructor (reader: BitcoinReader, hashes: Hashes)
      ensures m_reader == reader && m_hashes == hashes
    {
      m_reader := reader;
      m_hashes := hashes;
    }

    method Parse() returns (r: Result<Block>)
      requires m_reader.Ready()
      modifies m_reader, m_reader.m_fileReader
      ensures m_reader.Agrees(BlockAt(m_hashes, m_reader.FileView(), old(m_reader.m_readPosition)), r)
    {
      hide MagicAt, BlockSizeAt, BlockHashAt, HeaderAt, CountedAt, TransactionFormat, MagicAnswered, SizeAnswered,
           HeaderHashed, SizeT, HashOf, UintAt;
      var startReadPos := m_reader.GetReadPosition();
      var magicNumber :- ParseMagicNumber();
      var blockSize :- ParseBlockSize();
      var headerParser := new BlockHeaderParser(m_reader, m_hashes);
      var currentBlockHash :- headerParser.GetBlockHash();
      var blockHeader :- headerParser.Parse();
      var transactionParser := new TransactionParser.TransactionParser(m_reader, m_hashes);
      var transactions :- transactionParser.ParseAllTransactions();
      SizeDoesNotWrap(m_reader.FileView(), startReadPos);
      var actualBlockSize := SizeT(startReadPos + blockSize + 4 + 4);
      var readPosition := m_reader.GetReadPosition();
      if readPosition != actualBlockSize {
        return Err(BlockParsingFailure);
      }
      return Ok(Block(blockHeader, transactions, currentBlockHash));
    }

    /** File offsets are small enough for the 64-bit sum of the framing check. */
    lemma SizeDoesNotWrap(v: Contents, pos: nat)
      requires pos <= |v|
      ensures var magic := MagicAt(v, pos);
        magic.Done? ==> var size := BlockSizeAt(v, magic.next);
          size.Done? ==> SizeT(pos + size.value + 4 + 4) == pos + size.value + 8
    {
    }

    method ParseMagicNumber() returns (r: Result<nat>)
      requires m_reader.Ready()
      modifies m_reader, m_reader.m_fileReader
      ensures m_reader.Agrees(MagicAt(m_reader.FileView(), old(m_reader.m_readPosition)), r)
      ensures MagicAnswered(m_reader.FileView(), old(m_reader.m_readPosition), r)
    {
      MagicIs(m_reader.FileView(), m_reader.m_readPosition);
      var parsedMagicNumber :- m_reader.ReadDataUint(4);
      if parsedMagicNumber != MAINNET_MAGIC {
        return Err(BlockWrongMagic);
      }
      return Ok(parsedMagicNumber);
    }

    method ParseBlockSize() returns (r: Result<nat>)
      requires m_reader.Ready()
      modifies m_reader, m_reader.m_fileReader
      ensures m_reader.Agrees(BlockSizeAt(m_reader.FileView(), old(m_reader.m_readPosition)), r)
      ensures SizeAnswered(m_reader.FileView(), old(m_reader.m_readPosition), r)
    {
      FourBytesAt(m_reader.FileView(), m_reader.m_readPosition);
      var out :- m_reader.ReadDataUint(4);
      if out == 0 {
        return Err(EmptyBlockSize);
      }
      if out > MAX_BLOCK_SIZE {
        return Err(TooLargeBlockSize);
      }
      return Ok(out);
    }
  }

  class BlockFileParser {
    const m_reader: BitcoinReader
    const m_hashes: Hashes

    constructor (reader: BitcoinReader, hashes: Hashes)
      ensures m_reader == reader && m_hashes == hashes
    {
      m_reader := reader;
      m_hashes := hashes;
    }

    /** Reads blocks until the end of the file; each takes at least 89 bytes of what is left. */
    method Parse() returns (r: Result<seq<Block>>)
      requires m_reader.Ready()
      modifies m_reader, m_reader.m_fileReader
      ensures m_reader.Concludes(FileFrom(m_hashes, m_reader.FileView(), old(m_reader.m_readPosition), []), r)
      ensures r.Ok? ==> m_reader.m_readPosition == |m_reader.FileView()|
    {
      hide BlockAt;
      ghost var v := m_reader.FileView();
      var out: seq<Block> := [];
      var eof := m_reader.IsEof();
      while !eof
        invariant m_reader.m_readPosition <= |v|
        invariant eof <==> m_reader.m_readPosition == |v|
        invariant !eof ==> m_reader.Ready()
        invariant FileFrom(m_hashes, v, m_reader.m_readPosition, out)
          == FileFrom(m_hashes, v, old(m_reader.m_readPosition), [])
        decreases (|v| - m_reader.m_readPosition) / 89, !eof
      {
        BlockExtent(m_hashes, v, m_reader.m_readPosition);
        var blockParser := new SingleBlockParser(m_reader, m_hashes);
        var block :- blockParser.Parse();
        out := out + [block];
        eof := m_reader.IsEof();
      }
      return Ok(out);
    }
  }

  /** Parsing an obfuscated file with its key gives what parsing the plain file without one gives, and
      both readers stop at the same position, after a failure too. */
  method ParseBothWays(plain: Contents, key: Key, hashes: Hashes)
    returns (r: Result<seq<Block>>, stop: nat, plainResult: Result<seq<Block>>, plainStop: nat)
    ensures r == plainResult && stop == plainStop
    ensures match FileOf(hashes, plain)
      case Done(blocks, next) => plainResult == Ok(blocks) && plainStop == next
      case Fail(error, at) => plainResult == Err(error) && plainStop == at
  {
    hide FileFrom, XorAt;
    ViewOfObfuscated(plain, key);
    assert key[..8] == key;
    var reader := BitcoinReader.Open(Obfuscate(plain, key), Some(key));
    var parser := new BlockFileParser(reader.value, hashes);
    r := parser.Parse();
    stop := reader.value.GetReadPosition();
    var plainReader := BitcoinReader.Open(plain, None);
    var plainParser := new BlockFileParser(plainReader.value, hashes);
    plainResult := plainParser.Parse();
    plainStop := plainReader.value.GetReadPosition();
  }
}
