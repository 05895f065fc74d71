/** The transaction parser: every method moves the shared reader as the parse of its view prescribes. */
module TransactionParser {
  import opened Common
  import opened Hashing
  import opened FileReader
  import opened BitcoinReader
  import opened Formats
  import opened Transactions
  import opened TransactionProperties
  import opened CountedLoops
  import Scripts = TransactionScriptParser

  class TransactionParser {
    const m_reader: BitcoinReader
    const m_hashes: Hashes

    constructor (reader: BitcoinReader, hashes: Hashes)
      ensures m_reader == reader && m_hashes == hashes
    {
      m_reader := reader;
      m_hashes := hashes;
    }

    method ParseAllTransactions() returns (r: Result<seq<Transaction>>)
      requires m_reader.Ready()
      modifies m_reader, m_reader.m_fileReader
      ensures m_reader.Agrees(
        CountedAt(TransactionFormat(m_hashes).parse, m_reader.FileView(), old(m_reader.m_readPosition)), r)
    {
      hide CompactAt, TransactionAt, Costs;
      ghost var v, start := m_reader.FileView(), m_reader.m_readPosition;
      var parse := TransactionFormat(m_hashes).parse;
      var transactionCounter :- ParseTransactionCounter();
      ghost var first := m_reader.m_readPosition;
      var out: seq<Transaction> := [];
      for i := 0 to transactionCounter
        invariant m_reader.Ready()
        invariant |out| == i && first + 10 * i <= m_reader.m_readPosition
        invariant ManyFrom(parse, v, m_reader.m_readPosition, transactionCounter - i, out)
          == CountedAt(parse, v, start)
      {
        TransactionSize(m_hashes, v, m_reader.m_readPosition);
        var transaction :- ParseOneTransaction();
        out := out + [transaction];
      }
      return Ok(out);
    }

    method ParseOneTransaction() returns (r: Result<Transaction>)
      requires m_reader.Ready()
      modifies m_reader, m_reader.m_fileReader
      ensures m_reader.Agrees(TransactionAt(m_hashes, m_reader.FileView(), old(m_reader.m_readPosition)), r)
    {
      hide Int32At, FlagAt, CountedAt, ManyFrom, UintAt, TxInFormat, TxOutFormat, HashOf;
      ghost var v, start := m_reader.FileView(), m_reader.m_readPosition;
      var startReadPosition := m_reader.GetReadPosition();
      var version :- m_reader.ReadDataInt32();
      var segwitFlag :- ParseTransactionFlag();
      var vIn :- ParseAllTxIn();
      var vOut :- ParseAllTxOut();
      var witnesses: seq<Witness> := [];
      if segwitFlag {
        witnesses :- ParseAllWitnesses(|vIn|);
      }
      var lockTime :- m_reader.ReadDataUint(4);
      var currentReadPos := m_reader.GetReadPosition();
      ghost var parsed := TransactionAt(m_hashes, v, start);
      assert parsed.Done? && parsed.next == currentReadPos;
      TransactionSize(m_hashes, v, start);
      var hashResult := GetCurrentTransactionHash(startReadPosition, currentReadPos);
      if hashResult.IsFailure() {
        assert false;
      }
      HashIsDouble(m_hashes, Between(v, start, parsed.next));
      return Ok(Transaction(version, segwitFlag, vIn, vOut, witnesses, lockTime, hashResult.value));
    }

    method ParseTransactionCounter() returns (r: Result<nat>)
      requires m_reader.Ready()
      modifies m_reader, m_reader.m_fileReader
      ensures m_reader.Agrees(CompactAt(m_reader.FileView(), old(m_reader.m_readPosition)), r)
    {
      r := m_reader.ReadDataCompactSize();
    }

    method ParseTransactionFlag() returns (r: Result<bool>)
      requires m_reader.Ready()
      modifies m_reader, m_reader.m_fileReader
      ensures m_reader.Agrees(FlagAt(m_reader.FileView(), old(m_reader.m_readPosition)), r)
    {
      var currentPos := m_reader.GetReadPosition();
      var flagBuffer :- m_reader.ReadData(2);
      assert flagBuffer == [flagBuffer[0], flagBuffer[1]];
      if flagBuffer[0] == 0x00 {
        if flagBuffer[1] == 0x01 {
          return Ok(true);
        }
      }
      var setPosResult := m_reader.SetReadPosition(currentPos);
      if !setPosResult {
        assert false;
      }
      return Ok(false);
    }

    method ParseAllTxIn() returns (r: Result<seq<TxIn>>)
      requires m_reader.Ready()
      modifies m_reader, m_reader.m_fileReader
      ensures m_reader.Agrees(
        CountedAt(TxInFormat(m_hashes).parse, m_reader.FileView(), old(m_reader.m_readPosition)), r)
    {
      hide CompactAt, TxInAt;
      ghost var v, start := m_reader.FileView(), m_reader.m_readPosition;
      var parse := TxInFormat(m_hashes).parse;
      var inputCounter :- m_reader.ReadDataCompactSize();
      ghost var first := m_reader.m_readPosition;
      var out: seq<TxIn> := [];
      for i := 0 to inputCounter
        invariant m_reader.Ready()
        invariant |out| == i && first + 41 * i <= m_reader.m_readPosition
        invariant ManyFrom(parse, v, m_reader.m_readPosition, inputCounter - i, out) == CountedAt(parse, v, start)
      {
        TxInCost(m_hashes, v, m_reader.m_readPosition);
        var txIn :- ParseTxIn();
        out := out + [txIn];
      }
      return Ok(out);
    }

    method ParseTxIn() returns (r: Result<TxIn>)
      requires m_reader.Ready()
      modifies m_reader, m_reader.m_fileReader
      ensures m_reader.Agrees(TxInAt(m_hashes, m_reader.FileView(), old(m_reader.m_readPosition)), r)
    {
      hide Array32At, UintAt, CompactAt, Scripts.InputAddress;
      var hashPreviousTx :- m_reader.ReadDataArray32();
      var prevTxOutIndex :- m_reader.ReadDataUint(4);
      var scriptLength :- m_reader.ReadDataCompactSize();
      var scriptSignature :- m_reader.ReadData(scriptLength);
      var inputAddress := Scripts.ParseInputScript(m_hashes, scriptSignature);
      var sequenceNumber :- m_reader.ReadDataUint(4);
      return Ok(TxIn(hashPreviousTx, prevTxOutIndex, scriptSignature, sequenceNumber, inputAddress));
    }

    method ParseAllTxOut() returns (r: Result<seq<TxOut>>)
      requires m_reader.Ready()
      modifies m_reader, m_reader.m_fileReader
      ensures m_reader.Agrees(
        CountedAt(TxOutFormat(m_hashes).parse, m_reader.FileView(), old(m_reader.m_readPosition)), r)
    {
      hide CompactAt, TxOutAt;
      ghost var v, start := m_reader.FileView(), m_reader.m_readPosition;
      var parse := TxOutFormat(m_hashes).parse;
      var outCounter :- m_reader.ReadDataCompactSize();
      ghost var first := m_reader.m_readPosition;
      var out: seq<TxOut> := [];
      for i := 0 to outCounter
        invariant m_reader.Ready()
        invariant |out| == i && first + 9 * i <= m_reader.m_readPosition
        invariant ManyFrom(parse, v, m_reader.m_readPosition, outCounter - i, out) == CountedAt(parse, v, start)
      {
        TxOutCost(m_hashes, v, m_reader.m_readPosition);
        var txOut :- ParseTxOut();
        out := out + [txOut];
      }
      return Ok(out);
    }

    method ParseTxOut() returns (r: Result<TxOut>)
      requires m_reader.Ready()
      modifies m_reader, m_reader.m_fileReader
      ensures m_reader.Agrees(TxOutAt(m_hashes, m_reader.FileView(), old(m_reader.m_readPosition)), r)
    {
      hide UintAt, CompactAt, Scripts.OutputAddress;
      var value :- m_reader.ReadDataUint(8);
      var scriptLength :- m_reader.ReadDataCompactSize();
      var scriptPubKey :- m_reader.ReadData(scriptLength);
      var outputAddress := Scripts.ParseOutputScript(m_hashes, scriptPubKey);
      return Ok(TxOut(value, scriptPubKey, outputAddress));
    }

    method ParseAllWitnesses(witCount: nat) returns (r: Result<seq<Witness>>)
      requires m_reader.Ready()
      modifies m_reader, m_reader.m_fileReader
      ensures m_reader.Agrees(
        WitnessesAt(m_reader.FileView(), old(m_reader.m_readPosition), true, witCount), r)
    {
      hide WitnessAt;
      ghost var v, start := m_reader.FileView(), m_reader.m_readPosition;
      WitnessCosts(v);
      var out: seq<Witness> := [];
      for i := 0 to witCount
        invariant m_reader.Ready()
        invariant |out| == i && start + i <= m_reader.m_readPosition
        invariant ManyFrom(WitnessAt, v, m_reader.m_readPosition, witCount - i, out)
          == WitnessesAt(v, start, true, witCount)
      {
        var stack :- ParseWitness();
        out := out + [stack];
      }
      return Ok(out);
    }

    method ParseWitness() returns (r: Result<Witness>)
      requires m_reader.Ready()
      modifies m_reader, m_reader.m_fileReader
      ensures m_reader.Agrees(WitnessAt(m_reader.FileView(), old(m_reader.m_readPosition)), r)
    {
      hide CompactAt;
      ghost var v, start := m_reader.FileView(), m_reader.m_readPosition;
      var witnessStackItems :- m_reader.ReadDataCompactSize();
      ghost var first := m_reader.m_readPosition;
      var witnessData: seq<seq<byte>> := [];
      for i := 0 to witnessStackItems
        invariant m_reader.Ready()
        invariant |witnessData| == i && first + i <= m_reader.m_readPosition
        invariant ManyFrom(ItemAt, v, m_reader.m_readPosition, witnessStackItems - i, witnessData)
          == CountedAt(ItemAt, v, start)
      {
        ItemCost(v, m_reader.m_readPosition);
        var witnessItemLength :- m_reader.ReadDataCompactSize();
        var item :- m_reader.ReadData(witnessItemLength);
        witnessData := witnessData + [Reverse(item)];
      }
      return Ok(Witness(witnessData));
    }

    /** Moves back, re-reads the bytes between the two positions and hashes them. Of the failures that the
        code provides for, a wrong position behind the read cannot happen. */
    method GetCurrentTransactionHash(startReadPosition: nat, finishReadPosition: nat) returns (r: Result<seq<byte>>)
      requires m_reader.Ready()
      requires startReadPosition <= finishReadPosition
      modifies m_reader, m_reader.m_fileReader
      ensures var v := m_reader.FileView();
        if startReadPosition > MAX_OFFSET then r == Err(FileError)
        else if startReadPosition < finishReadPosition && finishReadPosition > |v| then r == Err(FileReadingFailure)
        else
          && r == Ok(Reverse(m_hashes.sha256(m_hashes.sha256(Between(v, startReadPosition, finishReadPosition)))))
          && m_reader.m_readPosition == finishReadPosition
      ensures finishReadPosition <= |m_reader.FileView()| ==> m_reader.Ready()
    {
      var transactionSize := finishReadPosition - startReadPosition;
      var savedReadPosition := finishReadPosition;
      var setPositionResult := m_reader.SetReadPosition(startReadPosition);
      if !setPositionResult {
        return Err(FileError);
      }
      var fullTransaction :- m_reader.ReadData(transactionSize);
      var currentReadPos := m_reader.GetReadPosition();
      if currentReadPos != savedReadPosition {
        assert false;
      }
      var hashResult := m_hashes.DoubleSha256(fullTransaction);
      return Ok(Reverse(hashResult));
    }
  }
}
