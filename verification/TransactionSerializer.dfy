/** The BIP 144 serialisation of parsed transactions, with minimal CompactSize forms, and its round trip. */
module TransactionSerializer {
  import opened Common
  import opened Hashing
  import opened BitcoinReader
  import opened Formats
  import opened Transactions
  import opened TransactionRoundTrip
  import TransactionScriptParser

  const COUNT_LIMIT: nat := 0x1_0000_0000_0000_0000

  function StringOf(data: seq<byte>): WireString { WireString(Minimal(|data|), data) }

  function CountedOf<W>(items: seq<W>): Counted<W> { Counted(Minimal(|items|), items) }

  function WireOfTxIn(t: TxIn): WireTxIn {
    WireTxIn(Reverse(t.hashPreviousTx), t.prevTxOutIndex, StringOf(t.scriptSignature), t.sequenceNumber)
  }

  function WireOfTxOut(t: TxOut): WireTxOut { WireTxOut(t.value, StringOf(t.scriptPubKey)) }

  function WireOfItem(item: seq<byte>): WireString { StringOf(Reverse(item)) }

  function WireOfWitness(t: Witness): WireWitness {
    CountedOf(seq(|t.witnessData|, i requires 0 <= i < |t.witnessData| => WireOfItem(t.witnessData[i])))
  }

  function WireOf(t: Transaction): WireTx {
    WireTx(t.version,
      CountedOf(seq(|t.vIn|, i requires 0 <= i < |t.vIn| => WireOfTxIn(t.vIn[i]))),
      CountedOf(seq(|t.vOut|, i requires 0 <= i < |t.vOut| => WireOfTxOut(t.vOut[i]))),
      if t.segwitFlag
        then Some(seq(|t.witnesses|, i requires 0 <= i < |t.witnesses| => WireOfWitness(t.witnesses[i]))) else None,
      t.lockTime)
  }

  function Serialize(hs: Hashes, t: Transaction): seq<byte> { WireOf(t).Bytes(hs) }

  // Field widths and derived fields.

  predicate TxInFits(hs: Hashes, t: TxIn) {
    && |t.hashPreviousTx| == 32
    && t.prevTxOutIndex < Pow256(4)
    && |t.scriptSignature| < COUNT_LIMIT
    && t.sequenceNumber < Pow256(4)
    && t.inputAddress == TransactionScriptParser.InputAddress(hs, t.scriptSignature)
  }

  predicate TxOutFits(hs: Hashes, t: TxOut) {
    && t.value < Pow256(8)
    && |t.scriptPubKey| < COUNT_LIMIT
    && t.outputAddress == TransactionScriptParser.OutputAddress(hs, t.scriptPubKey)
  }

  predicate WitnessFits(t: Witness) {
    && |t.witnessData| < COUNT_LIMIT
    && forall i :: 0 <= i < |t.witnessData| ==> |t.witnessData[i]| < COUNT_LIMIT
  }

  predicate WellFormed(hs: Hashes, t: Transaction) {
    && -0x8000_0000 <= t.version < 0x8000_0000
    && |t.vIn| < COUNT_LIMIT && (forall i :: 0 <= i < |t.vIn| ==> TxInFits(hs, t.vIn[i]))
    && |t.vOut| < COUNT_LIMIT && (forall i :: 0 <= i < |t.vOut| ==> TxOutFits(hs, t.vOut[i]))
    && (forall i :: 0 <= i < |t.witnesses| ==> WitnessFits(t.witnesses[i]))
    && |t.witnesses| == (if t.segwitFlag then |t.vIn| else 0)
    && t.lockTime < Pow256(4)
    && t.currentTransactionHash == HashOf(hs, Serialize(hs, t))
  }

  lemma TxInRestored(hs: Hashes, t: TxIn)
    requires TxInFits(hs, t)
    ensures WireOfTxIn(t).Valid() && WireOfTxIn(t).Meaning(hs) == t
  {
    hide TransactionScriptParser.InputAddress;
    ReverseTwice(t.hashPreviousTx);
  }

  lemma TxOutRestored(hs: Hashes, t: TxOut)
    requires TxOutFits(hs, t)
    ensures WireOfTxOut(t).Valid() && WireOfTxOut(t).Meaning(hs) == t
  {
    hide TransactionScriptParser.OutputAddress;
  }

  lemma WitnessRestored(t: Witness)
    requires WitnessFits(t)
    ensures var f := WitnessFormat();
      f.valid(WireOfWitness(t)) && f.meaning(WireOfWitness(t)) == t
  {
    var g, w := ItemFormat(), WireOfWitness(t);
    forall i | 0 <= i < |t.witnessData|
      ensures WireOfItem(t.witnessData[i]).Valid() && g.meaning(WireOfItem(t.witnessData[i])) == t.witnessData[i]
    {
      ReverseTwice(t.witnessData[i]);
    }
    assert Meanings(g, w.items) == t.witnessData;
  }

  lemma WitnessesRestored(ts: seq<Witness>, ws: seq<WireWitness>)
    requires |ws| == |ts| && forall i :: 0 <= i < |ts| ==> WitnessFits(ts[i]) && ws[i] == WireOfWitness(ts[i])
    ensures AllValid(WitnessFormat(), ws) && Meanings(WitnessFormat(), ws) == ts
  {
    hide WitnessFits, WireOfWitness, WitnessFormat;
    forall i | 0 <= i < |ts|
      ensures WitnessFormat().valid(ws[i]) && WitnessFormat().meaning(ws[i]) == ts[i]
    {
      WitnessRestored(ts[i]);
    }
  }

  lemma InputsRestored(hs: Hashes, ts: seq<TxIn>, ws: seq<WireTxIn>)
    requires |ts| < COUNT_LIMIT && |ws| == |ts|
    requires forall i :: 0 <= i < |ts| ==> TxInFits(hs, ts[i]) && ws[i] == WireOfTxIn(ts[i])
    ensures CountedValid(TxInFormat(hs), CountedOf(ws)) && Meanings(TxInFormat(hs), ws) == ts
  {
    hide TxInFits, WireOfTxIn, WireTxIn.Valid, WireTxIn.Meaning;
    forall i | 0 <= i < |ts| ensures ws[i].Valid() && ws[i].Meaning(hs) == ts[i] {
      TxInRestored(hs, ts[i]);
    }
    assert Meanings(TxInFormat(hs), ws) == ts;
  }

  lemma OutputsRestored(hs: Hashes, ts: seq<TxOut>, ws: seq<WireTxOut>)
    requires |ts| < COUNT_LIMIT && |ws| == |ts|
    requires forall i :: 0 <= i < |ts| ==> TxOutFits(hs, ts[i]) && ws[i] == WireOfTxOut(ts[i])
    ensures CountedValid(TxOutFormat(hs), CountedOf(ws)) && Meanings(TxOutFormat(hs), ws) == ts
  {
    hide TxOutFits, WireOfTxOut, WireTxOut.Valid, WireTxOut.Meaning;
    forall i | 0 <= i < |ts| ensures ws[i].Valid() && ws[i].Meaning(hs) == ts[i] {
      TxOutRestored(hs, ts[i]);
    }
    assert Meanings(TxOutFormat(hs), ws) == ts;
  }

  lemma TransactionRestored(hs: Hashes, t: Transaction)
    requires WellFormed(hs, t)
    ensures WireOf(t).Valid(hs) && WireOf(t).Meaning(hs) == t
  {
    hide TxInFits, TxOutFits, WitnessFits, WireOfTxIn, WireOfTxOut, WireOfWitness, TxInFormat, TxOutFormat,
         WitnessFormat, WireTx.Bytes, HashOf;
    var w := WireOf(t);
    InputsRestored(hs, t.vIn, w.ins.items);
    OutputsRestored(hs, t.vOut, w.outs.items);
    if t.segwitFlag {
      WitnessesRestored(t.witnesses, w.witnesses.value);
    }
  }

  /** Every well-formed transaction survives serialisation and parsing, at any offset and followed by
      any bytes, except a legacy one without inputs and with one output. */
  lemma SerializeParse(hs: Hashes, t: Transaction, before: seq<byte>, after: seq<byte>)
    requires WellFormed(hs, t)
    requires t.segwitFlag || |t.vIn| != 0 || |t.vOut| != 1
    ensures var bytes := Serialize(hs, t);
      TransactionAt(hs, before + bytes + after, |before|) == Done(t, |before| + |bytes|)
  {
    hide TransactionAt, WireTx.Bytes, WireTx.Valid, WireTx.Meaning, WellFormed;
    var w, v := WireOf(t), before + Serialize(hs, t) + after;
    TransactionRestored(hs, t);
    assert v[|before|..|before| + |w.Bytes(hs)|] == w.Bytes(hs);
    TransactionReads(hs, v, |before|, w);
  }
}
