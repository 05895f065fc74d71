/** Transactions: what the parser returns, and the BIP 144 serialisations it has to read. */
module Transactions {
  import opened Common
  import opened Hashing
  import opened LittleEndian
  import opened BitcoinReader
  import opened Formats
  import TransactionScriptParser

  datatype TxIn = TxIn(
    hashPreviousTx: seq<byte>,
    prevTxOutIndex: nat,
    scriptSignature: seq<byte>,
    sequenceNumber: nat,
    inputAddress: string)

  datatype TxOut = TxOut(value: nat, scriptPubKey: seq<byte>, outputAddress: string)

  datatype Witness = Witness(witnessData: seq<seq<byte>>)

  datatype Transaction = Transaction(
    version: int,
    segwitFlag: bool,
    vIn: seq<TxIn>,
    vOut: seq<TxOut>,
    witnesses: seq<Witness>,
    lockTime: nat,
    currentTransactionHash: seq<byte>)

  // Parsing, as a function of the view and the position.

  function TxInAt(hs: Hashes, v: seq<byte>, pos: nat): Parse<TxIn> {
    var (hash, p1) :- Array32At(v, pos);
    var (index, p2) :- UintAt(v, p1, 4);
    var (script, p3) :- StringAt(v, p2);
    var (sequence, p4) :- UintAt(v, p3, 4);
    Done(TxIn(hash, index, script, sequence, TransactionScriptParser.InputAddress(hs, script)), p4)
  }

  function TxOutAt(hs: Hashes, v: seq<byte>, pos: nat): Parse<TxOut> {
    var (value, p1) :- UintAt(v, pos, 8);
    var (script, p2) :- StringAt(v, p1);
    Done(TxOut(value, script, TransactionScriptParser.OutputAddress(hs, script)), p2)
  }

  /** Witness items are stored reversed. */
  function ItemAt(v: seq<byte>, pos: nat): Parse<seq<byte>> {
    var (item, next) :- StringAt(v, pos);
    Done(Reverse(item), next)
  }

  function WitnessAt(v: seq<byte>, pos: nat): Parse<Witness> {
    var (items, next) :- CountedAt(ItemAt, v, pos);
    Done(Witness(items), next)
  }

  /** The marker and flag of a segregated witness transaction, if the next two bytes are 00 01. */
  function FlagAt(v: seq<byte>, pos: nat): Parse<bool> {
    var (b, next) :- Take(v, pos, 2);
    if b == [0, 1] then Done(true, next) else Done(false, pos)
  }

  function TransactionAt(hs: Hashes, v: seq<byte>, pos: nat): Parse<Transaction> {
    var (version, p1) :- Int32At(v, pos);
    var (segwit, p2) :- FlagAt(v, p1);
    var (ins, p3) :- CountedAt(TxInFormat(hs).parse, v, p2);
    var (outs, p4) :- CountedAt(TxOutFormat(hs).parse, v, p3);
    var (witnesses, p5) :- WitnessesAt(v, p4, segwit, |ins|);
    var (lockTime, p6) :- UintAt(v, p5, 4);
    Done(Transaction(version, segwit, ins, outs, witnesses, lockTime, HashOf(hs, Between(v, pos, p6))), p6)
  }

  /** The bytes from one position up to another. */
  function Between(v: seq<byte>, from: nat, to: nat): seq<byte> { if from <= to <= |v| then v[from..to] else [] }

  function WitnessesAt(v: seq<byte>, pos: nat, segwit: bool, count: nat): Parse<seq<Witness>> {
    if segwit then Many(WitnessAt, v, pos, count) else Done([], pos)
  }

  /** The double hash in the byte order in which hashes are displayed. */
  function HashOf(hs: Hashes, preimage: seq<byte>): seq<byte> { Reverse(hs.DoubleSha256(preimage)) }

  lemma HashIsDouble(hs: Hashes, preimage: seq<byte>)
    ensures HashOf(hs, preimage) == Reverse(hs.sha256(hs.sha256(preimage)))
  {
  }

  // Wire values.

  datatype WireTxIn = WireTxIn(prevHash: seq<byte>, prevIndex: nat, script: WireString, sequence: nat) {
    predicate Valid() {
      |prevHash| == 32 && prevIndex < Pow256(4) && script.Valid() && sequence < Pow256(4)
    }

    function Bytes(): seq<byte> {
      prevHash + (LeBytes(prevIndex, 4) + (script.Bytes() + LeBytes(sequence, 4)))
    }

    function Meaning(hs: Hashes): TxIn {
      TxIn(Reverse(prevHash), prevIndex, script.data, sequence,
           TransactionScriptParser.InputAddress(hs, script.data))
    }
  }

  datatype WireTxOut = WireTxOut(value: nat, script: WireString) {
    predicate Valid() { value < Pow256(8) && script.Valid() }

    function Bytes(): seq<byte> { LeBytes(value, 8) + script.Bytes() }

    function Meaning(hs: Hashes): TxOut {
      TxOut(value, script.data, TransactionScriptParser.OutputAddress(hs, script.data))
    }
  }

  function TxInFormat(hs: Hashes): Format<WireTxIn, TxIn> {
    Format((v, pos) => TxInAt(hs, v, pos), (w: WireTxIn) => w.Valid(), (w: WireTxIn) => w.Bytes(),
           (w: WireTxIn) => w.Meaning(hs))
  }

  function TxOutFormat(hs: Hashes): Format<WireTxOut, TxOut> {
    Format((v, pos) => TxOutAt(hs, v, pos), (w: WireTxOut) => w.Valid(), (w: WireTxOut) => w.Bytes(),
           (w: WireTxOut) => w.Meaning(hs))
  }

  function ItemFormat(): Format<WireString, seq<byte>> {
    Format(ItemAt, (w: WireString) => w.Valid(), (w: WireString) => w.Bytes(), (w: WireString) => Reverse(w.data))
  }

  type WireWitness = Counted<WireString>

  function WitnessFormat(): Format<WireWitness, Witness> {
    Format(WitnessAt, (w: WireWitness) => CountedValid(ItemFormat(), w),
           (w: WireWitness) => CountedBytes(ItemFormat(), w),
           (w: WireWitness) => Witness(Meanings(ItemFormat(), w.items)))
  }

  /** A transaction on the wire; the witnesses are present exactly when marker and flag are. */
  datatype WireTx = WireTx(
    version: int,
    ins: Counted<WireTxIn>,
    outs: Counted<WireTxOut>,
    witnesses: Option<seq<WireWitness>>,
    lockTime: nat)
  {
    predicate Valid(hs: Hashes) {
      && -0x8000_0000 <= version < 0x8000_0000
      && CountedValid(TxInFormat(hs), ins)
      && CountedValid(TxOutFormat(hs), outs)
      && (witnesses.Some? ==> |witnesses.value| == |ins.items| && AllValid(WitnessFormat(), witnesses.value))
      && lockTime < Pow256(4)
    }

    function Bytes(hs: Hashes): seq<byte> {
      VersionBytes() + (FlagBytes() + (Body(hs) + (WitnessBytes() + LeBytes(lockTime, 4))))
    }

    function VersionBytes(): seq<byte> { Int32Bytes(version) }

    function FlagBytes(): seq<byte> { if witnesses.Some? then [0, 1] else [] }

    function Body(hs: Hashes): seq<byte> { CountedBytes(TxInFormat(hs), ins) + CountedBytes(TxOutFormat(hs), outs) }

    function WitnessBytes(): seq<byte> {
      if witnesses.Some? then ManyBytes(WitnessFormat(), witnesses.value) else []
    }

    /** The serialisation without marker, flag and witnesses, of which BIP 144 defines the txid. */
    function StrippedBytes(hs: Hashes): seq<byte> { VersionBytes() + (Body(hs) + LeBytes(lockTime, 4)) }

    /** A legacy transaction without inputs and with one output, whose body starts 00 01. */
    predicate LooksFlagged() {
      witnesses.None? && ins.form == Short && ins.items == [] && outs.form == Short && |outs.items| == 1
    }

    function Meaning(hs: Hashes): Transaction {
      Transaction(version, witnesses.Some?, Meanings(TxInFormat(hs), ins.items), Meanings(TxOutFormat(hs), outs.items),
        if witnesses.Some? then Meanings(WitnessFormat(), witnesses.value) else [], lockTime,
        HashOf(hs, Bytes(hs)))
    }
  }

  function TransactionFormat(hs: Hashes): Format<WireTx, Transaction> {
    Format((v, pos) => TransactionAt(hs, v, pos), (w: WireTx) => w.Valid(hs) && !w.LooksFlagged(),
           (w: WireTx) => w.Bytes(hs), (w: WireTx) => w.Meaning(hs))
  }
}
