/** The transaction parser reads back exactly the serialisations, and accepts nothing else. */
module TransactionRoundTrip {
  import opened Common
  import opened Hashing
  import opened LittleEndian
  import opened BitcoinReader
  import opened Formats
  import opened Transactions
  import TransactionScriptParser

  // Primitive pieces.

  lemma Array32Reads(v: seq<byte>, pos: nat, b: seq<byte>)
    requires |b| == 32 && Holds(v, pos, b)
    ensures Array32At(v, pos) == Done(Reverse(b), pos + 32)
  {
    TakeHolds(v, pos, b);
  }

  lemma Array32Explained(v: seq<byte>, pos: nat) returns (b: seq<byte>)
    requires Array32At(v, pos).Done?
    ensures |b| == 32 && Holds(v, pos, b) && Array32At(v, pos) == Done(Reverse(b), pos + 32)
  {
    b := v[pos..pos + 32];
  }

  lemma Int32Reads(v: seq<byte>, pos: nat, x: int)
    requires -0x8000_0000 <= x < 0x8000_0000 && Holds(v, pos, Int32Bytes(x))
    ensures Int32At(v, pos) == Done(x, pos + 4) && |Int32Bytes(x)| == 4
  {
    Widths();
    UintAtReads(v, pos, FromInt32(x), 4);
  }

  lemma Int32Explained(v: seq<byte>, pos: nat)
    requires Int32At(v, pos).Done?
    ensures var x := Int32At(v, pos).value;
      && -0x8000_0000 <= x < 0x8000_0000
      && Holds(v, pos, Int32Bytes(x))
      && |Int32Bytes(x)| == 4
      && Int32At(v, pos) == Done(x, pos + 4)
  {
    Widths();
    UintAtExplained(v, pos, 4);
  }

  // Inputs.

  lemma TxInReads(hs: Hashes)
    ensures Reads(TxInFormat(hs))
  {
    var f := TxInFormat(hs);
    forall w: WireTxIn, v: seq<byte>, pos: nat | f.valid(w) && Holds(v, pos, f.bytes(w))
      ensures IsParsedAs(f, v, pos, w)
    {
      OneTxInReads(hs, v, pos, w);
    }
  }

  lemma OneTxInReads(hs: Hashes, v: seq<byte>, pos: nat, w: WireTxIn)
    requires w.Valid() && Holds(v, pos, w.Bytes())
    ensures TxInAt(hs, v, pos) == Done(w.Meaning(hs), pos + |w.Bytes()|)
  {
    hide StringAt, UintAt, Array32At, TransactionScriptParser.InputAddress, LeBytes;
    var b2, b3, b4 := LeBytes(w.prevIndex, 4), w.script.Bytes(), LeBytes(w.sequence, 4);
    HoldsSplit(v, pos, w.prevHash, b2 + (b3 + b4));
    HoldsSplit(v, pos + 32, b2, b3 + b4);
    HoldsSplit(v, pos + 36, b3, b4);
    Array32Reads(v, pos, w.prevHash);
    UintAtReads(v, pos + 32, w.prevIndex, 4);
    StringAtReads(v, pos + 36, w.script);
    UintAtReads(v, pos + 36 + |b3|, w.sequence, 4);
  }

  lemma TxInExplained(hs: Hashes)
    ensures Explains(TxInFormat(hs))
  {
    var f := TxInFormat(hs);
    forall v: seq<byte>, pos: nat | f.parse(v, pos).Done? ensures exists w: WireTxIn :: IsParsedAs(f, v, pos, w) {
      var w := OneTxInExplained(hs, v, pos);
      assert IsParsedAs(f, v, pos, w);
    }
  }

  lemma OneTxInExplained(hs: Hashes, v: seq<byte>, pos: nat) returns (w: WireTxIn)
    requires TxInAt(hs, v, pos).Done?
    ensures w.Valid() && Holds(v, pos, w.Bytes())
    ensures TxInAt(hs, v, pos) == Done(w.Meaning(hs), pos + |w.Bytes()|)
  {
    hide StringAt, UintAt, Array32At, TransactionScriptParser.InputAddress, LeBytes;
    var b1 := Array32Explained(v, pos);
    UintAtExplained(v, pos + 32, 4);
    var script := StringAtExplained(v, pos + 36);
    var p3 := pos + 36 + |script.Bytes()|;
    UintAtExplained(v, p3, 4);
    w := WireTxIn(b1, UintAt(v, pos + 32, 4).value, script, UintAt(v, p3, 4).value);
    var b2, b3, b4 := LeBytes(w.prevIndex, 4), script.Bytes(), LeBytes(w.sequence, 4);
    HoldsSplit(v, pos + 36, b3, b4);
    HoldsSplit(v, pos + 32, b2, b3 + b4);
    HoldsSplit(v, pos, b1, b2 + (b3 + b4));
  }

  // Outputs.

  lemma TxOutReads(hs: Hashes)
    ensures Reads(TxOutFormat(hs))
  {
    var f := TxOutFormat(hs);
    forall w: WireTxOut, v: seq<byte>, pos: nat | f.valid(w) && Holds(v, pos, f.bytes(w))
      ensures IsParsedAs(f, v, pos, w)
    {
      OneTxOutReads(hs, v, pos, w);
    }
  }

  lemma OneTxOutReads(hs: Hashes, v: seq<byte>, pos: nat, w: WireTxOut)
    requires w.Valid() && Holds(v, pos, w.Bytes())
    ensures TxOutAt(hs, v, pos) == Done(w.Meaning(hs), pos + |w.Bytes()|)
  {
    hide StringAt, UintAt, TransactionScriptParser.OutputAddress, LeBytes;
    HoldsSplit(v, pos, LeBytes(w.value, 8), w.script.Bytes());
    UintAtReads(v, pos, w.value, 8);
    StringAtReads(v, pos + 8, w.script);
  }

  lemma TxOutExplained(hs: Hashes)
    ensures Explains(TxOutFormat(hs))
  {
    var f := TxOutFormat(hs);
    forall v: seq<byte>, pos: nat | f.parse(v, pos).Done? ensures exists w: WireTxOut :: IsParsedAs(f, v, pos, w) {
      var w := OneTxOutExplained(hs, v, pos);
      assert IsParsedAs(f, v, pos, w);
    }
  }

  lemma OneTxOutExplained(hs: Hashes, v: seq<byte>, pos: nat) returns (w: WireTxOut)
    requires TxOutAt(hs, v, pos).Done?
    ensures w.Valid() && Holds(v, pos, w.Bytes())
    ensures TxOutAt(hs, v, pos) == Done(w.Meaning(hs), pos + |w.Bytes()|)
  {
    hide StringAt, UintAt, TransactionScriptParser.OutputAddress, LeBytes;
    UintAtExplained(v, pos, 8);
    var script := StringAtExplained(v, pos + 8);
    w := WireTxOut(UintAt(v, pos, 8).value, script);
    HoldsSplit(v, pos, LeBytes(w.value, 8), script.Bytes());
  }

  // Witnesses.

  lemma ItemIsFormat()
    ensures Reads(ItemFormat()) && Explains(ItemFormat())
  {
    hide StringAt;
    var f := ItemFormat();
    forall w: WireString, v: seq<byte>, pos: nat | f.valid(w) && Holds(v, pos, f.bytes(w))
      ensures IsParsedAs(f, v, pos, w)
    {
      StringAtReads(v, pos, w);
    }
    forall v: seq<byte>, pos: nat | f.parse(v, pos).Done? ensures exists w: WireString :: IsParsedAs(f, v, pos, w) {
      var w := StringAtExplained(v, pos);
      assert IsParsedAs(f, v, pos, w);
    }
  }

  lemma WitnessIsFormat()
    ensures Reads(WitnessFormat()) && Explains(WitnessFormat())
  {
    ItemIsFormat();
    hide CountedAt, CountedBytes, CountedValid, ItemAt;
    var g, f := ItemFormat(), WitnessFormat();
    forall w: WireWitness, v: seq<byte>, pos: nat | f.valid(w) && Holds(v, pos, f.bytes(w))
      ensures IsParsedAs(f, v, pos, w)
    {
      CountedReads(g, v, pos, w);
    }
    forall v: seq<byte>, pos: nat | f.parse(v, pos).Done? ensures exists w: WireWitness :: IsParsedAs(f, v, pos, w) {
      var w := CountedExplained(g, v, pos);
      assert IsParsedAs(f, v, pos, w);
    }
  }

  // The flag test looks two bytes ahead.

  /** The first byte of counted data is the count when that is below 0xFD and written short. */
  lemma CountedStart<W, T>(f: Format<W, T>, v: seq<byte>, pos: nat, c: Counted<W>, least: nat)
    requires FormFits(c.form, |c.items|) && Holds(v, pos, CountedBytes(f, c)) && least < 0xFD
    ensures pos < |v| && (v[pos] == least <==> c.form == Short && |c.items| == least)
    ensures c.form == Short && c.items == [] ==> |CountedBytes(f, c)| == 1
  {
    hide CompactBytes;
    var b := CompactBytes(c.form, |c.items|);
    CompactFirstByte(c.form, |c.items|);
    HoldsSplit(v, pos, b, ManyBytes(f, c.items));
    assert v[pos] == v[pos..pos + |b|][0] == b[0];
  }

  /** The body of a legacy transaction starts 00 01 exactly when it has no inputs and one output. */
  lemma BodyStart(hs: Hashes, v: seq<byte>, pos: nat, w: WireTx)
    requires w.Valid(hs) && w.witnesses.None? && Holds(v, pos, w.Body(hs))
    ensures pos + 2 <= |v|
    ensures v[pos..pos + 2] == [0, 1] <==> w.LooksFlagged()
  {
    hide TxInFormat, TxOutFormat, Holds, CountedBytes, FormFits;
    var f, g := TxInFormat(hs), TxOutFormat(hs);
    var next := pos + |CountedBytes(f, w.ins)|;
    HoldsSplit(v, pos, CountedBytes(f, w.ins), CountedBytes(g, w.outs));
    CountedStart(f, v, pos, w.ins, 0);
    CountedStart(g, v, next, w.outs, 1);
    NotEmpty(f, w.ins);
    assert v[pos..pos + 2] == [v[pos], v[pos + 1]];
  }

  lemma NotEmpty<W, T>(f: Format<W, T>, c: Counted<W>)
    ensures |CountedBytes(f, c)| >= 1
  {
  }

  lemma FlagReads(hs: Hashes, v: seq<byte>, pos: nat, w: WireTx)
    requires w.Valid(hs) && !w.LooksFlagged()
    requires Holds(v, pos, w.FlagBytes() + w.Body(hs))
    ensures FlagAt(v, pos) == Done(w.witnesses.Some?, pos + |w.FlagBytes()|)
  {
    hide WireTx.Body;
    HoldsSplit(v, pos, w.FlagBytes(), w.Body(hs));
    if w.witnesses.None? {
      BodyStart(hs, v, pos, w);
    } else {
      TakeHolds(v, pos, [0, 1]);
    }
  }

  lemma WitnessesRead(v: seq<byte>, pos: nat, w: WireTx, count: nat)
    requires w.witnesses.Some? ==> |w.witnesses.value| == count && AllValid(WitnessFormat(), w.witnesses.value)
    requires Holds(v, pos, w.WitnessBytes())
    ensures WitnessesAt(v, pos, w.witnesses.Some?, count) == Done(
      if w.witnesses.Some? then Meanings(WitnessFormat(), w.witnesses.value) else [], pos + |w.WitnessBytes()|)
  {
    if w.witnesses.Some? {
      WitnessIsFormat();
      var f := WitnessFormat();
      assert f.parse == WitnessAt;
      hide WitnessFormat, ManyFrom, Reads;
      ManyReads(f, v, pos, w.witnesses.value, []);
      assert [] + Meanings(f, w.witnesses.value) == Meanings(f, w.witnesses.value);
    }
  }

  /** The parser reads back every valid transaction that does not look flagged, at any position. */
  lemma TransactionReads(hs: Hashes, v: seq<byte>, pos: nat, w: WireTx)
    requires w.Valid(hs) && !w.LooksFlagged() && Holds(v, pos, w.Bytes(hs))
    ensures TransactionAt(hs, v, pos) == Done(w.Meaning(hs), pos + |w.Bytes(hs)|)
  {
    hide Int32At, FlagAt, CountedAt, WitnessesAt, UintAt, TxInFormat, TxOutFormat, CountedBytes,
         WireTx.FlagBytes, WireTx.WitnessBytes, LeBytes, HashOf, Reads, CountedValid, Holds, Meanings,
         Int32Bytes, Pow256, WitnessFormat, ManyBytes, WireTx.LooksFlagged, Between;
    var b1, b2, ins, outs := w.VersionBytes(), w.FlagBytes(),
      CountedBytes(TxInFormat(hs), w.ins), CountedBytes(TxOutFormat(hs), w.outs);
    var b5, b6 := w.WitnessBytes(), LeBytes(w.lockTime, 4);
    HoldsSplit(v, pos, b1, b2 + ((ins + outs) + (b5 + b6)));
    var p1 := pos + 4;
    assert b2 + ((ins + outs) + (b5 + b6)) == (b2 + (ins + outs)) + (b5 + b6);
    HoldsSplit(v, p1, b2 + (ins + outs), b5 + b6);
    HoldsSplit(v, p1, b2, ins + outs);
    var p2 := p1 + |b2|;
    HoldsSplit(v, p2, ins, outs);
    var p4 := p2 + |ins| + |outs|;
    HoldsSplit(v, p4, b5, b6);
    Int32Reads(v, pos, w.version);
    FlagReads(hs, v, p1, w);
    TxInReads(hs);
    CountedReads(TxInFormat(hs), v, p2, w.ins);
    TxOutReads(hs);
    CountedReads(TxOutFormat(hs), v, p2 + |ins|, w.outs);
    WitnessesRead(v, p4, w, |w.ins.items|);
    UintAtReads(v, p4 + |b5|, w.lockTime, 4);
    HoldsBetween(v, pos, w.Bytes(hs));
  }

  lemma HoldsBetween(v: seq<byte>, pos: nat, b: seq<byte>)
    requires Holds(v, pos, b)
    ensures Between(v, pos, pos + |b|) == b
  {
  }

  lemma FlagExplained(v: seq<byte>, pos: nat)
    requires FlagAt(v, pos).Done?
    ensures pos + 2 <= |v| && (FlagAt(v, pos).value <==> v[pos..pos + 2] == [0, 1])
    ensures FlagAt(v, pos).value ==> Holds(v, pos, [0, 1])
    ensures FlagAt(v, pos).next == if FlagAt(v, pos).value then pos + 2 else pos
  {
  }

  lemma WitnessesExplained(v: seq<byte>, pos: nat, segwit: bool, count: nat) returns (ws: Option<seq<WireWitness>>)
    requires pos <= |v| && WitnessesAt(v, pos, segwit, count).Done?
    ensures ws.Some? <==> segwit
    ensures ws.Some? ==> |ws.value| == count && AllValid(WitnessFormat(), ws.value)
    ensures var bytes := if ws.Some? then ManyBytes(WitnessFormat(), ws.value) else [];
      && Holds(v, pos, bytes)
      && WitnessesAt(v, pos, segwit, count)
         == Done(if ws.Some? then Meanings(WitnessFormat(), ws.value) else [], pos + |bytes|)
  {
    if segwit {
      WitnessIsFormat();
      var f := WitnessFormat();
      assert f.parse == WitnessAt;
      hide WitnessFormat, ManyFrom, Explains;
      var found := ManyExplained(f, v, pos, count, []);
      assert [] + Meanings(f, found) == Meanings(f, found);
      ws := Some(found);
    } else {
      ws := None;
    }
  }

  /** A transaction is accepted only if each of its parts is, one behind the other. */
  lemma PartsAccepted(hs: Hashes, v: seq<byte>, pos: nat)
    ensures TransactionAt(hs, v, pos).Done? ==>
      && Int32At(v, pos).Done?
      && var flag := FlagAt(v, Int32At(v, pos).next);
      && flag.Done?
      && var ins := CountedAt(TxInFormat(hs).parse, v, flag.next);
      && ins.Done?
      && var outs := CountedAt(TxOutFormat(hs).parse, v, ins.next);
      && outs.Done?
      && var ws := WitnessesAt(v, outs.next, flag.value, |ins.value|);
      && ws.Done?
      && UintAt(v, ws.next, 4).Done?
  {
    hide Int32At, FlagAt, CountedAt, WitnessesAt, UintAt, TxInFormat, TxOutFormat, HashOf;
  }

  /** The inputs and outputs that an accepted body is made of. */
  lemma BodyExplained(hs: Hashes, v: seq<byte>, pos: nat) returns (ins: Counted<WireTxIn>, outs: Counted<WireTxOut>)
    requires CountedAt(TxInFormat(hs).parse, v, pos).Done?
    requires CountedAt(TxOutFormat(hs).parse, v, CountedAt(TxInFormat(hs).parse, v, pos).next).Done?
    ensures CountedValid(TxInFormat(hs), ins) && CountedValid(TxOutFormat(hs), outs)
    ensures Holds(v, pos, CountedBytes(TxInFormat(hs), ins))
    ensures var p := pos + |CountedBytes(TxInFormat(hs), ins)|;
      && CountedAt(TxInFormat(hs).parse, v, pos) == Done(Meanings(TxInFormat(hs), ins.items), p)
      && Holds(v, p, CountedBytes(TxOutFormat(hs), outs))
      && CountedAt(TxOutFormat(hs).parse, v, p)
         == Done(Meanings(TxOutFormat(hs), outs.items), p + |CountedBytes(TxOutFormat(hs), outs)|)
  {
    hide CountedAt, TxInFormat, TxOutFormat, CountedBytes, CountedValid, Explains, Holds;
    TxInExplained(hs);
    ins := CountedExplained(TxInFormat(hs), v, pos);
    TxOutExplained(hs);
    outs := CountedExplained(TxOutFormat(hs), v, pos + |CountedBytes(TxInFormat(hs), ins)|);
  }

  /** Whatever is accepted as a transaction is the serialisation of a valid one. */
  lemma TransactionExplained(hs: Hashes, v: seq<byte>, pos: nat) returns (w: WireTx)
    ensures TransactionAt(hs, v, pos).Done? ==>
      && w.Valid(hs) && !w.LooksFlagged() && Holds(v, pos, w.Bytes(hs))
      && TransactionAt(hs, v, pos) == Done(w.Meaning(hs), pos + |w.Bytes(hs)|)
  {
    hide TransactionAt, Int32At, FlagAt, CountedAt, WitnessesAt, UintAt, TxInFormat, TxOutFormat, CountedBytes,
         LeBytes, Int32Bytes, HashOf, CountedValid, WitnessFormat, Holds, WireTx.Bytes, WireTx.Meaning,
         WireTx.LooksFlagged;
    PartsAccepted(hs, v, pos);
    if TransactionAt(hs, v, pos).Fail? {
      w := *;
      return;
    }
    Int32Explained(v, pos);
    var p1 := pos + 4;
    FlagExplained(v, p1);
    var segwit, p2 := FlagAt(v, p1).value, FlagAt(v, p1).next;
    var ins, outs := BodyExplained(hs, v, p2);
    var p4 := p2 + |CountedBytes(TxInFormat(hs), ins)| + |CountedBytes(TxOutFormat(hs), outs)|;
    HoldsWithin(v, p4 - |CountedBytes(TxOutFormat(hs), outs)|, CountedBytes(TxOutFormat(hs), outs));
    var ws := WitnessesExplained(v, p4, segwit, |ins.items|);
    var p5 := p4 + |if ws.Some? then ManyBytes(WitnessFormat(), ws.value) else []|;
    UintAtExplained(v, p5, 4);
    w := WireTx(Int32At(v, pos).value, ins, outs, ws, UintAt(v, p5, 4).value);
    EmptyHolds(v, p2);
    PiecesHold(hs, v, pos, w);
    LegacyIsLegacy(hs, v, p2, w);
    TransactionReads(hs, v, pos, w);
  }

  lemma HoldsWithin(v: seq<byte>, pos: nat, b: seq<byte>)
    requires Holds(v, pos, b)
    ensures pos + |b| <= |v|
  {
  }

  lemma EmptyHolds(v: seq<byte>, pos: nat)
    requires pos <= |v|
    ensures Holds(v, pos, [])
  {
  }

  /** A body that was not taken for marker and flag does not look like them. */
  lemma LegacyIsLegacy(hs: Hashes, v: seq<byte>, pos: nat, w: WireTx)
    requires w.Valid(hs) && pos + 2 <= |v|
    requires w.witnesses.None? ==> v[pos..pos + 2] != [0, 1]
    requires Holds(v, pos, CountedBytes(TxInFormat(hs), w.ins))
    requires Holds(v, pos + |CountedBytes(TxInFormat(hs), w.ins)|, CountedBytes(TxOutFormat(hs), w.outs))
    ensures !w.LooksFlagged()
  {
    hide CountedBytes, TxInFormat, TxOutFormat;
    if w.witnesses.None? {
      HoldsSplit(v, pos, CountedBytes(TxInFormat(hs), w.ins), CountedBytes(TxOutFormat(hs), w.outs));
      BodyStart(hs, v, pos, w);
    }
  }

  lemma PiecesHold(hs: Hashes, v: seq<byte>, pos: nat, w: WireTx)
    requires Holds(v, pos, w.VersionBytes())
    requires Holds(v, pos + |w.VersionBytes()|, w.FlagBytes())
    requires var p2 := pos + |w.VersionBytes()| + |w.FlagBytes()|;
      var ins, outs := CountedBytes(TxInFormat(hs), w.ins), CountedBytes(TxOutFormat(hs), w.outs);
      && Holds(v, p2, ins) && Holds(v, p2 + |ins|, outs)
      && Holds(v, p2 + |ins| + |outs|, w.WitnessBytes())
      && Holds(v, p2 + |ins| + |outs| + |w.WitnessBytes()|, LeBytes(w.lockTime, 4))
    ensures Holds(v, pos, w.Bytes(hs))
  {
    hide TxInFormat, TxOutFormat, CountedBytes, LeBytes, WireTx.VersionBytes, WireTx.FlagBytes,
         WireTx.WitnessBytes, Holds;
    var b1, b2, ins, outs := w.VersionBytes(), w.FlagBytes(),
      CountedBytes(TxInFormat(hs), w.ins), CountedBytes(TxOutFormat(hs), w.outs);
    var b5, b6 := w.WitnessBytes(), LeBytes(w.lockTime, 4);
    var p1 := pos + |b1|;
    var p2 := p1 + |b2|;
    HoldsSplit(v, p2 + |ins| + |outs|, b5, b6);
    HoldsSplit(v, p2, ins, outs);
    HoldsSplit(v, p2, ins + outs, b5 + b6);
    HoldsSplit(v, p1, b2, (ins + outs) + (b5 + b6));
    HoldsSplit(v, pos, b1, b2 + ((ins + outs) + (b5 + b6)));
  }

  lemma TransactionIsFormat(hs: Hashes)
    ensures Reads(TransactionFormat(hs)) && Explains(TransactionFormat(hs))
  {
    hide TransactionAt, WireTx.Valid, WireTx.Bytes, WireTx.Meaning;
    var f := TransactionFormat(hs);
    forall w: WireTx, v: seq<byte>, pos: nat | f.valid(w) && Holds(v, pos, f.bytes(w))
      ensures IsParsedAs(f, v, pos, w)
    {
      TransactionReads(hs, v, pos, w);
    }
    forall v: seq<byte>, pos: nat | f.parse(v, pos).Done? ensures exists w: WireTx :: IsParsedAs(f, v, pos, w) {
      var w := TransactionExplained(hs, v, pos);
      assert IsParsedAs(f, v, pos, w);
    }
  }
}
