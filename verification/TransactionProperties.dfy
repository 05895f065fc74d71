/** What follows for a parsed transaction: exactness, locality, sizes, hashes and canonical serialisation. */
module TransactionProperties {
  import opened Common
  import opened Hashing
  import opened LittleEndian
  import opened BitcoinReader
  import opened Formats
  import opened Transactions
  import opened TransactionRoundTrip

  /** A valid serialisation is read back as what it means exactly when it does not look flagged:
      the legacy transactions without inputs and with one output are the only ones misread. */
  lemma ReadBackExactly(hs: Hashes, v: seq<byte>, pos: nat, w: WireTx)
    requires w.Valid(hs) && Holds(v, pos, w.Bytes(hs))
    ensures TransactionAt(hs, v, pos) == Done(w.Meaning(hs), pos + |w.Bytes(hs)|) <==> !w.LooksFlagged()
  {
    if w.LooksFlagged() {
      MisreadAsFlagged(hs, v, pos, w);
    } else {
      TransactionReads(hs, v, pos, w);
    }
  }

  lemma MisreadAsFlagged(hs: Hashes, v: seq<byte>, pos: nat, w: WireTx)
    requires w.Valid(hs) && w.LooksFlagged() && Holds(v, pos, w.Bytes(hs))
    ensures var r := TransactionAt(hs, v, pos); r.Done? ==> r.value.segwitFlag
  {
    hide CountedAt, WitnessesAt, TxInFormat, TxOutFormat, CountedBytes, LeBytes, CountedValid, ToInt32, LeValue, HashOf;
    var rest := w.WitnessBytes() + LeBytes(w.lockTime, 4);
    HoldsSplit(v, pos, w.VersionBytes(), w.FlagBytes() + (w.Body(hs) + rest));
    HoldsSplit(v, pos + 4, w.FlagBytes(), w.Body(hs) + rest);
    HoldsSplit(v, pos + 4, w.Body(hs), rest);
    BodyStart(hs, v, pos + 4, w);
  }

  /** Such a transaction exists: version 1, no inputs, one output of nothing to an empty script. */
  lemma MisreadExample(hs: Hashes, after: seq<byte>) returns (w: WireTx)
    ensures w.Valid(hs)
    ensures TransactionAt(hs, w.Bytes(hs) + after, 0) != Done(w.Meaning(hs), |w.Bytes(hs)|)
  {
    hide TransactionAt, WireTx.Bytes, WireTx.Meaning;
    var output := WireTxOut(0, WireString(Short, []));
    w := WireTx(1, Counted(Short, []), Counted(Short, [output]), None, 0);
    assert (w.Bytes(hs) + after)[0..|w.Bytes(hs)|] == w.Bytes(hs);
    ReadBackExactly(hs, w.Bytes(hs) + after, 0, w);
  }

  /** The result depends only on the bytes consumed, although the flag test reads ahead and rewinds. */
  lemma TransactionIsLocal(hs: Hashes, v: seq<byte>, pos: nat, v': seq<byte>, pos': nat)
    ensures var r := TransactionAt(hs, v, pos);
      r.Done? ==>
      && pos <= r.next <= |v|
      && (Holds(v', pos', v[pos..r.next]) ==> TransactionAt(hs, v', pos') == r.(next := pos' + (r.next - pos)))
  {
    hide TransactionAt, WireTx.Bytes, WireTx.Meaning, WireTx.Valid;
    var w := TransactionExplained(hs, v, pos);
    if TransactionAt(hs, v, pos).Done? && Holds(v', pos', w.Bytes(hs)) {
      TransactionReads(hs, v', pos', w);
    }
  }

  /** One witness per input in a flagged transaction, none in a legacy one. */
  lemma WitnessPerInput(hs: Hashes, v: seq<byte>, pos: nat)
    ensures var r := TransactionAt(hs, v, pos);
      r.Done? ==> |r.value.witnesses| == if r.value.segwitFlag then |r.value.vIn| else 0
  {
    hide TransactionAt, WireTx.Bytes;
    var w := TransactionExplained(hs, v, pos);
  }

  // Truncated input.

  lemma {:induction false} ManyFails<T>(parse: (seq<byte>, nat) -> Parse<T>, v: seq<byte>, pos: nat, n: nat,
                                        read: seq<T>)
    requires forall p: nat :: parse(v, p).Fail? ==> parse(v, p).error == FileReadingFailure
    ensures var r := ManyFrom(parse, v, pos, n, read); r.Fail? ==> r.error == FileReadingFailure
    decreases n
  {
    if n > 0 && parse(v, pos).Done? {
      ManyFails(parse, v, parse(v, pos).next, n - 1, read + [parse(v, pos).value]);
    }
  }

  lemma CountedFails<T>(parse: (seq<byte>, nat) -> Parse<T>, v: seq<byte>, pos: nat)
    requires forall p: nat :: parse(v, p).Fail? ==> parse(v, p).error == FileReadingFailure
    ensures var r := CountedAt(parse, v, pos); r.Fail? ==> r.error == FileReadingFailure
  {
    if CompactAt(v, pos).Done? {
      ManyFails(parse, v, CompactAt(v, pos).next, CompactAt(v, pos).value, []);
    }
  }

  lemma WitnessesFail(v: seq<byte>, pos: nat, segwit: bool, count: nat)
    ensures var r := WitnessesAt(v, pos, segwit, count); r.Fail? ==> r.error == FileReadingFailure
  {
    hide CountedAt, ManyFrom;
    forall p: nat ensures WitnessAt(v, p).Fail? ==> WitnessAt(v, p).error == FileReadingFailure {
      CountedFails(ItemAt, v, p);
    }
    ManyFails(WitnessAt, v, pos, count, []);
  }

  /** A transaction is only ever rejected because the file ends too early. */
  lemma TransactionFails(hs: Hashes, v: seq<byte>, pos: nat)
    ensures var r := TransactionAt(hs, v, pos); r.Fail? ==> r.error == FileReadingFailure
  {
    hide CountedAt, WitnessesAt, HashOf;
    if Int32At(v, pos).Done? && FlagAt(v, Int32At(v, pos).next).Done? {
      var flag := FlagAt(v, Int32At(v, pos).next);
      CountedFails(TxInFormat(hs).parse, v, flag.next);
      var ins := CountedAt(TxInFormat(hs).parse, v, flag.next);
      if ins.Done? {
        CountedFails(TxOutFormat(hs).parse, v, ins.next);
        var outs := CountedAt(TxOutFormat(hs).parse, v, ins.next);
        if outs.Done? {
          WitnessesFail(v, outs.next, flag.value, |ins.value|);
        }
      }
    }
  }

  /** Cutting the file off behind an accepted transaction changes nothing; cutting it off anywhere
      within makes the read fail, so no transaction is a prefix of another. */
  lemma TruncationDetected(hs: Hashes, v: seq<byte>, pos: nat, cut: nat)
    requires pos <= cut <= |v|
    ensures var r := TransactionAt(hs, v, pos);
      var t := TransactionAt(hs, v[..cut], pos);
      r.Done? ==> if r.next <= cut then t == r else t.Fail? && t.error == FileReadingFailure
  {
    hide TransactionAt;
    var r, t := TransactionAt(hs, v, pos), TransactionAt(hs, v[..cut], pos);
    TransactionIsLocal(hs, v, pos, v[..cut], pos);
    TransactionIsLocal(hs, v[..cut], pos, v, pos);
    TransactionFails(hs, v[..cut], pos);
    if r.Done? && r.next <= cut {
      assert v[..cut][pos..r.next] == v[pos..r.next];
    }
    if t.Done? {
      assert v[pos..t.next] == v[..cut][pos..t.next];
    }
  }

  // Hash pre-images.

  lemma StrippedUnlessSegwit(hs: Hashes, w: WireTx)
    ensures w.Bytes(hs) == w.StrippedBytes(hs) <==> w.witnesses.None?
  {
    hide WireTx.Body, WireTx.VersionBytes, WireTx.WitnessBytes;
    var lock := LeBytes(w.lockTime, 4);
    if w.witnesses.None? {
      assert w.WitnessBytes() == [] by { LegacyHasNoWitnessBytes(w); }
      assert [] + lock == lock;
      assert [] + (w.Body(hs) + lock) == w.Body(hs) + lock;
    } else {
      assert |w.FlagBytes()| == 2;
      assert |w.Bytes(hs)| >= |w.StrippedBytes(hs)| + 2;
    }
  }

  lemma LegacyHasNoWitnessBytes(w: WireTx)
    requires w.witnesses.None?
    ensures w.WitnessBytes() == []
  {
  }

  /** The hash is taken over exactly the bytes consumed. They are the BIP 144 txid pre-image if and only
      if no marker and flag follow the version: otherwise marker, flag and witnesses are hashed too. */
  lemma HashPreimage(hs: Hashes, v: seq<byte>, pos: nat) returns (w: WireTx)
    ensures var r := TransactionAt(hs, v, pos);
      r.Done? ==>
      && pos + 6 <= r.next <= |v|
      && w.Valid(hs) && v[pos..r.next] == w.Bytes(hs)
      && r.value == w.Meaning(hs)
      && r.value.currentTransactionHash == Reverse(hs.sha256(hs.sha256(v[pos..r.next])))
      && (v[pos..r.next] == w.StrippedBytes(hs) <==> v[pos + 4..pos + 6] != [0, 1])
  {
    hide TransactionAt, WireTx.Bytes, WireTx.StrippedBytes;
    w := TransactionExplained(hs, v, pos);
    StrippedUnlessSegwit(hs, w);
    TransactionSize(hs, v, pos);
    if TransactionAt(hs, v, pos).Done? {
      FlagFollowsVersion(hs, v, pos);
    }
  }

  lemma FlagFollowsVersion(hs: Hashes, v: seq<byte>, pos: nat)
    requires pos + 6 <= |v|
    ensures var r := TransactionAt(hs, v, pos);
      r.Done? ==> (r.value.segwitFlag <==> v[pos + 4..pos + 6] == [0, 1])
  {
    hide CountedAt, WitnessesAt, TxInFormat, TxOutFormat, LeValue, HashOf;
  }

  /** A flagged transaction whose hash is not its txid: one input of nothing, one output of nothing,
      and an empty witness. It is read back as itself. */
  lemma HashIsNotTxidExample(hs: Hashes, after: seq<byte>) returns (w: WireTx)
    ensures w.Valid(hs)
    ensures TransactionAt(hs, w.Bytes(hs) + after, 0) == Done(w.Meaning(hs), |w.Bytes(hs)|)
    ensures w.Meaning(hs).currentTransactionHash == Reverse(hs.sha256(hs.sha256(w.Bytes(hs))))
    ensures w.Bytes(hs) != w.StrippedBytes(hs)
  {
    hide TransactionAt, WireTx.Bytes, WireTx.StrippedBytes;
    var empty := WireString(Short, []);
    var input := WireTxIn(seq(32, _ => 0), 0, empty, 0);
    w := WireTx(1, Counted(Short, [input]), Counted(Short, [WireTxOut(0, empty)]), Some([Counted(Short, [])]), 0);
    assert (w.Bytes(hs) + after)[0..|w.Bytes(hs)|] == w.Bytes(hs);
    ReadBackExactly(hs, w.Bytes(hs) + after, 0, w);
    StrippedUnlessSegwit(hs, w);
  }

  // Sizes: a count read from the file cannot exceed the bytes behind it.

  lemma TxInSize(hs: Hashes, ins: Counted<WireTxIn>)
    requires CountedValid(TxInFormat(hs), ins)
    ensures |CountedBytes(TxInFormat(hs), ins)| >= 1 + 41 * |ins.items|
  {
    var f := TxInFormat(hs);
    forall w: WireTxIn | f.valid(w) ensures |f.bytes(w)| >= 41 {
      CompactFirstByte(w.script.form, |w.script.data|);
    }
    ManySize(f, ins.items, 41);
    CompactFirstByte(ins.form, |ins.items|);
  }

  lemma TxOutSize(hs: Hashes, outs: Counted<WireTxOut>)
    requires CountedValid(TxOutFormat(hs), outs)
    ensures |CountedBytes(TxOutFormat(hs), outs)| >= 1 + 9 * |outs.items|
  {
    var f := TxOutFormat(hs);
    forall w: WireTxOut | f.valid(w) ensures |f.bytes(w)| >= 9 {
      CompactFirstByte(w.script.form, |w.script.data|);
    }
    ManySize(f, outs.items, 9);
    CompactFirstByte(outs.form, |outs.items|);
  }

  lemma WitnessSize(w: WireWitness)
    requires CountedValid(ItemFormat(), w)
    ensures |CountedBytes(ItemFormat(), w)| >= 1 + |w.items|
  {
    var f := ItemFormat();
    forall item: WireString | f.valid(item) ensures |f.bytes(item)| >= 1 {
      CompactFirstByte(item.form, |item.data|);
    }
    ManySize(f, w.items, 1);
    CompactFirstByte(w.form, |w.items|);
  }

  function ItemCount(witnesses: seq<Witness>): nat {
    if witnesses == [] then 0 else 1 + |witnesses[0].witnessData| + ItemCount(witnesses[1..])
  }

  lemma {:induction false} WitnessesSize(ws: seq<WireWitness>)
    requires AllValid(WitnessFormat(), ws)
    ensures |ManyBytes(WitnessFormat(), ws)| >= ItemCount(Meanings(WitnessFormat(), ws))
    decreases |ws|
  {
    var f := WitnessFormat();
    if ws != [] {
      WitnessSize(ws[0]);
      WitnessesSize(ws[1..]);
      assert Meanings(f, ws)[1..] == Meanings(f, ws[1..]);
      assert f.meaning(ws[0]).witnessData == Meanings(ItemFormat(), ws[0].items);
    }
  }

  /** Every input costs at least 41 bytes, every output 9, every witness and every item of it one. */
  lemma TransactionSize(hs: Hashes, v: seq<byte>, pos: nat)
    ensures var r := TransactionAt(hs, v, pos);
      r.Done? ==>
      && r.next <= |v|
      && r.next - pos >= 10 + 41 * |r.value.vIn| + 9 * |r.value.vOut| + ItemCount(r.value.witnesses)
  {
    hide TransactionAt, CountedBytes, TxInFormat, TxOutFormat, WitnessFormat, ItemCount, HashOf;
    var w := TransactionExplained(hs, v, pos);
    if TransactionAt(hs, v, pos).Done? {
      TxInSize(hs, w.ins);
      TxOutSize(hs, w.outs);
      if w.witnesses.Some? {
        WitnessesSize(w.witnesses.value);
      } else {
        NoItems();
      }
    }
  }

  lemma NoItems()
    ensures ItemCount([]) == 0
  {
  }
}
