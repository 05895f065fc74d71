/** Parsing and serialising again: never longer, and the same bytes exactly for minimal CompactSize forms. */
module TransactionCanonical {
  import opened Common
  import opened Hashing
  import LittleEndian
  import opened Formats
  import opened Transactions
  import opened TransactionRoundTrip
  import opened TransactionSerializer
  import TransactionScriptParser

  // What minimal means, at every level.

  predicate MinimalString(w: WireString) { w.form == Minimal(|w.data|) }

  predicate MinimalWitness(w: WireWitness) {
    && w.form == Minimal(|w.items|)
    && forall i :: 0 <= i < |w.items| ==> MinimalString(w.items[i])
  }

  predicate MinimalInputs(c: Counted<WireTxIn>) {
    && c.form == Minimal(|c.items|)
    && forall i :: 0 <= i < |c.items| ==> MinimalString(c.items[i].script)
  }

  predicate MinimalOutputs(c: Counted<WireTxOut>) {
    && c.form == Minimal(|c.items|)
    && forall i :: 0 <= i < |c.items| ==> MinimalString(c.items[i].script)
  }

  /** Every CompactSize number of the transaction is in its shortest form. */
  predicate AllMinimal(w: WireTx) {
    && MinimalInputs(w.ins)
    && MinimalOutputs(w.outs)
    && (w.witnesses.Some? ==> forall i :: 0 <= i < |w.witnesses.value| ==> MinimalWitness(w.witnesses.value[i]))
  }

  // Another wire value of a format that is shorter, or the same.

  predicate Shrinks<W(==), T>(f: Format<W, T>, small: W, w: W) {
    && |f.bytes(small)| <= |f.bytes(w)|
    && (|f.bytes(small)| == |f.bytes(w)| ==> small == w)
  }

  lemma MinimalShrinks(form: Form, n: nat)
    requires FormFits(form, n)
    ensures |CompactBytes(Minimal(n), n)| <= |CompactBytes(form, n)|
    ensures |CompactBytes(Minimal(n), n)| == |CompactBytes(form, n)| ==> form == Minimal(n)
  {
    hide LittleEndian.LeBytes;
  }

  lemma StringShrinks(w: WireString)
    requires w.Valid()
    ensures |StringOf(w.data).Bytes()| <= |w.Bytes()|
    ensures |StringOf(w.data).Bytes()| == |w.Bytes()| ==> StringOf(w.data) == w
  {
    hide CompactBytes, Minimal;
    MinimalShrinks(w.form, |w.data|);
  }

  lemma {:induction false} ManyShrinks<W, T>(f: Format<W, T>, smalls: seq<W>, ws: seq<W>)
    requires |smalls| == |ws| && forall i :: 0 <= i < |ws| ==> Shrinks(f, smalls[i], ws[i])
    ensures |ManyBytes(f, smalls)| <= |ManyBytes(f, ws)|
    ensures |ManyBytes(f, smalls)| == |ManyBytes(f, ws)| ==> smalls == ws
  {
    if ws != [] {
      assert Shrinks(f, smalls[0], ws[0]);
      ManyShrinks(f, smalls[1..], ws[1..]);
      assert smalls == [smalls[0]] + smalls[1..] && ws == [ws[0]] + ws[1..];
    }
  }

  lemma CountedShrinks<W, T>(f: Format<W, T>, smalls: seq<W>, c: Counted<W>)
    requires FormFits(c.form, |c.items|)
    requires |smalls| == |c.items| && forall i :: 0 <= i < |smalls| ==> Shrinks(f, smalls[i], c.items[i])
    ensures |CountedBytes(f, CountedOf(smalls))| <= |CountedBytes(f, c)|
    ensures |CountedBytes(f, CountedOf(smalls))| == |CountedBytes(f, c)| ==> CountedOf(smalls) == c
  {
    hide CompactBytes, Minimal, ManyBytes, Shrinks;
    ManyShrinks(f, smalls, c.items);
    MinimalShrinks(c.form, |c.items|);
  }

  // The parts of a transaction.

  lemma TxInShrinks(hs: Hashes, w: WireTxIn)
    requires w.Valid()
    ensures Shrinks(TxInFormat(hs), WireOfTxIn(w.Meaning(hs)), w)
    ensures WireOfTxIn(w.Meaning(hs)) == w <==> MinimalString(w.script)
  {
    hide TransactionScriptParser.InputAddress, LittleEndian.LeBytes, WireString.Bytes, Minimal;
    ReverseTwice(w.prevHash);
    StringShrinks(w.script);
  }

  lemma TxOutShrinks(hs: Hashes, w: WireTxOut)
    requires w.Valid()
    ensures Shrinks(TxOutFormat(hs), WireOfTxOut(w.Meaning(hs)), w)
    ensures WireOfTxOut(w.Meaning(hs)) == w <==> MinimalString(w.script)
  {
    hide TransactionScriptParser.OutputAddress, LittleEndian.LeBytes, WireString.Bytes, Minimal;
    StringShrinks(w.script);
  }

  lemma ItemShrinks(w: WireString)
    requires w.Valid()
    ensures Shrinks(ItemFormat(), WireOfItem(Reverse(w.data)), w)
    ensures WireOfItem(Reverse(w.data)) == w <==> MinimalString(w)
  {
    hide WireString.Bytes, Minimal;
    ReverseTwice(w.data);
    StringShrinks(w);
  }

  function WiresOfInputs(hs: Hashes, ws: seq<WireTxIn>): seq<WireTxIn> {
    seq(|ws|, i requires 0 <= i < |ws| => WireOfTxIn(ws[i].Meaning(hs)))
  }

  lemma InputsShrink(hs: Hashes, c: Counted<WireTxIn>)
    requires CountedValid(TxInFormat(hs), c)
    ensures var small := CountedOf(WiresOfInputs(hs, c.items));
      && |CountedBytes(TxInFormat(hs), small)| <= |CountedBytes(TxInFormat(hs), c)|
      && (|CountedBytes(TxInFormat(hs), small)| == |CountedBytes(TxInFormat(hs), c)| ==> small == c)
      && (small == c <==> MinimalInputs(c))
  {
    hide WireOfTxIn, WireTxIn.Meaning, CountedBytes, Minimal, MinimalString, Shrinks;
    var smalls := WiresOfInputs(hs, c.items);
    forall i | 0 <= i < |smalls|
      ensures Shrinks(TxInFormat(hs), smalls[i], c.items[i])
      ensures smalls[i] == c.items[i] <==> MinimalString(c.items[i].script)
    {
      assert TxInFormat(hs).valid(c.items[i]);
      TxInShrinks(hs, c.items[i]);
    }
    hide TxInFormat;
    CountedShrinks(TxInFormat(hs), smalls, c);
  }

  function WiresOfOutputs(hs: Hashes, ws: seq<WireTxOut>): seq<WireTxOut> {
    seq(|ws|, i requires 0 <= i < |ws| => WireOfTxOut(ws[i].Meaning(hs)))
  }

  lemma OutputsShrink(hs: Hashes, c: Counted<WireTxOut>)
    requires CountedValid(TxOutFormat(hs), c)
    ensures var small := CountedOf(WiresOfOutputs(hs, c.items));
      && |CountedBytes(TxOutFormat(hs), small)| <= |CountedBytes(TxOutFormat(hs), c)|
      && (|CountedBytes(TxOutFormat(hs), small)| == |CountedBytes(TxOutFormat(hs), c)| ==> small == c)
      && (small == c <==> MinimalOutputs(c))
  {
    hide WireOfTxOut, WireTxOut.Meaning, CountedBytes, Minimal, MinimalString, Shrinks;
    var smalls := WiresOfOutputs(hs, c.items);
    forall i | 0 <= i < |smalls|
      ensures Shrinks(TxOutFormat(hs), smalls[i], c.items[i])
      ensures smalls[i] == c.items[i] <==> MinimalString(c.items[i].script)
    {
      assert TxOutFormat(hs).valid(c.items[i]);
      TxOutShrinks(hs, c.items[i]);
    }
    hide TxOutFormat;
    CountedShrinks(TxOutFormat(hs), smalls, c);
  }

  function WireOfMeaning(w: WireWitness): WireWitness { WireOfWitness(Witness(Meanings(ItemFormat(), w.items))) }

  lemma WitnessShrinks(w: WireWitness)
    requires CountedValid(ItemFormat(), w)
    ensures Shrinks(WitnessFormat(), WireOfMeaning(w), w)
    ensures WireOfMeaning(w) == w <==> MinimalWitness(w)
  {
    hide CountedBytes, Minimal, MinimalString, Shrinks, WireOfItem;
    var small := WireOfMeaning(w);
    forall i | 0 <= i < |w.items|
      ensures small.items[i] == WireOfItem(Reverse(w.items[i].data))
      ensures Shrinks(ItemFormat(), small.items[i], w.items[i])
      ensures small.items[i] == w.items[i] <==> MinimalString(w.items[i])
    {
      assert ItemFormat().valid(w.items[i]);
      ItemShrinks(w.items[i]);
    }
    CountedShrinks(ItemFormat(), small.items, w);
    WitnessLengths(small, w);
  }

  lemma WitnessLengths(small: WireWitness, w: WireWitness)
    requires |CountedBytes(ItemFormat(), small)| <= |CountedBytes(ItemFormat(), w)|
    requires |CountedBytes(ItemFormat(), small)| == |CountedBytes(ItemFormat(), w)| ==> small == w
    ensures Shrinks(WitnessFormat(), small, w)
  {
    hide CountedBytes, ItemFormat;
  }

  function WiresOfWitnesses(ws: seq<WireWitness>): seq<WireWitness> {
    seq(|ws|, i requires 0 <= i < |ws| => WireOfMeaning(ws[i]))
  }

  lemma WitnessesShrink(ws: seq<WireWitness>)
    requires AllValid(WitnessFormat(), ws)
    ensures var smalls := WiresOfWitnesses(ws);
      && |ManyBytes(WitnessFormat(), smalls)| <= |ManyBytes(WitnessFormat(), ws)|
      && (|ManyBytes(WitnessFormat(), smalls)| == |ManyBytes(WitnessFormat(), ws)| ==> smalls == ws)
      && (smalls == ws <==> forall i :: 0 <= i < |ws| ==> MinimalWitness(ws[i]))
  {
    hide WireOfMeaning, MinimalWitness, CountedValid, CountedBytes, ManyBytes, Shrinks;
    var smalls := WiresOfWitnesses(ws);
    forall i | 0 <= i < |ws|
      ensures Shrinks(WitnessFormat(), smalls[i], ws[i])
      ensures smalls[i] == ws[i] <==> MinimalWitness(ws[i])
    {
      assert WitnessFormat().valid(ws[i]);
      WitnessShrinks(ws[i]);
    }
    hide WitnessFormat;
    ManyShrinks(WitnessFormat(), smalls, ws);
  }

  // The transaction.

  /** A wire value with all forms shortened. */
  function Shortened(hs: Hashes, w: WireTx): WireTx {
    WireTx(w.version, CountedOf(WiresOfInputs(hs, w.ins.items)), CountedOf(WiresOfOutputs(hs, w.outs.items)),
      if w.witnesses.Some? then Some(WiresOfWitnesses(w.witnesses.value)) else None, w.lockTime)
  }

  lemma WireOfMeaningIsShortened(hs: Hashes, w: WireTx)
    ensures WireOf(w.Meaning(hs)) == Shortened(hs, w)
  {
    hide WireOfTxIn, WireOfTxOut, WireOfWitness, WireTxIn.Meaning, WireTxOut.Meaning, HashOf, WireTx.Bytes, Minimal,
         ItemFormat;
    var t, s := WireOf(w.Meaning(hs)), Shortened(hs, w);
    assert t.ins.items == s.ins.items;
    assert t.outs.items == s.outs.items;
    if w.witnesses.Some? {
      assert t.witnesses.value == s.witnesses.value;
    }
  }

  lemma ShortenedShrinks(hs: Hashes, w: WireTx)
    requires w.Valid(hs)
    ensures |Shortened(hs, w).Bytes(hs)| <= |w.Bytes(hs)|
    ensures |Shortened(hs, w).Bytes(hs)| == |w.Bytes(hs)| ==> Shortened(hs, w) == w
    ensures Shortened(hs, w) == w <==> AllMinimal(w)
  {
    hide CountedBytes, ManyBytes, TxInFormat, TxOutFormat, WitnessFormat, WiresOfInputs, WiresOfOutputs,
         WiresOfWitnesses, CountedOf, MinimalInputs, MinimalOutputs, MinimalWitness, CountedValid, LittleEndian.LeBytes,
         LittleEndian.Int32Bytes;
    InputsShrink(hs, w.ins);
    OutputsShrink(hs, w.outs);
    if w.witnesses.Some? {
      WitnessesShrink(w.witnesses.value);
    }
  }

  /** The serialisation of an accepted transaction is never longer than the bytes it was read from, and
      it is these bytes if and only if every CompactSize number in them is in its shortest form. */
  lemma ParseSerialize(hs: Hashes, v: seq<byte>, pos: nat) returns (w: WireTx)
    ensures var r := TransactionAt(hs, v, pos);
      r.Done? ==>
      && pos <= r.next <= |v| && w.Valid(hs) && v[pos..r.next] == w.Bytes(hs)
      && r.value == w.Meaning(hs)
      && |Serialize(hs, r.value)| <= r.next - pos
      && (Serialize(hs, r.value) == v[pos..r.next] <==> AllMinimal(w))
  {
    hide TransactionAt, WireTx.Bytes, WireTx.Valid, WireTx.Meaning, AllMinimal, WireOf, Shortened;
    w := TransactionExplained(hs, v, pos);
    if TransactionAt(hs, v, pos).Done? {
      WireOfMeaningIsShortened(hs, w);
      ShortenedShrinks(hs, w);
    }
  }
}
