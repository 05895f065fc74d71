/** Which bytes of an accepted file the hashes are taken over. */
module BlockHashes {
  import opened Common
  import opened Hashing
  import opened BitcoinReader
  import opened Formats
  import opened Transactions
  import opened TransactionRoundTrip
  import opened Blocks
  import opened BlockFiles

  /** In repeated serialisations item j stands behind the j before it. */
  lemma {:induction false} ItemHolds<W, T>(f: Format<W, T>, v: seq<byte>, pos: nat, ws: seq<W>, j: nat)
    requires Holds(v, pos, ManyBytes(f, ws)) && j < |ws|
    ensures Holds(v, pos + |ManyBytes(f, ws[..j])|, f.bytes(ws[j]))
    ensures |ManyBytes(f, ws[..j + 1])| == |ManyBytes(f, ws[..j])| + |f.bytes(ws[j])|
    decreases j
  {
    hide Holds;
    var first, rest := f.bytes(ws[0]), ws[1..];
    HoldsSplit(v, pos, first, ManyBytes(f, rest));
    assert ws[..j + 1][1..] == rest[..j];
    if j == 0 {
      assert ManyBytes(f, ws[..0]) == [];
    } else {
      ItemHolds(f, v, pos + |first|, rest, j - 1);
      assert ws[..j][1..] == rest[..j - 1];
    }
  }

  /** Where transaction j of a block starts, counted from the start of its frame. */
  function TransactionStart(hs: Hashes, w: WireBlock, j: nat): nat
    requires j <= |w.transactions.items|
  {
    88 + |CompactBytes(w.transactions.form, |w.transactions.items|)|
      + |ManyBytes(TransactionFormat(hs), w.transactions.items[..j])|
  }

  /** Transaction j of the block whose frame starts at the position is read from its own bytes, and its
      hash is the reversed double hash of them. */
  ghost predicate TransactionHashed(hs: Hashes, v: seq<byte>, at: nat, w: WireBlock, j: nat)
    requires j < |w.transactions.items|
  {
    var from, to := at + TransactionStart(hs, w, j), at + TransactionStart(hs, w, j + 1);
    var t := w.Meaning(hs).transactions[j];
    && from < to <= |v|
    && TransactionAt(hs, v, from) == Done(t, to)
    && t.currentTransactionHash == Reverse(hs.sha256(hs.sha256(v[from..to])))
  }

  lemma TransactionIsHashed(hs: Hashes, v: seq<byte>, at: nat, w: WireBlock, j: nat)
    requires w.Valid(hs) && Holds(v, at + 8, w.Body(hs)) && j < |w.transactions.items|
    ensures TransactionHashed(hs, v, at, w, j)
  {
    hide WireTx.Bytes, WireTx.Valid, WireTx.LooksFlagged, TransactionAt, WireHeader.Bytes, WireHeader.Meaning, Holds,
         CompactBytes, ManyBytes;
    var f, items := TransactionFormat(hs), w.transactions.items;
    var count := CompactBytes(w.transactions.form, |items|);
    HeaderSize(w.header);
    HoldsSplit(v, at + 8, w.header.Bytes(), count + ManyBytes(f, items));
    HoldsSplit(v, at + 88, count, ManyBytes(f, items));
    ItemHolds(f, v, at + 88 + |count|, items, j);
    var from := at + TransactionStart(hs, w, j);
    assert f.valid(items[j]);
    TransactionReads(hs, v, from, items[j]);
    BytesHeld(v, from, items[j].Bytes(hs));
    NotEmpty(hs, items[j]);
  }

  lemma HeaderSize(w: WireHeader)
    requires w.Valid()
    ensures |w.Bytes()| == 80
  {
  }

  lemma BytesHeld(v: seq<byte>, pos: nat, b: seq<byte>)
    requires Holds(v, pos, b)
    ensures pos + |b| <= |v| && v[pos..pos + |b|] == b
  {
  }

  lemma NotEmpty(hs: Hashes, w: WireTx)
    ensures |w.Bytes(hs)| > 0
  {
  }

  lemma HeaderIsHashed(hs: Hashes, v: seq<byte>, at: nat, w: WireBlock)
    requires w.Valid(hs) && Holds(v, at + 8, w.Body(hs))
    ensures at + 88 <= |v|
    ensures w.Meaning(hs).currentBlockHash == Reverse(hs.sha256(hs.sha256(v[at + 8..at + 88])))
  {
    hide WireHeader.Bytes, WireHeader.Meaning, CountedBytes, CountedValid, TransactionFormat, Holds;
    HeaderSize(w.header);
    HoldsSplit(v, at + 8, w.header.Bytes(), CountedBytes(TransactionFormat(hs), w.transactions));
    BytesHeld(v, at + 8, w.header.Bytes());
  }

  /** The hash of a block is the reversed double hash of bytes 8 to 88 of its frame, that of each of its
      transactions is taken over the transaction's own bytes, and the transactions end with the frame. */
  ghost predicate BlockHashed(hs: Hashes, v: seq<byte>, at: nat, w: WireBlock, block: Block) {
    && at + 88 <= |v|
    && block == w.Meaning(hs)
    && block.currentBlockHash == Reverse(hs.sha256(hs.sha256(v[at + 8..at + 88])))
    && (forall j :: 0 <= j < |w.transactions.items| ==> TransactionHashed(hs, v, at, w, j))
    && TransactionStart(hs, w, |w.transactions.items|) == 8 + |w.Body(hs)|
  }

  lemma BlockIsHashed(hs: Hashes, v: seq<byte>, at: nat, w: WireBlock)
    requires w.Valid(hs) && Holds(v, at + 8, w.Body(hs))
    ensures BlockHashed(hs, v, at, w, w.Meaning(hs))
  {
    hide WireBlock.Body, WireBlock.Valid, WireBlock.Meaning, TransactionHashed, TransactionStart;
    HeaderIsHashed(hs, v, at, w);
    forall j | 0 <= j < |w.transactions.items| ensures TransactionHashed(hs, v, at, w, j) {
      TransactionIsHashed(hs, v, at, w, j);
    }
    TransactionsEnd(hs, w);
  }

  /** In every accepted file every block and every transaction is hashed over its own bytes. */
  lemma FileIsHashed(hs: Hashes, v: seq<byte>) returns (ws: seq<WireBlock>)
    requires FileOf(hs, v).Done?
    ensures AllFramed(hs, ws) && |FileOf(hs, v).value| == |ws| && Offset(hs, ws, |ws|) == |v|
    ensures forall i :: 0 <= i < |ws| ==> BlockHashed(hs, v, Offset(hs, ws, i), ws[i], FileOf(hs, v).value[i])
  {
    hide FileFrom, WireBlock.Body, WireBlock.Valid, WireBlock.Meaning, BlockHashed, Offset;
    ws := FramesAreAdjacent(hs, v);
    forall i | 0 <= i < |ws| ensures BlockHashed(hs, v, Offset(hs, ws, i), ws[i], FileOf(hs, v).value[i]) {
      assert FrameStandsAt(hs, v, Offset(hs, ws, i), ws[i]);
      BlockIsHashed(hs, v, Offset(hs, ws, i), ws[i]);
    }
  }

  lemma TransactionsEnd(hs: Hashes, w: WireBlock)
    requires w.Valid(hs)
    ensures TransactionStart(hs, w, |w.transactions.items|) == 8 + |w.Body(hs)|
  {
    hide WireHeader.Bytes, CompactBytes, ManyBytes, TransactionFormat, CountedValid;
    HeaderSize(w.header);
    var items := w.transactions.items;
    assert items[..|items|] == items;
  }
}
