/** Counted loops over a file: where each iteration starts, and how early a count that lies is found out. */
module CountedLoops {
  import opened Common
  import opened Hashing
  import opened BitcoinReader
  import opened Formats
  import opened Transactions
  import opened TransactionRoundTrip
  import opened TransactionProperties
  import opened LittleEndian
  import TransactionScriptParser

  /** Whatever the parse accepts takes at least so many bytes of the file. */
  ghost predicate Costs<T>(parse: (seq<byte>, nat) -> Parse<T>, v: seq<byte>, least: nat) {
    forall pos: nat {:trigger parse(v, pos)} ::
      pos <= |v| && parse(v, pos).Done? ==> pos + least <= parse(v, pos).next <= |v|
  }

  /** Iteration i of a counted loop starts at least i times the least cost behind its first, within the file. */
  lemma {:induction false} IterationStarts<T>(
      parse: (seq<byte>, nat) -> Parse<T>, v: seq<byte>, pos: nat, i: nat, read: seq<T>, least: nat)
    requires Costs(parse, v, least) && pos <= |v|
    ensures var r := ManyFrom(parse, v, pos, i, read);
      r.Done? ==> |r.value| == |read| + i && pos + least * i <= r.next <= |v|
    decreases i
  {
    if i > 0 && parse(v, pos).Done? {
      var first := parse(v, pos);
      IterationStarts(parse, v, first.next, i - 1, read + [first.value], least);
      OneMore(least, i);
    }
  }

  lemma OneMore(least: nat, i: nat)
    requires i > 0
    ensures least * i == least + least * (i - 1)
  {
  }

  /** A count that the rest of the file cannot satisfy fails, where and as the first item that is not
      there fails, after no more iterations than the rest of the file has room for. */
  lemma {:induction false} FailsEarly<T>(
      parse: (seq<byte>, nat) -> Parse<T>, v: seq<byte>, pos: nat, n: nat, read: seq<T>, least: nat) returns (i: nat)
    requires Costs(parse, v, least) && pos <= |v| < pos + least * n
    ensures i < n && pos + least * i <= |v|
    ensures ManyFrom(parse, v, pos, i, read).Done?
    ensures var stop := parse(v, ManyFrom(parse, v, pos, i, read).next);
      stop.Fail? && ManyFrom(parse, v, pos, n, read) == Fail(stop.error, stop.at)
    decreases n
  {
    var first := parse(v, pos);
    if first.Fail? {
      i := 0;
    } else {
      OneMore(least, n);
      var rest := FailsEarly(parse, v, first.next, n - 1, read + [first.value], least);
      i := rest + 1;
      OneMore(least, i);
    }
  }

  lemma InputCosts(hs: Hashes, v: seq<byte>)
    ensures Costs(TxInFormat(hs).parse, v, 41)
  {
    forall pos: nat | pos <= |v| && TxInAt(hs, v, pos).Done?
      ensures pos + 41 <= TxInAt(hs, v, pos).next <= |v|
    {
      TxInCost(hs, v, pos);
    }
  }

  lemma TxInCost(hs: Hashes, v: seq<byte>, pos: nat)
    ensures var r := TxInAt(hs, v, pos);
      r.Done? ==> pos + 41 <= r.next <= |v|
  {
    hide TxInAt;
    if TxInAt(hs, v, pos).Done? {
      var w := OneTxInExplained(hs, v, pos);
      CompactFirstByte(w.script.form, |w.script.data|);
    }
  }

  lemma OutputCosts(hs: Hashes, v: seq<byte>)
    ensures Costs(TxOutFormat(hs).parse, v, 9)
  {
    forall pos: nat | pos <= |v| && TxOutAt(hs, v, pos).Done?
      ensures pos + 9 <= TxOutAt(hs, v, pos).next <= |v|
    {
      TxOutCost(hs, v, pos);
    }
  }

  lemma TxOutCost(hs: Hashes, v: seq<byte>, pos: nat)
    ensures var r := TxOutAt(hs, v, pos);
      r.Done? ==> pos + 9 <= r.next <= |v|
  {
    hide TxOutAt;
    if TxOutAt(hs, v, pos).Done? {
      var w := OneTxOutExplained(hs, v, pos);
      CompactFirstByte(w.script.form, |w.script.data|);
    }
  }

  lemma ItemCosts(v: seq<byte>)
    ensures Costs(ItemAt, v, 1)
  {
    hide ItemAt;
    forall pos: nat | pos <= |v| && ItemAt(v, pos).Done? ensures pos + 1 <= ItemAt(v, pos).next <= |v| {
      ItemCost(v, pos);
    }
  }

  lemma ItemCost(v: seq<byte>, pos: nat)
    ensures var r := ItemAt(v, pos);
      r.Done? ==> pos + 1 <= r.next <= |v|
  {
    hide StringAt;
    if ItemAt(v, pos).Done? {
      var w := StringAtExplained(v, pos);
      CompactFirstByte(w.form, |w.data|);
    }
  }

  lemma WitnessCosts(v: seq<byte>)
    ensures Costs(WitnessAt, v, 1)
  {
    hide CompactAt, ManyFrom;
    ItemCosts(v);
    forall pos: nat | pos <= |v| && WitnessAt(v, pos).Done? ensures pos + 1 <= WitnessAt(v, pos).next <= |v| {
      var form := CompactAtExplained(v, pos);
      var count := CompactAt(v, pos);
      CompactFirstByte(form, count.value);
      IterationStarts(ItemAt, v, count.next, count.value, [], 1);
    }
  }

  lemma TransactionCosts(hs: Hashes, v: seq<byte>)
    ensures Costs(TransactionFormat(hs).parse, v, 10)
  {
    hide TransactionAt;
    forall pos: nat | pos <= |v| && TransactionAt(hs, v, pos).Done?
      ensures pos + 10 <= TransactionAt(hs, v, pos).next <= |v|
    {
      TransactionSize(hs, v, pos);
    }
  }

  /** A count of inputs, outputs, witness items or transactions that the rest of the file has no room for
      is a reading error, found after no more iterations than it has room for. */
  lemma CountFailsEarly<T>(
      parse: (seq<byte>, nat) -> Parse<T>, v: seq<byte>, pos: nat, least: nat) returns (i: nat)
    requires Costs(parse, v, least)
    requires forall p: nat :: parse(v, p).Fail? ==> parse(v, p).error == FileReadingFailure
    requires var count := CompactAt(v, pos);
      count.Done? && |v| < count.next + least * count.value
    ensures var count, r := CompactAt(v, pos), CountedAt(parse, v, pos);
      && i < count.value && count.next + least * i <= |v|
      && ManyFrom(parse, v, count.next, i, []).Done?
      && parse(v, ManyFrom(parse, v, count.next, i, []).next).Fail?
      && r.Fail? && r.error == FileReadingFailure
      && r.at == parse(v, ManyFrom(parse, v, count.next, i, []).next).at
  {
    hide CompactAt, ManyFrom;
    var count := CompactAt(v, pos);
    CountEnds(v, pos);
    i := FailsEarly(parse, v, count.next, count.value, [], least);
  }

  lemma CountEnds(v: seq<byte>, pos: nat)
    requires CompactAt(v, pos).Done?
    ensures pos + 1 <= CompactAt(v, pos).next <= |v|
  {
    hide CompactAt;
    var form := CompactAtExplained(v, pos);
    CompactFirstByte(form, CompactAt(v, pos).value);
  }

  lemma CountedExtent<T>(parse: (seq<byte>, nat) -> Parse<T>, v: seq<byte>, pos: nat, least: nat)
    requires Costs(parse, v, least)
    ensures var r := CountedAt(parse, v, pos);
      r.Done? ==> pos + 1 + least * |r.value| <= r.next <= |v|
  {
    hide CompactAt, ManyFrom;
    if CompactAt(v, pos).Done? {
      var count := CompactAt(v, pos);
      CountEnds(v, pos);
      IterationStarts(parse, v, count.next, count.value, [], least);
    }
  }

  /** The parse stops with the reading error. */
  predicate ReadingFails<T>(r: Parse<T>) { r.Fail? && r.error == FileReadingFailure }

  /** No count can make the parser take more bytes, or return more values, than the file has: a count of
      inputs, outputs, witness items or transactions without the bytes for them is a reading error. */
  lemma CountsAreBounded(hs: Hashes, v: seq<byte>, pos: nat)
    ensures var count := CompactAt(v, pos);
      count.Done? ==>
      && (|v| < count.next + 41 * count.value ==> ReadingFails(CountedAt(TxInFormat(hs).parse, v, pos)))
      && (|v| < count.next + 9 * count.value ==> ReadingFails(CountedAt(TxOutFormat(hs).parse, v, pos)))
      && (|v| < count.next + count.value ==> ReadingFails(CountedAt(ItemAt, v, pos)))
      && (|v| < count.next + 10 * count.value ==> ReadingFails(CountedAt(TransactionFormat(hs).parse, v, pos)))
  {
    hide CompactAt, CountedAt, TxInAt, TxOutAt, ItemAt, TransactionAt, Costs;
    var count := CompactAt(v, pos);
    if count.Done? {
      if |v| < count.next + 41 * count.value {
        InputsReadingFails(hs, v, pos);
      }
      if |v| < count.next + 9 * count.value {
        OutputsReadingFails(hs, v, pos);
      }
      if |v| < count.next + count.value {
        ItemsReadingFails(v, pos);
      }
      if |v| < count.next + 10 * count.value {
        TransactionsReadingFails(hs, v, pos);
      }
    }
  }

  lemma InputsReadingFails(hs: Hashes, v: seq<byte>, pos: nat)
    requires CompactAt(v, pos).Done? && |v| < CompactAt(v, pos).next + 41 * CompactAt(v, pos).value
    ensures ReadingFails(CountedAt(TxInFormat(hs).parse, v, pos))
  {
    hide CompactAt, CountedAt, ManyFrom, Costs, TransactionScriptParser.InputAddress, LeValue;
    InputCosts(hs, v);
    forall p: nat ensures TxInAt(hs, v, p).Fail? ==> TxInAt(hs, v, p).error == FileReadingFailure {
      TxInFails(hs, v, p);
    }
    var i := CountFailsEarly(TxInFormat(hs).parse, v, pos, 41);
  }

  lemma TxInFails(hs: Hashes, v: seq<byte>, pos: nat)
    ensures TxInAt(hs, v, pos).Fail? ==> TxInAt(hs, v, pos).error == FileReadingFailure
  {
    hide TransactionScriptParser.InputAddress, LeValue;
  }

  lemma OutputsReadingFails(hs: Hashes, v: seq<byte>, pos: nat)
    requires CompactAt(v, pos).Done? && |v| < CompactAt(v, pos).next + 9 * CompactAt(v, pos).value
    ensures ReadingFails(CountedAt(TxOutFormat(hs).parse, v, pos))
  {
    hide CompactAt, CountedAt, ManyFrom, Costs;
    OutputCosts(hs, v);
    forall p: nat ensures TxOutAt(hs, v, p).Fail? ==> TxOutAt(hs, v, p).error == FileReadingFailure {
      TxOutFails(hs, v, p);
    }
    var i := CountFailsEarly(TxOutFormat(hs).parse, v, pos, 9);
  }

  lemma TxOutFails(hs: Hashes, v: seq<byte>, pos: nat)
    ensures TxOutAt(hs, v, pos).Fail? ==> TxOutAt(hs, v, pos).error == FileReadingFailure
  {
    hide TransactionScriptParser.OutputAddress, LeValue;
  }

  lemma ItemsReadingFails(v: seq<byte>, pos: nat)
    requires CompactAt(v, pos).Done? && |v| < CompactAt(v, pos).next + CompactAt(v, pos).value
    ensures ReadingFails(CountedAt(ItemAt, v, pos))
  {
    hide CompactAt, CountedAt, ManyFrom, Costs;
    ItemCosts(v);
    forall p: nat ensures ItemAt(v, p).Fail? ==> ItemAt(v, p).error == FileReadingFailure {
      ItemFails(v, p);
    }
    var i := CountFailsEarly(ItemAt, v, pos, 1);
  }

  lemma ItemFails(v: seq<byte>, pos: nat)
    ensures ItemAt(v, pos).Fail? ==> ItemAt(v, pos).error == FileReadingFailure
  {
    hide LeValue;
  }

  lemma TransactionsReadingFails(hs: Hashes, v: seq<byte>, pos: nat)
    requires CompactAt(v, pos).Done? && |v| < CompactAt(v, pos).next + 10 * CompactAt(v, pos).value
    ensures ReadingFails(CountedAt(TransactionFormat(hs).parse, v, pos))
  {
    hide CompactAt, CountedAt, ManyFrom, Costs, TransactionAt;
    TransactionCosts(hs, v);
    forall p: nat ensures TransactionAt(hs, v, p).Fail? ==> TransactionAt(hs, v, p).error == FileReadingFailure {
      TransactionFails(hs, v, p);
    }
    var i := CountFailsEarly(TransactionFormat(hs).parse, v, pos, 10);
  }
}
