/** Regrouping of bits through a 32-bit accumulator that is never cleared and silently wraps. */
module ConvertBits {
  import opened Common
  import opened BitStrings

  /** uint32_t: what a shift or an "or" leaves after the bits above 31 fell off. */
  function Word32(x: nat): nat { x % Pow2(32) }

  /** The widths for which no pending bit is ever shifted out and every shift count is below 32. */
  predicate ValidWidths(fromBits: nat, toBits: nat) {
    1 <= fromBits < 32 && 1 <= toBits < 31 && fromBits + toBits - 1 <= 32
  }

  /** Bit-wise "or" of two bit strings of the same length. */
  function OrBits(a: seq<bool>, b: seq<bool>): (c: seq<bool>)
    requires |a| == |b|
    ensures |c| == |a|
  {
    seq(|a|, i requires 0 <= i < |a| => a[i] || b[i])
  }

  /** Moves the pending bits up by width and lays a value over them; a value too wide for the gap reaches
      into the pending bits. */
  function Overlaid(pending: seq<bool>, value: nat, width: nat): (bits: seq<bool>)
    ensures |bits| == |pending| + width
  {
    OrBits(pending + Zeros(width), BitsOf(value, |pending| + width))
  }

  /** Regrouping as a queue of bits, without accumulator: values enter at one end as soon as less than a
      group is pending, groups leave at the other. */
  function Regrouped(pending: seq<bool>, data: seq<byte>, fromBits: nat, toBits: nat, pad: bool): seq<nat>
    requires toBits > 0
    decreases |data|, |pending|
  {
    if |pending| >= toBits then
      [ValueOf(pending[..toBits])] + Regrouped(pending[toBits..], data, fromBits, toBits, pad)
    else if data != [] then
      Regrouped(Overlaid(pending, data[0], fromBits), data[1..], fromBits, toBits, pad)
    else if pad && pending != [] then [ValueOf(pending + Zeros(toBits - |pending|))]
    else []
  }

  method Convert(data: seq<byte>, fromBits: nat, toBits: nat, pad: bool := true) returns (result: seq<nat>)
    requires ValidWidths(fromBits, toBits)
    ensures result == Regrouped([], data, fromBits, toBits, pad)
    ensures Fits(result, toBits)
    ensures Fits(data, fromBits) ==> result == Groups(FlatBits(data, fromBits), toBits, pad)
  {
    hide BitsOf, BitOr, Word32, Pow2, Groups, FlatBits, Regrouped, Overlaid, Fits;
    NothingPending();
    var accumulator: nat := 0;
    var mask := Pow2(toBits);
    var currentBits: nat := 0;
    result := [];
    for i := 0 to |data|
      invariant currentBits < toBits
      invariant result + Regrouped(BitsOf(accumulator, currentBits), data[i..], fromBits, toBits, pad)
        == Regrouped([], data, fromBits, toBits, pad)
    {
      AbsorbSymbol(accumulator, currentBits, data, i, fromBits, toBits, pad);
      accumulator := BitOr(Word32(accumulator * Pow2(fromBits)), data[i]);
      currentBits := currentBits + fromBits;
      while currentBits >= toBits
        invariant currentBits <= 32
        invariant result + Regrouped(BitsOf(accumulator, currentBits), data[i + 1..], fromBits, toBits, pad)
          == Regrouped([], data, fromBits, toBits, pad)
      {
        EmitSymbol(result, accumulator, currentBits - toBits, data[i + 1..], fromBits, toBits, pad);
        currentBits := currentBits - toBits;
        result := result + [(accumulator / Pow2(currentBits)) % mask];
      }
    }
    FlushSymbol(accumulator, currentBits, data[|data|..], fromBits, toBits, pad);
    if pad && currentBits != 0 {
      result := result + [Word32(accumulator * Pow2(toBits - currentBits)) % mask];
    }
    RegroupedFits([], data, fromBits, toBits, pad);
    if Fits(data, fromBits) {
      RegroupedIsGrouped([], data, fromBits, toBits, pad);
      assert [] + FlatBits(data, fromBits) == FlatBits(data, fromBits);
    }
  }

  lemma NothingPending()
    ensures BitsOf(0, 0) == []
  {
  }

  // The accumulator holds the queue.

  lemma {:induction false} BitsOfOr(a: nat, b: nat, n: nat)
    ensures BitsOf(BitOr(a, b), n) == OrBits(BitsOf(a, n), BitsOf(b, n))
  {
    if n > 0 {
      HalvesOfOr(a, b);
      BitsOfOr(a / 2, b / 2, n - 1);
    }
  }

  lemma HalvesOfOr(a: nat, b: nat)
    ensures BitOr(a, b) / 2 == BitOr(a / 2, b / 2)
    ensures BitOr(a, b) % 2 == 1 <==> a % 2 == 1 || b % 2 == 1
  {
  }

  lemma {:induction false} BitsOfZero(n: nat)
    ensures BitsOf(0, n) == Zeros(n)
  {
    if n > 0 {
      BitsOfZero(n - 1);
    }
  }

  /** A shift by f appends f zeros to the low bits; those beyond the word are not among them. */
  lemma BitsOfWrappedShift(acc: nat, pending: nat, f: nat)
    requires pending + f <= 32
    ensures BitsOf(Word32(acc * Pow2(f)), pending + f) == BitsOf(acc, pending) + Zeros(f)
  {
    hide BitsOf, Pow2;
    BitsOfMod(acc * Pow2(f), 32, pending + f);
    BitsOfShifted(acc, 0, pending, f);
    BitsOfZero(f);
  }

  lemma AbsorbedBits(acc: nat, value: nat, pending: nat, fromBits: nat)
    requires pending + fromBits <= 32
    ensures BitsOf(BitOr(Word32(acc * Pow2(fromBits)), value), pending + fromBits)
         == Overlaid(BitsOf(acc, pending), value, fromBits)
  {
    hide BitsOf, BitOr, Word32, OrBits;
    BitsOfOr(Word32(acc * Pow2(fromBits)), value, pending + fromBits);
    BitsOfWrappedShift(acc, pending, fromBits);
  }

  /** Shifting a symbol in lays it over the pending bits, although bits above 31 are lost. */
  lemma AbsorbSymbol(acc: nat, pending: nat, data: seq<byte>, i: nat, fromBits: nat, toBits: nat, pad: bool)
    requires pending < toBits && pending + fromBits <= 32
    requires i < |data|
    ensures Regrouped(BitsOf(acc, pending), data[i..], fromBits, toBits, pad)
         == Regrouped(BitsOf(BitOr(Word32(acc * Pow2(fromBits)), data[i]), pending + fromBits), data[i + 1..],
                      fromBits, toBits, pad)
  {
    hide BitsOf, BitOr, Word32, Overlaid;
    AbsorbedBits(acc, data[i], pending, fromBits);
    assert data[i..][1..] == data[i + 1..];
  }

  /** The oldest group of the queue is what shifting and masking the accumulator cut out. */
  lemma EmitSymbol(
      result: seq<nat>, acc: nat, left: nat, rest: seq<byte>, fromBits: nat, toBits: nat, pad: bool)
    requires toBits > 0
    ensures result + Regrouped(BitsOf(acc, left + toBits), rest, fromBits, toBits, pad)
         == result + [(acc / Pow2(left)) % Pow2(toBits)] + Regrouped(BitsOf(acc, left), rest, fromBits, toBits, pad)
  {
    hide BitsOf, Pow2;
    var high := acc / Pow2(left);
    DivMod(acc, Pow2(left));
    BitsOfSplit(acc, high, acc % Pow2(left), toBits, left);
    assert left + toBits == toBits + left;
    assert BitsOf(acc, left + toBits)[..toBits] == BitsOf(high, toBits);
    assert BitsOf(acc, left + toBits)[toBits..] == BitsOf(acc, left);
    ValueOfLowBits(high, toBits);
  }

  lemma ValueOfLowBits(x: nat, n: nat)
    ensures ValueOf(BitsOf(x, n)) == x % Pow2(n)
  {
    hide BitsOf, ValueOf, Pow2;
    DivMod(x, Pow2(n));
    BitsOfMod(x, n, n);
    ValueOfBitsOf(x % Pow2(n), n);
  }

  /** The flush appends the pending bits filled with zeros to a whole group. */
  lemma FlushSymbol(acc: nat, pending: nat, rest: seq<byte>, fromBits: nat, toBits: nat, pad: bool)
    requires pending < toBits <= 32 && rest == []
    ensures Regrouped(BitsOf(acc, pending), rest, fromBits, toBits, pad)
         == if pad && pending != 0 then [Word32(acc * Pow2(toBits - pending)) % Pow2(toBits)] else []
  {
    hide BitsOf, Word32;
    BitsOfWrappedShift(acc, pending, toBits - pending);
    ValueOfLowBits(Word32(acc * Pow2(toBits - pending)), toBits);
    assert pending + (toBits - pending) == toBits;
  }

  // What regrouping means.

  lemma {:induction false} RegroupedFits(
      pending: seq<bool>, data: seq<byte>, fromBits: nat, toBits: nat, pad: bool)
    requires toBits > 0
    ensures Fits(Regrouped(pending, data, fromBits, toBits, pad), toBits)
    decreases |data|, |pending|
  {
    hide Overlaid;
    if |pending| >= toBits {
      BitsOfValueOf(pending[..toBits]);
      RegroupedFits(pending[toBits..], data, fromBits, toBits, pad);
    } else if data != [] {
      RegroupedFits(Overlaid(pending, data[0], fromBits), data[1..], fromBits, toBits, pad);
    } else {
      BitsOfValueOf(pending + Zeros(toBits - |pending|));
    }
  }

  lemma OverlaidFits(pending: seq<bool>, value: nat, width: nat)
    requires value < Pow2(width)
    ensures Overlaid(pending, value, width) == pending + BitsOf(value, width)
  {
    hide BitsOf, OrBits, Pow2;
    NarrowBits(value, |pending|, width);
    OrOfZeros(pending, BitsOf(value, width));
  }

  lemma NarrowBits(value: nat, gap: nat, width: nat)
    requires value < Pow2(width)
    ensures BitsOf(value, gap + width) == Zeros(gap) + BitsOf(value, width)
  {
    hide BitsOf, Pow2;
    BitsOfShifted(0, value, gap, width);
    BitsOfZero(gap);
  }

  lemma OrOfZeros(a: seq<bool>, b: seq<bool>)
    ensures OrBits(a + Zeros(|b|), Zeros(|a|) + b) == a + b
  {
  }

  lemma FirstGroup(pending: seq<bool>, rest: seq<bool>, width: nat, pad: bool)
    requires 0 < width <= |pending|
    ensures Groups(pending + rest, width, pad)
         == [ValueOf(pending[..width])] + Groups(pending[width..] + rest, width, pad)
  {
    assert (pending + rest)[..width] == pending[..width];
    assert (pending + rest)[width..] == pending[width..] + rest;
  }

  /** Values that fit their width are regrouped as one big-endian bit string. */
  lemma {:induction false} RegroupedIsGrouped(
      pending: seq<bool>, data: seq<byte>, fromBits: nat, toBits: nat, pad: bool)
    requires toBits > 0 && Fits(data, fromBits)
    ensures Regrouped(pending, data, fromBits, toBits, pad)
         == Groups(pending + FlatBits(data, fromBits), toBits, pad)
    decreases |data|, |pending|
  {
    hide Overlaid, BitsOf;
    var all := pending + FlatBits(data, fromBits);
    if |pending| >= toBits {
      hide FlatBits, Groups;
      RegroupedIsGrouped(pending[toBits..], data, fromBits, toBits, pad);
      FirstGroup(pending, FlatBits(data, fromBits), toBits, pad);
    } else if data != [] {
      OverlaidFits(pending, data[0], fromBits);
      RegroupedIsGrouped(Overlaid(pending, data[0], fromBits), data[1..], fromBits, toBits, pad);
      assert all == Overlaid(pending, data[0], fromBits) + FlatBits(data[1..], fromBits);
    } else {
      assert all == pending;
    }
  }

  /** Regrouping bytes into 5-bit symbols with padding and back without it is the identity. */
  lemma RegroupRoundTrip(bytes: seq<nat>)
    requires Fits(bytes, 8)
    ensures var symbols := Groups(FlatBits(bytes, 8), 5, true);
      && Fits(symbols, 5)
      && Groups(FlatBits(symbols, 5), 8, false) == bytes
  {
    var bits := FlatBits(bytes, 8);
    var fill := FlatBitsOfPaddedGroups(bits, 5);
    GroupsOfFlatBits(bytes, Zeros(fill), 8, false);
  }

  /** A padded regrouping has as many symbols as whole groups are needed: ceil(n * from / to). */
  lemma RegroupLength(data: seq<nat>, fromBits: nat, toBits: nat)
    requires toBits > 0
    ensures var n := |Groups(FlatBits(data, fromBits), toBits, true)|;
      (n - 1) * toBits < |data| * fromBits <= n * toBits
  {
    hide Groups, FlatBits;
    var bits := FlatBits(data, fromBits);
    FlatBitsLength(data, fromBits);
    var fill := FlatBitsOfPaddedGroups(bits, toBits);
    var symbols := Groups(bits, toBits, true);
    FlatBitsLength(symbols, toBits);
    GroupsNeeded(|symbols|, toBits, |data| * fromBits, fill);
  }

  lemma GroupsNeeded(n: nat, width: nat, bits: nat, fill: nat)
    requires n * width == bits + fill && fill < width
    ensures (n - 1) * width < bits <= n * width
  {
    assert (n - 1) * width == n * width - width;
  }

  /** The two directions run one after the other, as an address decoder runs them. */
  method ConvertThereAndBack(bytes: seq<byte>) returns (symbols: seq<nat>, back: seq<nat>)
    ensures Fits(symbols, 5)
    ensures back == bytes
  {
    hide Groups, FlatBits, Regrouped;
    PowersOfTwo();
    symbols := Convert(bytes, 8, 5, true);
    back := Convert(symbols, 5, 8, false);
    RegroupRoundTrip(bytes);
  }
}
