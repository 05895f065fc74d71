/** What the checksum achieves: created checksums verify, and every short burst of errors is noticed. */
module Bech32Burst {
  import opened Bech32Checksum

  predicate AllZero(s: seq<word>) {
    forall i :: 0 <= i < |s| ==> s[i] == 0
  }

  function Differences(xs: seq<word>, ys: seq<word>): (d: seq<word>)
    requires |xs| == |ys|
    ensures |d| == |xs|
    ensures forall i :: 0 <= i < |xs| ==> d[i] == Xor(xs[i], ys[i])
  {
    seq(|xs|, i requires 0 <= i < |xs| => Xor(xs[i], ys[i]))
  }

  /** Two runs over sequences of the same length differ by the run over their difference. */
  lemma {:induction false} PolymodDifference(a: word, b: word, xs: seq<word>, ys: seq<word>)
    requires |xs| == |ys|
    ensures Xor(PolymodFrom(a, xs), PolymodFrom(b, ys)) == PolymodFrom(Xor(a, b), Differences(xs, ys))
    decreases |xs|
  {
    hide Xor, Step;
    var n := |xs| - 1;
    if n >= 0 {
      PolymodDifference(a, b, xs[..n], ys[..n]);
      StepIsLinear(PolymodFrom(a, xs[..n]), PolymodFrom(b, ys[..n]), xs[n], ys[n]);
      assert Differences(xs, ys)[..n] == Differences(xs[..n], ys[..n]);
    }
  }

  lemma {:induction false} PolymodConcat(c: word, xs: seq<word>, ys: seq<word>)
    ensures PolymodFrom(c, xs + ys) == PolymodFrom(PolymodFrom(c, xs), ys)
    decreases |ys|
  {
    hide Step;
    if ys == [] {
      assert xs + ys == xs;
    } else {
      var n := |ys| - 1;
      PolymodConcat(c, xs, ys[..n]);
      assert (xs + ys)[..|xs + ys| - 1] == xs + ys[..n];
    }
  }

  lemma {:induction false} ZeroStaysZero(zeros: seq<word>)
    requires AllZero(zeros)
    ensures PolymodFrom(0, zeros) == 0
    decreases |zeros|
  {
    hide Xor, Step;
    if zeros != [] {
      ZeroStaysZero(zeros[..|zeros| - 1]);
      StepShiftsIn(0, 0);
      XorZero(0);
    }
  }

  lemma {:induction false} NonzeroStaysNonzero(d: word, zeros: seq<word>)
    requires AllZero(zeros) && 0 != d < LIMIT
    ensures 0 != PolymodFrom(d, zeros) < LIMIT
    decreases |zeros|
  {
    hide Step;
    if zeros != [] {
      var before := zeros[..|zeros| - 1];
      NonzeroStaysNonzero(d, before);
      StepIsInjective(PolymodFrom(d, before));
      StepIs30Bits(PolymodFrom(d, before), 0);
    }
  }

  function Grow5(q: word): word { q << 5 }

  /** One more than the largest value of k symbols side by side. */
  function Room(k: nat): word { if k == 0 then 1 else Grow5(Room(k - 1)) }

  lemma RoomBound(k: nat)
    requires k <= 5
    ensures Room(k) <= 0x200_0000
  {
    assert Room(2) == 0x400;
    assert Room(4) == 0x10_0000;
  }

  lemma RoomForSix()
    ensures Room(6) == LIMIT
  {
    assert Room(2) == 0x400;
    assert Room(4) == 0x10_0000;
  }

  lemma RoomNext(k: nat)
    ensures Room(k + 1) == Grow5(Room(k))
  {
  }

  lemma EmptyFits()
    ensures 0 < Room(0)
  {
  }

  lemma ShiftInOne(p: word, v: word, room: word)
    requires p < room <= 0x200_0000 && v < 32
    ensures Step(p, v) < Grow5(room)
    ensures Step(p, v) == 0 ==> p == 0 && v == 0
  {
    hide Step;
    StepShiftsIn(p, v);
    JoinBound(p, v, room);
  }

  lemma JoinBound(p: word, v: word, room: word)
    requires p < room <= 0x200_0000 && v < 32
    ensures Xor(p << 5, v) < Grow5(room)
    ensures Xor(p << 5, v) == 0 ==> p == 0 && v == 0
  {
  }

  lemma PackOne(p: word, v: word, n: nat)
    requires n < 6 && p < Room(n) && v < 32
    ensures Step(p, v) < Room(n + 1)
    ensures Step(p, v) == 0 ==> p == 0 && v == 0
  {
    hide Step, Grow5, Room;
    RoomNext(n);
    RoomBound(n);
    ShiftInOne(p, v, Room(n));
  }

  /** Up to six symbols fit side by side in a register that starts empty, so none is lost. */
  lemma {:induction false} SixSymbolsArePacked(w: seq<word>)
    requires Symbols(w) && |w| <= 6
    ensures PolymodFrom(0, w) < Room(|w|)
    ensures PolymodFrom(0, w) == 0 ==> AllZero(w)
    decreases |w|
  {
    hide Xor, Step, Grow5;
    if w == [] {
      EmptyFits();
    } else {
      hide Room;
      var before := w[..|w| - 1];
      SixSymbolsArePacked(before);
      PackOne(PolymodFrom(0, before), w[|w| - 1], |w| - 1);
      assert w == before + [w[|w| - 1]];
    }
  }

  /** All differences between the two sequences lie among six consecutive positions. */
  predicate BurstAt(xs: seq<word>, ys: seq<word>, start: nat) {
    && |xs| == |ys|
    && forall k :: 0 <= k < |xs| && (k < start || start + 6 <= k) ==> xs[k] == ys[k]
  }

  predicate ZeroOutside(d: seq<word>, start: nat, end: nat) {
    forall k :: 0 <= k < |d| && (k < start || end <= k) ==> d[k] == 0
  }

  lemma SplitWindow(d: seq<word>, start: nat) returns (before: seq<word>, window: seq<word>, after: seq<word>)
    requires Symbols(d) && !AllZero(d) && ZeroOutside(d, start, start + 6)
    ensures d == before + window + after
    ensures AllZero(before) && AllZero(after)
    ensures |window| <= 6 && Symbols(window) && !AllZero(window)
  {
    hide Symbols, AllZero, ZeroOutside;
    var k := SomeNonzero(d, start);
    var end := if start + 6 <= |d| then start + 6 else |d|;
    before, window, after := d[..start], d[start..end], d[end..];
    CutTwice(d, start, end);
    ZeroSlices(d, start, end);
    SymbolSlice(d, start, end, k);
  }

  lemma SomeNonzero(d: seq<word>, start: nat) returns (k: nat)
    requires !AllZero(d) && ZeroOutside(d, start, start + 6)
    ensures start <= k < |d| && k < start + 6 && d[k] != 0
    ensures |d| < start + 6 ==> ZeroOutside(d, start, |d|)
  {
    k :| k < |d| && d[k] != 0;
  }

  lemma ZeroSlices(d: seq<word>, start: nat, end: nat)
    requires start <= end <= |d| && ZeroOutside(d, start, end)
    ensures AllZero(d[..start]) && AllZero(d[end..])
  {
  }

  lemma SymbolSlice(d: seq<word>, from: nat, to: nat, k: nat)
    requires Symbols(d) && from <= k < to <= |d| && d[k] != 0
    ensures Symbols(d[from..to]) && !AllZero(d[from..to])
  {
    assert d[from..to][k - from] == d[k];
  }

  lemma CutTwice(d: seq<word>, from: nat, to: nat)
    requires from <= to <= |d|
    ensures d == d[..from] + d[from..to] + d[to..]
  {
  }

  lemma DifferencesShowErrors(xs: seq<word>, ys: seq<word>)
    requires |xs| == |ys| && Symbols(xs) && Symbols(ys)
    ensures var d := Differences(xs, ys);
      forall k :: 0 <= k < |d| ==> d[k] < 32 && (d[k] == 0 <==> xs[k] == ys[k])
  {
    hide Xor;
    forall k | 0 <= k < |xs| ensures Xor(xs[k], ys[k]) < 32 && (Xor(xs[k], ys[k]) == 0 <==> xs[k] == ys[k]) {
      XorOfSymbols(xs[k], ys[k]);
    }
  }

  lemma XorOfSymbols(a: word, b: word)
    requires a < 32 && b < 32
    ensures Xor(a, b) < 32 && (Xor(a, b) == 0 <==> a == b)
  {
  }

  /** Any change confined to six consecutive symbols changes the checksum, at every length. */
  lemma BurstDetected(xs: seq<word>, ys: seq<word>, start: nat)
    requires Symbols(xs) && Symbols(ys)
    requires BurstAt(xs, ys, start) && xs != ys
    ensures PolymodOf(xs) != PolymodOf(ys)
  {
    hide Xor, PolymodFrom;
    DifferencesShowErrors(xs, ys);
    var before, window, after := SplitWindow(Differences(xs, ys), start);
    PolymodConcat(0, before + window, after);
    PolymodConcat(0, before, window);
    ZeroStaysZero(before);
    SixSymbolsArePacked(window);
    PolymodIs30Bits(0, window);
    NonzeroStaysNonzero(PolymodFrom(0, window), after);
    PolymodDifference(1, 1, xs, ys);
    XorCancels(1, 1);
    XorCancels(PolymodOf(xs), PolymodOf(ys));
  }

  // Creating a checksum.

  function Drop5(q: word): word { q >> 5 }

  /** The first i of the six symbols that a checksum value is cut into, read as one number. */
  function Leading(m: word, i: nat): word
    requires i <= 6
    decreases 6 - i
  {
    if i == 6 then m else Drop5(Leading(m, i + 1))
  }

  /** Symbol i of a checksum value; symbol 0 holds the top five of the thirty bits. */
  function ChecksumSymbol(m: word, i: nat): word
    requires i < 6
  {
    Leading(m, i + 1) & 31
  }

  function ChecksumSymbols(m: word): (c: seq<word>)
    ensures |c| == 6
  {
    seq(6, i requires 0 <= i < 6 => ChecksumSymbol(m, i))
  }

  lemma ChecksumSymbolsAreSymbols(m: word)
    ensures Symbols(ChecksumSymbols(m))
  {
    forall i | 0 <= i < 6 ensures ChecksumSymbol(m, i) < 32 {
      MaskIsSymbol(Leading(m, i + 1));
    }
  }

  lemma MaskIsSymbol(q: word)
    ensures q & 31 < 32
  {
  }

  const SIX_ZEROS: seq<word> := [0, 0, 0, 0, 0, 0]

  lemma {:induction false} LeadingFits(m: word, i: nat)
    requires i <= 6 && m < LIMIT
    ensures Leading(m, i) < Room(i)
    decreases 6 - i
  {
    hide Leading, Room;
    if i == 6 {
      AllSymbolsFit(m);
    } else {
      LeadingFits(m, i + 1);
      LeadingStep(m, i);
    }
  }

  lemma AllSymbolsFit(m: word)
    requires m < LIMIT
    ensures Leading(m, 6) < Room(6)
  {
    RoomForSix();
  }

  lemma LeadingStep(m: word, i: nat)
    requires i < 6 && Leading(m, i + 1) < Room(i + 1)
    ensures Leading(m, i) < Room(i)
  {
    hide Drop5, Room, Leading;
    var q := Leading(m, i + 1);
    DropFits(q, i);
    LeadingNext(m, i);
  }

  lemma LeadingNext(m: word, i: nat)
    requires i < 6
    ensures Leading(m, i) == Drop5(Leading(m, i + 1))
  {
  }

  lemma DropFits(q: word, i: nat)
    requires i < 6 && q < Room(i + 1)
    ensures Drop5(q) < Room(i)
  {
    hide Room, Drop5, Grow5;
    RoomBound(i);
    RoomNext(i);
    DropBound(q, Room(i));
  }

  lemma DropBound(q: word, room: word)
    requires room <= 0x200_0000 && q < Grow5(room)
    ensures Drop5(q) < room
  {
  }

  lemma CutAndJoin(q: word)
    ensures Xor(Drop5(q) << 5, q & 31) == q
  {
  }

  lemma SmallIsZero(q: word)
    requires q < Room(0)
    ensures q == 0
  {
  }

  /** Absorbing the six symbols cut out of a 30-bit value into an empty register rebuilds the value. */
  lemma {:induction false} ChecksumSymbolsRebuild(m: word, i: nat)
    requires m < LIMIT && i <= 6
    ensures PolymodFrom(0, ChecksumSymbols(m)[..i]) == Leading(m, i)
  {
    hide Xor, Step, Drop5, Room;
    if i == 0 {
      LeadingFits(m, 0);
      SmallIsZero(Leading(m, 0));
    } else {
      var c := ChecksumSymbols(m);
      ChecksumSymbolsRebuild(m, i - 1);
      LeadingFits(m, i - 1);
      RoomBound(i - 1);
      assert c[..i][..i - 1] == c[..i - 1];
      StepShiftsIn(Leading(m, i - 1), c[i - 1]);
      CutAndJoin(Leading(m, i));
    }
  }

  lemma DropOfShifts(m: word)
    ensures Drop5(m) == m >> 5 && Drop5(m >> 5) == m >> 10 && Drop5(m >> 10) == m >> 15
    ensures Drop5(m >> 15) == m >> 20 && Drop5(m >> 20) == m >> 25
  {
  }

  /** The symbols as the code cuts them: by shifts of 25, 20, 15, 10, 5 and 0. */
  lemma SymbolsByShifting(m: word)
    ensures ChecksumSymbol(m, 5) == m & 31
    ensures ChecksumSymbol(m, 4) == (m >> 5) & 31
    ensures ChecksumSymbol(m, 3) == (m >> 10) & 31
    ensures ChecksumSymbol(m, 2) == (m >> 15) & 31
    ensures ChecksumSymbol(m, 1) == (m >> 20) & 31
    ensures ChecksumSymbol(m, 0) == (m >> 25) & 31
  {
    hide Drop5;
    DropOfShifts(m);
    assert Leading(m, 5) == m >> 5;
    assert Leading(m, 4) == m >> 10;
    assert Leading(m, 3) == m >> 15;
    assert Leading(m, 2) == m >> 20;
  }

  /** A sequence closed with the checksum made for it has the target as its checksum. */
  lemma CreatedChecksumVerifies(values: seq<word>, target: word)
    requires Symbols(values) && target < LIMIT
    ensures PolymodOf(values + ChecksumSymbols(Xor(PolymodOf(values + SIX_ZEROS), target))) == target
  {
    hide Xor, PolymodFrom, ChecksumSymbols;
    var p := PolymodOf(values + SIX_ZEROS);
    PolymodIs30Bits(1, values + SIX_ZEROS);
    XorKeeps30Bits(p, target);
    var m := Xor(p, target);
    var c := ChecksumSymbols(m);
    ChecksumSymbolsRebuild(m, 6);
    assert c[..6] == c;
    var r := PolymodFrom(1, values);
    PolymodConcat(1, values, SIX_ZEROS);
    PolymodConcat(1, values, c);
    PolymodDifference(r, r, SIX_ZEROS, c);
    XorCancels(r, r);
    forall i | 0 <= i < 6 ensures Xor(SIX_ZEROS[i], c[i]) == c[i] { XorZero(c[i]); }
    assert Differences(SIX_ZEROS, c) == c;
    XorSolves(p, PolymodFrom(r, c), target);
  }

  lemma XorSolves(p: word, q: word, t: word)
    requires Xor(p, q) == Xor(p, t)
    ensures q == t
  {
    hide Xor;
    XorInterchange(p, q, p, t);
    XorSelf(p);
    XorSelf(Xor(p, q));
    XorZero(Xor(q, t));
    XorCancels(q, t);
  }
}
