/** The 30-bit cyclic checksum of BIP 173, section "Checksum", and BIP 350, section "Bech32m". */
module Bech32Checksum {

  type word = bv32

  const GENERATORS: seq<word> := [0x3b6a57b2, 0x26508e6d, 0x1ea119fa, 0x3d4233dd, 0x2a1462b3]
  const LIMIT: word := 0x4000_0000

  predicate Symbols(values: seq<word>) {
    forall i :: 0 <= i < |values| ==> values[i] < 32
  }

  /** Addition over GF(2), named so that proofs can treat it as an abstract group operation. */
  function Xor(a: word, b: word): word { a ^ b }

  function Low25(c: word): word { (c & 0x1ffffff) << 5 }

  function Top(c: word): word { c >> 25 }

  function Bit(b: word, i: nat): word
    requires i < 5
  {
    (b >> i) & 1
  }

  function Selected(b: word, i: nat): word
    requires i < 5
  {
    if Bit(b, i) == 1 then GENERATORS[i] else 0
  }

  /** The generators selected by the low n bits of b, added over GF(2). */
  function GeneratorSum(b: word, n: nat): word
    requires n <= 5
  {
    if n == 0 then 0 else Xor(GeneratorSum(b, n - 1), Selected(b, n - 1))
  }

  function Step(checksum: word, value: word): word {
    Xor(Xor(Low25(checksum), value), GeneratorSum(Top(checksum), 5))
  }

  /** The register after the values have been absorbed one by one. */
  function PolymodFrom(checksum: word, values: seq<word>): word
    decreases |values|
  {
    if values == [] then checksum
    else Step(PolymodFrom(checksum, values[..|values| - 1]), values[|values| - 1])
  }

  function PolymodOf(values: seq<word>): word { PolymodFrom(1, values) }

  lemma XorAssociates(a: word, b: word, c: word)
    ensures Xor(Xor(a, b), c) == Xor(a, Xor(b, c))
  {
  }

  lemma XorCommutes(a: word, b: word)
    ensures Xor(a, b) == Xor(b, a)
  {
  }

  lemma XorZero(a: word)
    ensures Xor(a, 0) == a && Xor(0, a) == a
  {
  }

  lemma XorSelf(a: word)
    ensures Xor(a, a) == 0
  {
  }

  lemma XorCancels(a: word, b: word)
    ensures Xor(a, b) == 0 <==> a == b
  {
    hide Xor;
    XorSelf(b);
    XorAssociates(a, b, b);
    XorZero(a);
    XorZero(b);
  }

  lemma XorInterchange(a: word, b: word, c: word, d: word)
    ensures Xor(Xor(a, b), Xor(c, d)) == Xor(Xor(a, c), Xor(b, d))
  {
    hide Xor;
    XorAssociates(Xor(a, b), c, d);
    XorAssociates(a, b, c);
    XorCommutes(b, c);
    XorAssociates(a, c, b);
    XorAssociates(Xor(a, c), b, d);
  }

  lemma XorSelection(a: word, b: word, i: nat)
    requires i < 5
    ensures Selected(Xor(a, b), i) == Xor(Selected(a, i), Selected(b, i))
  {
    hide Bit, Xor;
    XorBit(a, b, i);
    BitIsBinary(a, i);
    BitIsBinary(b, i);
    XorOfBits();
    XorZero(0);
    XorZero(GENERATORS[i]);
    XorSelf(GENERATORS[i]);
  }

  lemma XorOfBits()
    ensures Xor(0, 1) == 1 && Xor(1, 0) == 1 && Xor(1, 1) == 0
  {
  }

  lemma BitIsBinary(b: word, i: nat)
    requires i < 5
    ensures Bit(b, i) == 0 || Bit(b, i) == 1
  {
    MaskIsBinary(b >> i);
  }

  lemma MaskIsBinary(b: word)
    ensures b & 1 == 0 || b & 1 == 1
  {
  }

  lemma XorBit(a: word, b: word, i: nat)
    requires i < 5
    ensures Bit(Xor(a, b), i) == Xor(Bit(a, i), Bit(b, i))
  {
    hide Bit, Xor;
    BitByShifting(a);
    BitByShifting(b);
    BitByShifting(Xor(a, b));
    if i == 0 {
      XorBit0(a, b);
    } else if i == 1 {
      XorBit1(a, b);
    } else if i == 2 {
      XorBit2(a, b);
    } else if i == 3 {
      XorBit3(a, b);
    } else {
      XorBit4(a, b);
    }
  }

  lemma BitByShifting(b: word)
    ensures Bit(b, 0) == b & 1
    ensures Bit(b, 1) == (b >> 1) & 1
    ensures Bit(b, 2) == (b >> 2) & 1
    ensures Bit(b, 3) == (b >> 3) & 1
    ensures Bit(b, 4) == (b >> 4) & 1
  {
  }

  lemma XorBit0(a: word, b: word)
    ensures Xor(a, b) & 1 == Xor(a & 1, b & 1)
  {
  }

  lemma XorBit1(a: word, b: word)
    ensures (Xor(a, b) >> 1) & 1 == Xor((a >> 1) & 1, (b >> 1) & 1)
  {
  }

  lemma XorBit2(a: word, b: word)
    ensures (Xor(a, b) >> 2) & 1 == Xor((a >> 2) & 1, (b >> 2) & 1)
  {
  }

  lemma XorBit3(a: word, b: word)
    ensures (Xor(a, b) >> 3) & 1 == Xor((a >> 3) & 1, (b >> 3) & 1)
  {
  }

  lemma XorBit4(a: word, b: word)
    ensures (Xor(a, b) >> 4) & 1 == Xor((a >> 4) & 1, (b >> 4) & 1)
  {
  }

  lemma XorShift(a: word, b: word)
    ensures Low25(Xor(a, b)) == Xor(Low25(a), Low25(b))
    ensures Top(Xor(a, b)) == Xor(Top(a), Top(b))
  {
  }

  lemma {:induction false} GeneratorSumIsLinear(a: word, b: word, n: nat)
    requires n <= 5
    ensures GeneratorSum(Xor(a, b), n) == Xor(GeneratorSum(a, n), GeneratorSum(b, n))
  {
    hide Xor, Selected;
    if n == 0 {
      XorZero(0);
    } else {
      GeneratorSumIsLinear(a, b, n - 1);
      XorSelection(a, b, n - 1);
      XorInterchange(GeneratorSum(a, n - 1), GeneratorSum(b, n - 1), Selected(a, n - 1), Selected(b, n - 1));
    }
  }

  /** The step is linear over GF(2), jointly in the register and the symbol. */
  lemma StepIsLinear(a: word, b: word, u: word, v: word)
    ensures Step(Xor(a, b), Xor(u, v)) == Xor(Step(a, u), Step(b, v))
  {
    hide Xor, GeneratorSum, Low25, Top;
    XorShift(a, b);
    GeneratorSumIsLinear(Top(a), Top(b), 5);
    XorInterchange(Low25(a), Low25(b), u, v);
    XorInterchange(Xor(Low25(a), u), Xor(Low25(b), v), GeneratorSum(Top(a), 5), GeneratorSum(Top(b), 5));
  }

  // The 30-bit register.

  lemma XorKeeps30Bits(a: word, b: word)
    requires a < LIMIT && b < LIMIT
    ensures Xor(a, b) < LIMIT
  {
  }

  lemma PartsAre30Bits(c: word, b: word, i: nat)
    requires i < 5
    ensures Low25(c) < LIMIT && Selected(b, i) < LIMIT
  {
  }

  lemma {:induction false} GeneratorSumIs30Bits(b: word, n: nat)
    requires n <= 5
    ensures GeneratorSum(b, n) < LIMIT
  {
    hide Xor, Selected;
    if n > 0 {
      GeneratorSumIs30Bits(b, n - 1);
      PartsAre30Bits(b, b, n - 1);
      XorKeeps30Bits(GeneratorSum(b, n - 1), Selected(b, n - 1));
    }
  }

  /** Whatever the register held, after a 5-bit symbol it holds at most 30 bits. */
  lemma StepIs30Bits(c: word, v: word)
    requires v < 32
    ensures Step(c, v) < LIMIT
  {
    hide Xor, GeneratorSum, Low25, Top;
    PartsAre30Bits(c, c, 0);
    GeneratorSumIs30Bits(Top(c), 5);
    XorKeeps30Bits(Low25(c), v);
    XorKeeps30Bits(Xor(Low25(c), v), GeneratorSum(Top(c), 5));
  }

  lemma PolymodIs30Bits(c: word, values: seq<word>)
    requires c < LIMIT && Symbols(values)
    ensures PolymodFrom(c, values) < LIMIT
  {
    if values != [] {
      StepIs30Bits(PolymodFrom(c, values[..|values| - 1]), values[|values| - 1]);
    }
  }

  // The linear part of the step has a trivial kernel.

  function Low5(c: word): word { c & 31 }

  lemma XorLow5(a: word, b: word)
    ensures Low5(Xor(a, b)) == Xor(Low5(a), Low5(b))
  {
  }

  lemma Low5OfParts(c: word, b: word)
    ensures Low5(Low25(c)) == 0
    ensures Low5(Selected(b, 0)) == if b & 1 == 1 then 0x12 else 0
    ensures Low5(Selected(b, 1)) == if b & 2 == 2 then 0x0d else 0
    ensures Low5(Selected(b, 2)) == if b & 4 == 4 then 0x1a else 0
    ensures Low5(Selected(b, 3)) == if b & 8 == 8 then 0x1d else 0
    ensures Low5(Selected(b, 4)) == if b & 16 == 16 then 0x13 else 0
  {
  }

  lemma {:induction false} Low5OfGeneratorSum(b: word, n: nat)
    requires n < 5
    ensures Low5(GeneratorSum(b, n + 1)) == Xor(Low5(GeneratorSum(b, n)), Low5(Selected(b, n)))
  {
    hide Xor, Selected, Low5;
    XorLow5(GeneratorSum(b, n), Selected(b, n));
  }

  lemma FiveGeneratorsIndependent(b: word, s1: word, s2: word, s3: word, s4: word)
    requires b < 32
    requires s1 == if b & 1 == 1 then 0x12 else 0
    requires s2 == Xor(s1, if b & 2 == 2 then 0x0d else 0)
    requires s3 == Xor(s2, if b & 4 == 4 then 0x1a else 0)
    requires s4 == Xor(s3, if b & 8 == 8 then 0x1d else 0)
    requires 0 == Xor(s4, if b & 16 == 16 then 0x13 else 0)
    ensures b == 0
  {
  }

  /** The low five bits of the generators form an invertible 5 x 5 matrix. */
  lemma GeneratorSumIsInjective(b: word)
    requires b < 32 && Low5(GeneratorSum(b, 5)) == 0
    ensures b == 0
  {
    hide GeneratorSum, Selected, Xor, Low5;
    Low5OfParts(b, b);
    NoGenerator(b);
    XorZero(Low5(Selected(b, 0)));
    Low5OfGeneratorSum(b, 0);
    Low5OfGeneratorSum(b, 1);
    Low5OfGeneratorSum(b, 2);
    Low5OfGeneratorSum(b, 3);
    Low5OfGeneratorSum(b, 4);
    FiveGeneratorsIndependent(b, Low5(GeneratorSum(b, 1)), Low5(GeneratorSum(b, 2)),
      Low5(GeneratorSum(b, 3)), Low5(GeneratorSum(b, 4)));
  }

  lemma NoGenerator(b: word)
    ensures Low5(GeneratorSum(b, 0)) == 0
  {
  }

  lemma {:induction false} NothingSelected(n: nat)
    requires n <= 5
    ensures GeneratorSum(0, n) == 0
  {
    hide Xor;
    if n > 0 {
      NothingSelected(n - 1);
      XorZero(0);
    }
  }

  lemma RegisterParts(d: word)
    requires d < LIMIT
    ensures Top(d) < 32
    ensures Top(d) == 0 ==> Low25(d) == d << 5
    ensures Top(d) == 0 && Low25(d) == 0 ==> d == 0
    ensures Top(d) == 0 <==> d < 0x200_0000
  {
    hide Top, Low25;
    TopIsSymbol(d);
    TopOfSmall(d);
    Low25OfSmall(d);
    NothingShiftedOut(d);
  }

  lemma TopIsSymbol(d: word)
    requires d < LIMIT
    ensures Top(d) < 32
  {
  }

  lemma TopOfSmall(d: word)
    ensures Top(d) == 0 <==> d < 0x200_0000
  {
  }

  lemma Low25OfSmall(d: word)
    ensures d < 0x200_0000 ==> Low25(d) == d << 5
  {
  }

  lemma NothingShiftedOut(d: word)
    ensures d < 0x200_0000 && d << 5 == 0 ==> d == 0
  {
  }

  /** A difference held in the 30-bit register never dies out by itself. */
  lemma StepIsInjective(d: word)
    requires d < LIMIT
    ensures Step(d, 0) == 0 ==> d == 0
  {
    hide Xor, GeneratorSum, Low25, Top, Low5;
    XorZero(Low25(d));
    XorCancels(Low25(d), GeneratorSum(Top(d), 5));
    Low5OfParts(d, d);
    RegisterParts(d);
    if Step(d, 0) == 0 {
      GeneratorSumIsInjective(Top(d));
      NothingSelected(5);
    }
  }

  /** While the register holds at most 25 bits, a step only shifts the symbol in. */
  lemma StepShiftsIn(p: word, v: word)
    requires p < 0x200_0000
    ensures Step(p, v) == Xor(p << 5, v)
  {
    hide Xor, GeneratorSum, Low25, Top;
    RegisterParts(p);
    NothingSelected(5);
    XorZero(Xor(Low25(p), v));
  }
}
