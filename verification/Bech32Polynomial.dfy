/** What the checksum register holds: a remainder in the polynomial ring over GF(32), BIP 173, section "Checksum". */
module Bech32Polynomial {
  import opened Bech32Checksum

  // GF(32): the powers of a, with a^5 = a^3 + 1, are the bits of a 5-bit number, a^0 the lowest.

  /** The sum adds the coefficients of each power modulo two. */
  function Plus(x: word, y: word): word { x ^ y }

  function Double(x: word): word { x << 1 }

  function A4(x: word): word { x & 16 }

  /** The product with a: each power moves up, a^4 to a^5, which is a^3 + 1. */
  function TimesA(x: word): word { if A4(x) == 0 then Double(x) else Plus(Double(Plus(x, 16)), 9) }

  function Part(condition: bool, x: word): word { if condition then x else 0 }

  /** The sum of those of five numbers for which the condition holds. */
  function FiveParts(c0: bool, x0: word, c1: bool, x1: word, c2: bool, x2: word, c3: bool, x3: word,
                     c4: bool, x4: word): word
  {
    Plus(Plus(Plus(Plus(Part(c0, x0), Part(c1, x1)), Part(c2, x2)), Part(c3, x3)), Part(c4, x4))
  }

  /** The product: the sum of a^i x over the powers a^i in y. */
  function Times(x: word, y: word): word {
    var x1 := TimesA(x);
    var x2 := TimesA(x1);
    var x3 := TimesA(x2);
    var x4 := TimesA(x3);
    FiveParts(y & 1 != 0, x, y & 2 != 0, x1, y & 4 != 0, x2, y & 8 != 0, x3, y & 16 != 0, x4)
  }

  // Polynomials, highest coefficient first.

  /** x^6 + {29}x^5 + {22}x^4 + {20}x^3 + {21}x^2 + {29}x + {18} */
  const MODULUS: seq<word> := [1, 29, 22, 20, 21, 29, 18]

  function Zeros(n: nat): (z: seq<word>)
    ensures |z| == n
  {
    seq(n, _ => 0)
  }

  /** One step of long division: seven coefficients less the multiple of the modulus that removes the first. */
  function Reduce(p: seq<word>): (r: seq<word>)
    requires |p| == 7
    ensures |r| == 6
  {
    seq(6, i requires 0 <= i < 6 => Plus(p[i + 1], Times(p[0], MODULUS[i + 1])))
  }

  /** The remainder of long division by the modulus. */
  function Remainder(p: seq<word>): (r: seq<word>)
    ensures |r| == 6
    decreases |p|
  {
    if |p| <= 6 then Zeros(6 - |p|) + p else Remainder(Reduce(p[..7]) + p[7..])
  }

  // The remainder can be taken coefficient by coefficient.

  lemma ZeroTimes(y: word)
    ensures Times(0, y) == 0
  {
  }

  lemma PlusZero(x: word)
    ensures Plus(x, 0) == x && Plus(0, x) == x
  {
  }

  lemma NothingReduced(p: seq<word>)
    requires |p| == 7 && p[0] == 0
    ensures Reduce(p) == p[1..]
  {
    hide Times, Plus;
    forall i | 0 <= i < 6 ensures Reduce(p)[i] == p[i + 1] {
      ZeroTimes(MODULUS[i + 1]);
      PlusZero(p[i + 1]);
    }
  }

  lemma ShortRemainder(p: seq<word>)
    requires |p| <= 6
    ensures Remainder(p) == Zeros(6 - |p|) + p
  {
  }

  lemma NextRemainder(p: seq<word>)
    requires |p| >= 7
    ensures Remainder(p) == Remainder(Reduce(p[..7]) + p[7..])
  {
    hide Reduce;
  }

  lemma AppendShort(p: seq<word>, c: word)
    requires |p| < 6
    ensures Remainder(p + [c]) == Reduce(Remainder(p) + [c])
  {
    hide Remainder, Reduce;
    ShortRemainder(p);
    ShortRemainder(p + [c]);
    NothingReduced(Remainder(p) + [c]);
    assert (Zeros(6 - |p|) + p + [c])[1..] == Zeros(5 - |p|) + (p + [c]);
  }

  lemma {:induction false} RemainderAppend(p: seq<word>, c: word)
    ensures Remainder(p + [c]) == Reduce(Remainder(p) + [c])
    decreases |p|
  {
    hide Remainder, Reduce;
    if |p| < 6 {
      AppendShort(p, c);
    } else {
      assert (p + [c])[..7] + (p + [c])[7..] == p + [c];
      NextRemainder(p + [c]);
      if |p| == 6 {
        ShortRemainder(p);
        assert Zeros(0) + p == p && (p + [c])[..7] == p + [c] && (p + [c])[7..] == [];
        ShortRemainder(Reduce(p + [c]));
        assert Zeros(0) + Reduce(p + [c]) == Reduce(p + [c]) == Reduce(p + [c]) + [];
      } else {
        NextRemainder(p);
        assert (p + [c])[..7] == p[..7] && (p + [c])[7..] == p[7..] + [c];
        var q := Reduce(p[..7]) + p[7..];
        assert Reduce(p[..7]) + (p[7..] + [c]) == q + [c];
        RemainderAppend(q, c);
      }
    }
  }

  // What remains is a remainder.

  function Sum(p: seq<word>, q: seq<word>): (s: seq<word>)
    requires |p| == |q|
    ensures |s| == |p|
  {
    seq(|p|, i requires 0 <= i < |p| => Plus(p[i], q[i]))
  }

  /** The modulus times a number, as the leading coefficients of a polynomial with n more. */
  function Multiple(first: word, n: nat): (p: seq<word>)
    ensures |p| == 7 + n
  {
    seq(7, i requires 0 <= i < 7 => Times(first, MODULUS[i])) + Zeros(n)
  }

  /** The product of a polynomial with the modulus. */
  function TimesModulus(q: seq<word>): (p: seq<word>)
    ensures |p| == |q| + 6
  {
    if q == [] then Zeros(6) else Sum(Multiple(q[0], |q| - 1), [0] + TimesModulus(q[1..]))
  }

  /** The remainder differs from the dividend by a multiple of the modulus. */
  lemma {:induction false} DivisionWithRemainder(p: seq<word>) returns (q: seq<word>)
    requires |p| >= 6
    ensures |q| == |p| - 6 && p == Sum(TimesModulus(q), Zeros(|q|) + Remainder(p))
    decreases |p|
  {
    hide Sum, Reduce, Multiple, Zeros;
    if |p| == 6 {
      q := [];
      NothingDivided(p);
    } else {
      var next := Reduce(p[..7]) + p[7..];
      var rest := DivisionWithRemainder(next);
      var r := Remainder(p);
      q := [p[0]] + rest;
      assert q[1..] == rest;
      hide Remainder;
      FirstStep(p);
      SumBehindZero(TimesModulus(rest), Zeros(|rest|) + r);
      SumAssociates(Multiple(p[0], |rest|), [0] + TimesModulus(rest), [0] + (Zeros(|rest|) + r));
      OneMoreZero(|rest|, r);
    }
  }

  lemma NothingDivided(p: seq<word>)
    requires |p| == 6
    ensures p == Sum(TimesModulus([]), Zeros(0) + Remainder(p))
  {
    hide Plus;
    assert Zeros(0) + Remainder(p) == p;
    forall i | 0 <= i < 6 ensures Sum(Zeros(6), p)[i] == p[i] {
      PlusZero(p[i]);
    }
  }

  /** A step of the division takes a multiple of the modulus away. */
  lemma FirstStep(p: seq<word>)
    requires |p| > 6
    ensures p == Sum(Multiple(p[0], |p| - 7), [0] + (Reduce(p[..7]) + p[7..]))
  {
    hide Plus, Times;
    forall i | 0 <= i < |p| ensures Sum(Multiple(p[0], |p| - 7), [0] + (Reduce(p[..7]) + p[7..]))[i] == p[i] {
      FirstStepAt(p, i);
    }
  }

  lemma FirstStepAt(p: seq<word>, i: nat)
    requires i < |p| && |p| > 6
    ensures Plus(Multiple(p[0], |p| - 7)[i], ([0] + (Reduce(p[..7]) + p[7..]))[i]) == p[i]
  {
    hide Plus, Times;
    PlusZero(p[i]);
    if i == 0 {
      TimesOne(p[0]);
    } else if i < 7 {
      PlusTwice(p[i], Times(p[0], MODULUS[i]));
    }
  }

  lemma PlusTwice(x: word, t: word)
    ensures Plus(t, Plus(x, t)) == x
  {
  }

  lemma SumBehindZero(p: seq<word>, q: seq<word>)
    requires |p| == |q|
    ensures [0] + Sum(p, q) == Sum([0] + p, [0] + q)
  {
    hide Plus;
    PlusZero(0);
  }

  lemma SumAssociates(p: seq<word>, q: seq<word>, r: seq<word>)
    requires |p| == |q| == |r|
    ensures Sum(p, Sum(q, r)) == Sum(Sum(p, q), r)
  {
    hide Plus;
    forall i | 0 <= i < |p| ensures Plus(p[i], Plus(q[i], r[i])) == Plus(Plus(p[i], q[i]), r[i]) {
      PlusAssociates(p[i], q[i], r[i]);
    }
  }

  lemma PlusAssociates(x: word, y: word, z: word)
    ensures Plus(x, Plus(y, z)) == Plus(Plus(x, y), z)
  {
  }

  lemma OneMoreZero(n: nat, r: seq<word>)
    ensures [0] + (Zeros(n) + r) == Zeros(n + 1) + r
  {
  }

  lemma TimesOne(x: word)
    ensures Times(x, 1) == x
  {
    hide TimesA, Plus;
    PlusZero(x);
  }

  // The symbols of the generators.

  lemma SelectedGenerators(b: word)
    ensures Selected(b, 0) == Part(b & 1 != 0, 0x3b6a57b2)
    ensures Selected(b, 1) == Part(b & 2 != 0, 0x26508e6d)
    ensures Selected(b, 2) == Part(b & 4 != 0, 0x1ea119fa)
    ensures Selected(b, 3) == Part(b & 8 != 0, 0x3d4233dd)
    ensures Selected(b, 4) == Part(b & 16 != 0, 0x2a1462b3)
  {
    hide Bit;
    BitByShifting(b);
    MaskedBits(b);
  }

  lemma MaskedBits(b: word)
    ensures (b & 1 == 1) == (b & 1 != 0)
    ensures ((b >> 1) & 1 == 1) == (b & 2 != 0)
    ensures ((b >> 2) & 1 == 1) == (b & 4 != 0)
    ensures ((b >> 3) & 1 == 1) == (b & 8 != 0)
    ensures ((b >> 4) & 1 == 1) == (b & 16 != 0)
  {
  }

  function Group25(m: word): word { (m >> 25) & 31 }

  function Group20(m: word): word { (m >> 20) & 31 }

  function Group15(m: word): word { (m >> 15) & 31 }

  function Group10(m: word): word { (m >> 10) & 31 }

  function Group5(m: word): word { (m >> 5) & 31 }

  /** The generators that b selects, added up. */
  function Picked(b: word): word {
    FiveParts(b & 1 != 0, 0x3b6a57b2, b & 2 != 0, 0x26508e6d, b & 4 != 0, 0x1ea119fa, b & 8 != 0, 0x3d4233dd,
      b & 16 != 0, 0x2a1462b3)
  }

  lemma GeneratorSumIsPicked(b: word)
    ensures GeneratorSum(b, 5) == Picked(b)
  {
    hide Selected, Part, GeneratorSum, Xor, Plus;
    SelectedGenerators(b);
    NoneAdded(b);
    OneAdded(b, 0);
    OneAdded(b, 1);
    OneAdded(b, 2);
    OneAdded(b, 3);
    OneAdded(b, 4);
    XorZero(Selected(b, 0));
    SumsAreXors(Selected(b, 0), Selected(b, 1), Selected(b, 2), Selected(b, 3), Selected(b, 4));
  }

  lemma SumsAreXors(x0: word, x1: word, x2: word, x3: word, x4: word)
    ensures Plus(Plus(Plus(Plus(x0, x1), x2), x3), x4) == Xor(Xor(Xor(Xor(x0, x1), x2), x3), x4)
  {
    hide Plus, Xor;
    PlusIsXor(x0, x1);
    PlusIsXor(Xor(x0, x1), x2);
    PlusIsXor(Xor(Xor(x0, x1), x2), x3);
    PlusIsXor(Xor(Xor(Xor(x0, x1), x2), x3), x4);
  }

  lemma NoneAdded(b: word)
    ensures GeneratorSum(b, 0) == 0
  {
  }

  lemma OneAdded(b: word, n: nat)
    requires n < 5
    ensures GeneratorSum(b, n + 1) == Xor(GeneratorSum(b, n), Selected(b, n))
  {
    hide Selected, Xor;
  }

  // The register as six coefficients.

  function Coefficient(m: word, i: nat): word
    requires i < 6
  {
    match i
    case 0 => Group25(m)
    case 1 => Group20(m)
    case 2 => Group15(m)
    case 3 => Group10(m)
    case 4 => Group5(m)
    case _ => Low5(m)
  }

  /** The thirty low bits of the register in groups of five, highest first. */
  function Coefficients(m: word): (c: seq<word>)
    ensures |c| == 6
  {
    seq(6, i requires 0 <= i < 6 => Coefficient(m, i))
  }

  lemma CoefficientOfSum(x: word, y: word, i: nat)
    requires i < 6
    ensures Coefficient(Plus(x, y), i) == Plus(Coefficient(x, i), Coefficient(y, i))
  {
    hide Plus, Group25, Group20, Group15, Group10, Group5, Low5;
    match i
    case 0 => SumCut25(x, y);
    case 1 => SumCut20(x, y);
    case 2 => SumCut15(x, y);
    case 3 => SumCut10(x, y);
    case 4 => SumCut5(x, y);
    case _ => SumCut0(x, y);
  }

  lemma SumCut25(x: word, y: word)
    ensures Group25(Plus(x, y)) == Plus(Group25(x), Group25(y))
  {
  }

  lemma SumCut20(x: word, y: word)
    ensures Group20(Plus(x, y)) == Plus(Group20(x), Group20(y))
  {
  }

  lemma SumCut15(x: word, y: word)
    ensures Group15(Plus(x, y)) == Plus(Group15(x), Group15(y))
  {
  }

  lemma SumCut10(x: word, y: word)
    ensures Group10(Plus(x, y)) == Plus(Group10(x), Group10(y))
  {
  }

  lemma SumCut5(x: word, y: word)
    ensures Group5(Plus(x, y)) == Plus(Group5(x), Group5(y))
  {
  }

  lemma SumCut0(x: word, y: word)
    ensures Low5(Plus(x, y)) == Plus(Low5(x), Low5(y))
  {
  }

  /** Shifting a symbol in moves every coefficient up by one; the highest is what Top takes away. */
  lemma ShiftedIn(c: word, v: word)
    requires c < LIMIT && v < 32
    ensures [Top(c)] + Coefficients(Xor(Low25(c), v)) == Coefficients(c) + [v]
    ensures Top(c) < 32
  {
    hide Xor, Low25, Top, Group25, Group20, Group15, Group10, Group5, Low5;
    ShiftedCut(c, v);
  }

  lemma ShiftedCut(c: word, v: word)
    requires c < LIMIT && v < 32
    ensures Top(c) == Group25(c) && Top(c) < 32
    ensures Group25(Xor(Low25(c), v)) == Group20(c)
    ensures Group20(Xor(Low25(c), v)) == Group15(c)
    ensures Group15(Xor(Low25(c), v)) == Group10(c)
    ensures Group10(Xor(Low25(c), v)) == Group5(c)
    ensures Group5(Xor(Low25(c), v)) == Low5(c)
    ensures Low5(Xor(Low25(c), v)) == v
  {
  }

  // The product is linear.

  lemma PlusIsXor(x: word, y: word)
    ensures Plus(x, y) == Xor(x, y)
  {
  }

  lemma PlusInterchange(x: word, y: word, z: word, w: word)
    ensures Plus(Plus(x, y), Plus(z, w)) == Plus(Plus(x, z), Plus(y, w))
  {
    hide Plus, Xor;
    PlusIsXor(x, y);
    PlusIsXor(z, w);
    PlusIsXor(x, z);
    PlusIsXor(y, w);
    PlusIsXor(Plus(x, y), Plus(z, w));
    PlusIsXor(Plus(x, z), Plus(y, w));
    XorInterchange(x, y, z, w);
  }

  lemma DoubleAdds(x: word, y: word)
    ensures Double(Plus(x, y)) == Plus(Double(x), Double(y))
  {
  }

  lemma A4Adds(x: word, y: word)
    ensures A4(Plus(x, y)) == Plus(A4(x), A4(y))
  {
  }

  lemma A4IsBit(x: word)
    ensures A4(x) == 0 || A4(x) == 16
  {
  }

  lemma SumsOfBits()
    ensures Plus(0, 0) == 0 && Plus(0, 16) == 16 && Plus(16, 0) == 16 && Plus(16, 16) == 0
    ensures Plus(0, 41) == 41 && Plus(41, 0) == 41 && Plus(41, 41) == 0
  {
  }

  lemma TimesAForm(x: word)
    ensures TimesA(x) == Plus(Double(x), Part(A4(x) != 0, 41))
  {
  }

  lemma TimesAAdds(x: word, y: word)
    ensures TimesA(Plus(x, y)) == Plus(TimesA(x), TimesA(y))
  {
    hide TimesA, Plus, Double, A4;
    TimesAForm(x);
    TimesAForm(y);
    TimesAForm(Plus(x, y));
    DoubleAdds(x, y);
    A4Adds(x, y);
    A4IsBit(x);
    A4IsBit(y);
    SumsOfBits();
    PlusInterchange(Double(x), Part(A4(x) != 0, 41), Double(y), Part(A4(y) != 0, 41));
  }

  lemma PartAdds(condition: bool, x: word, y: word)
    ensures Part(condition, Plus(x, y)) == Plus(Part(condition, x), Part(condition, y))
  {
    hide Plus;
    PlusZero(0);
  }

  lemma TimesAdds(x: word, y: word, m: word)
    ensures Times(Plus(x, y), m) == Plus(Times(x, m), Times(y, m))
  {
    hide TimesA, Plus, Part;
    var x1, y1 := TimesA(x), TimesA(y);
    var x2, y2 := TimesA(x1), TimesA(y1);
    var x3, y3 := TimesA(x2), TimesA(y2);
    var x4, y4 := TimesA(x3), TimesA(y3);
    TimesAAdds(x, y);
    TimesAAdds(x1, y1);
    TimesAAdds(x2, y2);
    TimesAAdds(x3, y3);
    var c0, c1, c2, c3, c4 := m & 1 != 0, m & 2 != 0, m & 4 != 0, m & 8 != 0, m & 16 != 0;
    SumAdds(c0, x, y, c1, x1, y1, c2, x2, y2, c3, x3, y3, c4, x4, y4);
  }

  lemma SumAdds(c0: bool, x0: word, y0: word, c1: bool, x1: word, y1: word, c2: bool, x2: word, y2: word,
                c3: bool, x3: word, y3: word, c4: bool, x4: word, y4: word)
    ensures FiveParts(c0, Plus(x0, y0), c1, Plus(x1, y1), c2, Plus(x2, y2), c3, Plus(x3, y3), c4, Plus(x4, y4))
      == Plus(FiveParts(c0, x0, c1, x1, c2, x2, c3, x3, c4, x4), FiveParts(c0, y0, c1, y1, c2, y2, c3, y3, c4, y4))
  {
    hide Plus, Part;
    PartAdds(c0, x0, y0);
    PartAdds(c1, x1, y1);
    PartAdds(c2, x2, y2);
    PartAdds(c3, x3, y3);
    PartAdds(c4, x4, y4);
    var p0, p1, p2, p3, p4 := Part(c0, x0), Part(c1, x1), Part(c2, x2), Part(c3, x3), Part(c4, x4);
    var q0, q1, q2, q3, q4 := Part(c0, y0), Part(c1, y1), Part(c2, y2), Part(c3, y3), Part(c4, y4);
    PlusInterchange(p0, q0, p1, q1);
    PlusInterchange(Plus(p0, p1), Plus(q0, q1), p2, q2);
    PlusInterchange(Plus(Plus(p0, p1), p2), Plus(Plus(q0, q1), q2), p3, q3);
    PlusInterchange(Plus(Plus(Plus(p0, p1), p2), p3), Plus(Plus(Plus(q0, q1), q2), q3), p4, q4);
  }

  lemma TimesPart(condition: bool, x: word, m: word)
    ensures Times(Part(condition, x), m) == Part(condition, Times(x, m))
  {
    hide Times;
    ZeroTimes(m);
  }

  lemma PowersAdd(b: word)
    requires b < 32
    ensures b == FiveParts(b & 1 != 0, 1, b & 2 != 0, 2, b & 4 != 0, 4, b & 8 != 0, 8, b & 16 != 0, 16)
  {
  }

  /** The powers of a, from a^0 to a^8. */
  lemma Powers()
    ensures TimesA(1) == 2 && TimesA(2) == 4 && TimesA(4) == 8 && TimesA(8) == 16
    ensures TimesA(16) == 9 && TimesA(9) == 18 && TimesA(18) == 13 && TimesA(13) == 26
  {
  }

  // The generators are the multiples of the modulus by the powers of a.

  lemma Generator0(j: nat)
    requires j < 6
    ensures Coefficient(0x3b6a57b2, j) == Times(1, MODULUS[j + 1])
  {
    hide TimesA, Times;
    Multiples0();
    assert [Group25(0x3b6a57b2), Group20(0x3b6a57b2), Group15(0x3b6a57b2),
      Group10(0x3b6a57b2), Group5(0x3b6a57b2), Low5(0x3b6a57b2)] == [29, 22, 20, 21, 29, 18];
  }

  lemma Multiples0()
    ensures Times(1, 29) == 29 && Times(1, 22) == 22 && Times(1, 20) == 20
    ensures Times(1, 21) == 21 && Times(1, 18) == 18
  {
    hide TimesA;
    Powers();
  }

  lemma Generator1(j: nat)
    requires j < 6
    ensures Coefficient(0x26508e6d, j) == Times(2, MODULUS[j + 1])
  {
    hide TimesA, Times;
    Multiples1();
    assert [Group25(0x26508e6d), Group20(0x26508e6d), Group15(0x26508e6d),
      Group10(0x26508e6d), Group5(0x26508e6d), Low5(0x26508e6d)] == [19, 5, 1, 3, 19, 13];
  }

  lemma Multiples1()
    ensures Times(2, 29) == 19 && Times(2, 22) == 5 && Times(2, 20) == 1
    ensures Times(2, 21) == 3 && Times(2, 18) == 13
  {
    hide TimesA;
    Powers();
  }

  lemma Generator2(j: nat)
    requires j < 6
    ensures Coefficient(0x1ea119fa, j) == Times(4, MODULUS[j + 1])
  {
    hide TimesA, Times;
    Multiples2();
    assert [Group25(0x1ea119fa), Group20(0x1ea119fa), Group15(0x1ea119fa),
      Group10(0x1ea119fa), Group5(0x1ea119fa), Low5(0x1ea119fa)] == [15, 10, 2, 6, 15, 26];
  }

  lemma Multiples2()
    ensures Times(4, 29) == 15 && Times(4, 22) == 10 && Times(4, 20) == 2
    ensures Times(4, 21) == 6 && Times(4, 18) == 26
  {
    hide TimesA;
    Powers();
  }

  lemma Generator3(j: nat)
    requires j < 6
    ensures Coefficient(0x3d4233dd, j) == Times(8, MODULUS[j + 1])
  {
    hide TimesA, Times;
    Multiples3();
    assert [Group25(0x3d4233dd), Group20(0x3d4233dd), Group15(0x3d4233dd),
      Group10(0x3d4233dd), Group5(0x3d4233dd), Low5(0x3d4233dd)] == [30, 20, 4, 12, 30, 29];
  }

  lemma Multiples3()
    ensures Times(8, 29) == 30 && Times(8, 22) == 20 && Times(8, 20) == 4
    ensures Times(8, 21) == 12 && Times(8, 18) == 29
  {
    hide TimesA;
    Powers();
  }

  lemma Generator4(j: nat)
    requires j < 6
    ensures Coefficient(0x2a1462b3, j) == Times(16, MODULUS[j + 1])
  {
    hide TimesA, Times;
    Multiples4();
    assert [Group25(0x2a1462b3), Group20(0x2a1462b3), Group15(0x2a1462b3),
      Group10(0x2a1462b3), Group5(0x2a1462b3), Low5(0x2a1462b3)] == [21, 1, 8, 24, 21, 19];
  }

  lemma Multiples4()
    ensures Times(16, 29) == 21 && Times(16, 22) == 1 && Times(16, 20) == 8
    ensures Times(16, 21) == 24 && Times(16, 18) == 19
  {
    hide TimesA;
    Powers();
  }

  lemma CoefficientOfPart(condition: bool, x: word, i: nat)
    requires i < 6
    ensures Coefficient(Part(condition, x), i) == Part(condition, Coefficient(x, i))
  {
    hide Coefficient;
    CoefficientOfZero(i);
  }

  lemma CoefficientOfZero(i: nat)
    requires i < 6
    ensures Coefficient(0, i) == 0
  {
  }

  /** The generators spell the multiples of the modulus. */
  lemma CoefficientOfGenerators(b: word, i: nat)
    requires b < 32 && i < 6
    ensures Coefficient(GeneratorSum(b, 5), i) == Times(b, MODULUS[i + 1])
  {
    hide GeneratorSum, Times, Part, Plus, Xor, Coefficient;
    GeneratorSumIsPicked(b);
    var m := MODULUS[i + 1];
    var c0, c1, c2, c3, c4 := b & 1 != 0, b & 2 != 0, b & 4 != 0, b & 8 != 0, b & 16 != 0;
    Generator0(i);
    Generator1(i);
    Generator2(i);
    Generator3(i);
    Generator4(i);
    CoefficientOfParts(c0, 0x3b6a57b2, c1, 0x26508e6d, c2, 0x1ea119fa, c3, 0x3d4233dd, c4, 0x2a1462b3, i);
    TimesParts(c0, c1, c2, c3, c4, m);
    PowersAdd(b);
  }

  lemma CoefficientOfParts(c0: bool, x0: word, c1: bool, x1: word, c2: bool, x2: word, c3: bool, x3: word,
                           c4: bool, x4: word, i: nat)
    requires i < 6
    ensures Coefficient(FiveParts(c0, x0, c1, x1, c2, x2, c3, x3, c4, x4), i)
      == FiveParts(c0, Coefficient(x0, i), c1, Coefficient(x1, i), c2, Coefficient(x2, i), c3, Coefficient(x3, i),
                   c4, Coefficient(x4, i))
  {
    hide Plus, Part, Coefficient;
    CoefficientOfPart(c0, x0, i);
    CoefficientOfPart(c1, x1, i);
    CoefficientOfPart(c2, x2, i);
    CoefficientOfPart(c3, x3, i);
    CoefficientOfPart(c4, x4, i);
    var p0, p1, p2, p3, p4 := Part(c0, x0), Part(c1, x1), Part(c2, x2), Part(c3, x3), Part(c4, x4);
    CoefficientOfSum(p0, p1, i);
    CoefficientOfSum(Plus(p0, p1), p2, i);
    CoefficientOfSum(Plus(Plus(p0, p1), p2), p3, i);
    CoefficientOfSum(Plus(Plus(Plus(p0, p1), p2), p3), p4, i);
  }

  lemma TimesParts(c0: bool, c1: bool, c2: bool, c3: bool, c4: bool, m: word)
    ensures Times(FiveParts(c0, 1, c1, 2, c2, 4, c3, 8, c4, 16), m)
      == FiveParts(c0, Times(1, m), c1, Times(2, m), c2, Times(4, m), c3, Times(8, m), c4, Times(16, m))
  {
    hide Plus, Part, Times;
    TimesPart(c0, 1, m);
    TimesPart(c1, 2, m);
    TimesPart(c2, 4, m);
    TimesPart(c3, 8, m);
    TimesPart(c4, 16, m);
    var p0, p1, p2, p3, p4 := Part(c0, 1), Part(c1, 2), Part(c2, 4), Part(c3, 8), Part(c4, 16);
    TimesAdds(p0, p1, m);
    TimesAdds(Plus(p0, p1), p2, m);
    TimesAdds(Plus(Plus(p0, p1), p2), p3, m);
    TimesAdds(Plus(Plus(Plus(p0, p1), p2), p3), p4, m);
  }

  /** A step of the register is multiplying by x, adding the symbol and reducing by the modulus. */
  lemma StepReduces(c: word, v: word)
    requires c < LIMIT && v < 32
    ensures Coefficients(Step(c, v)) == Reduce(Coefficients(c) + [v])
  {
    hide Xor, GeneratorSum, Low25, Top, Times, Coefficient, Plus;
    var moved, p := Xor(Low25(c), v), Coefficients(c) + [v];
    ShiftedIn(c, v);
    assert p[0] == Top(c);
    forall i | 0 <= i < 6 ensures Coefficients(Step(c, v))[i] == Reduce(p)[i] {
      PlusIsXor(moved, GeneratorSum(Top(c), 5));
      CoefficientOfSum(moved, GeneratorSum(Top(c), 5), i);
      CoefficientOfGenerators(Top(c), i);
      assert p[i + 1] == ([Top(c)] + Coefficients(moved))[i + 1];
    }
  }

  lemma {:induction false} RegisterIsRemainder(values: seq<word>)
    requires Symbols(values)
    ensures PolymodOf(values) < LIMIT
    ensures Coefficients(PolymodOf(values)) == Remainder([1] + values)
    decreases |values|
  {
    hide Step, Coefficients, Remainder, Reduce;
    PolymodIs30Bits(1, values);
    if values == [] {
      EmptyRegister();
      assert [1] + values == [1];
    } else {
      var n := |values| - 1;
      RegisterIsRemainder(values[..n]);
      StepReduces(PolymodOf(values[..n]), values[n]);
      RemainderAppend([1] + values[..n], values[n]);
      assert [1] + values == [1] + values[..n] + [values[n]];
    }
  }

  lemma EmptyRegister()
    ensures Coefficients(1) == Remainder([1])
  {
    assert Remainder([1]) == [0, 0, 0, 0, 0, 1];
  }

  // The register loop.

  /** A 30-bit word holds six coefficients in groups of five bits, the highest first. */
  predicate HoldsCoefficients(m: word, r: seq<word>) {
    && |r| == 6 && m < 0x4000_0000
    && (m >> 25) & 31 == r[0] && (m >> 20) & 31 == r[1] && (m >> 15) & 31 == r[2]
    && (m >> 10) & 31 == r[3] && (m >> 5) & 31 == r[4] && m & 31 == r[5]
  }

  /** BIP 173, section "Checksum": the remainder modulo the generator polynomial of the sequence headed by
      the coefficient 1. */
  method Polymod(values: seq<word>) returns (checksum: word)
    ensures checksum == PolymodOf(values)
    ensures Symbols(values) ==> HoldsCoefficients(checksum, Remainder([1] + values))
  {
    hide Xor, Low25, Top, Selected, HoldsCoefficients;
    checksum := 1;
    for k := 0 to |values|
      invariant checksum == PolymodOf(values[..k])
    {
      var b := Top(checksum);
      checksum := Xor(Low25(checksum), values[k]);
      ghost var shifted := checksum;
      XorZero(shifted);
      for i := 0 to |GENERATORS|
        invariant checksum == Xor(shifted, GeneratorSum(b, i))
      {
        XorAssociates(shifted, GeneratorSum(b, i), Selected(b, i));
        checksum := Xor(checksum, Selected(b, i));
      }
      assert values[..k + 1][..k] == values[..k];
    }
    assert values[..|values|] == values;
    if Symbols(values) {
      RegisterByShifting(values);
    }
  }

  lemma RegisterByShifting(values: seq<word>)
    requires Symbols(values)
    ensures HoldsCoefficients(PolymodOf(values), Remainder([1] + values))
  {
    hide PolymodOf, Remainder, Coefficients, HoldsCoefficients;
    RegisterIsRemainder(values);
    CoefficientsByShifting(PolymodOf(values));
  }

  lemma CoefficientsByShifting(m: word)
    ensures m < LIMIT ==> HoldsCoefficients(m, Coefficients(m))
  {
  }
}
