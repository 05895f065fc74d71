/** Multi-precision base conversion from bytes to Base58 digits, and its inverse. */
module Base58 {
  import opened Common

  /** The number that bytes spell, most significant byte first. */
  function Value256(bytes: seq<byte>): nat {
    if bytes == [] then 0 else Value256(bytes[..|bytes| - 1]) * 256 + bytes[|bytes| - 1]
  }

  /** The number that base-58 digits spell, least significant digit first. */
  function Value58(digits: seq<nat>): nat {
    if digits == [] then 0 else digits[0] + 58 * Value58(digits[1..])
  }

  predicate Canonical(digits: seq<nat>) {
    && (forall i :: 0 <= i < |digits| ==> digits[i] < 58)
    && (digits != [] ==> digits[|digits| - 1] != 0)
  }

  /** The base-58 digits of n without superfluous ones, least significant first. */
  function Digits58(n: nat): seq<nat> {
    if n == 0 then [] else [n % 58] + Digits58(n / 58)
  }

  lemma {:induction false} Digits58Spell(n: nat)
    ensures Canonical(Digits58(n)) && Value58(Digits58(n)) == n
  {
    if n > 0 {
      Digits58Spell(n / 58);
      assert Digits58(n)[1..] == Digits58(n / 58);
    }
  }

  lemma {:induction false} CanonicalIsUnique(digits: seq<nat>)
    requires Canonical(digits)
    ensures Digits58(Value58(digits)) == digits
  {
    if digits != [] {
      CanonicalIsUnique(digits[1..]);
      CanonicalIsPositive(digits);
      assert Value58(digits) % 58 == digits[0] && Value58(digits) / 58 == Value58(digits[1..]);
    }
  }

  lemma {:induction false} CanonicalIsPositive(digits: seq<nat>)
    requires Canonical(digits) && digits != []
    ensures Value58(digits) > 0
  {
    if |digits| > 1 {
      CanonicalIsPositive(digits[1..]);
    }
  }

  /** Multiplying a digit sequence by 256 and adding a carry, as schoolbook arithmetic does it. */
  function MulAdd(digits: seq<nat>, carry: nat): seq<nat> {
    if digits == [] then Digits58(carry)
    else
      var x := carry + 256 * digits[0];
      [x % 58] + MulAdd(digits[1..], x / 58)
  }

  lemma {:induction false} MulAddSpells(digits: seq<nat>, carry: nat)
    ensures Value58(MulAdd(digits, carry)) == 256 * Value58(digits) + carry
  {
    hide Canonical;
    if digits == [] {
      Digits58Spell(carry);
    } else {
      var x := carry + 256 * digits[0];
      var rest := MulAdd(digits[1..], x / 58);
      MulAddSpells(digits[1..], x / 58);
      hide MulAdd;
      assert ([x % 58] + rest)[1..] == rest;
      assert Value58([x % 58] + rest) == x % 58 + 58 * Value58(rest);
    }
  }

  lemma {:induction false} MulAddIsCanonical(digits: seq<nat>, carry: nat)
    requires Canonical(digits)
    ensures Canonical(MulAdd(digits, carry))
    ensures digits != [] ==> MulAdd(digits, carry) != []
  {
    if digits == [] {
      Digits58Spell(carry);
    } else {
      var x := carry + 256 * digits[0];
      var rest := MulAdd(digits[1..], x / 58);
      MulAddIsCanonical(digits[1..], x / 58);
      if |digits| == 1 {
        assert rest == Digits58(x / 58) && x >= 256;
      }
      CanonicalPrepend(x % 58, rest);
    }
  }

  lemma CanonicalPrepend(d: nat, rest: seq<nat>)
    requires d < 58 && Canonical(rest) && rest != []
    ensures Canonical([d] + rest)
  {
  }

  /** With a byte coming in, no carry exceeds a byte, so at most two digits are appended. */
  lemma {:induction false} MulAddGrowth(digits: seq<nat>, carry: nat)
    requires Canonical(digits) && carry < 256
    ensures |digits| <= |MulAdd(digits, carry)| <= |digits| + 2
  {
    if digits == [] {
      var high := carry / 58;
      assert high / 58 == 0;
      assert |Digits58(high)| <= 1;
    } else {
      MulAddGrowth(digits[1..], (carry + 256 * digits[0]) / 58);
    }
  }

  /** One byte worked into the digits: the division loop and then the loop that appends the rest of the carry. */
  method AbsorbByte(digits: seq<nat>, b: byte) returns (out: seq<nat>)
    requires Canonical(digits)
    ensures out == MulAdd(digits, b)
    ensures Canonical(out) && Value58(out) == 256 * Value58(digits) + b
    ensures |out| <= |digits| + 2
  {
    hide MulAdd, Digits58, Value58, Canonical, DivisionDone;
    out := digits;
    var carry: nat := b;
    DivisionStart(digits, b);
    for i := 0 to |out|
      invariant |out| == |digits|
      invariant DivisionDone(out, i, carry, digits, b)
    {
      DivisionStep(out, i, carry, digits, b);
      carry := carry + 256 * out[i];
      out := out[i := carry % 58];
      carry := carry / 58;
    }
    DivisionEnd(out, carry, digits, b);
    while carry > 0
      invariant out + Digits58(carry) == MulAdd(digits, b)
    {
      Digits58Step(carry);
      out := out + [carry % 58];
      carry := carry / 58;
    }
    Digits58Step(carry);
    MulAddAbsorbs(digits, b);
  }

  lemma MulAddAbsorbs(digits: seq<nat>, b: byte)
    requires Canonical(digits)
    ensures var out := MulAdd(digits, b);
      && Canonical(out) && Value58(out) == 256 * Value58(digits) + b
      && |out| <= |digits| + 2
  {
    hide MulAdd, Value58, Canonical;
    MulAddSpells(digits, b);
    MulAddIsCanonical(digits, b);
    MulAddGrowth(digits, b);
  }

  /** The first i digits are final, the others untouched, and the carry still has to be worked into them. */
  ghost predicate DivisionDone(out: seq<nat>, i: nat, carry: nat, digits: seq<nat>, b: byte) {
    && i <= |out| == |digits|
    && carry < 256
    && out[i..] == digits[i..]
    && out[..i] + MulAdd(digits[i..], carry) == MulAdd(digits, b)
  }

  lemma DivisionStart(digits: seq<nat>, b: byte)
    ensures DivisionDone(digits, 0, b, digits, b)
  {
    assert digits[0..] == digits;
    assert digits[..0] + MulAdd(digits, b) == MulAdd(digits, b);
  }

  lemma DivisionStep(out: seq<nat>, i: nat, carry: nat, digits: seq<nat>, b: byte)
    requires DivisionDone(out, i, carry, digits, b) && i < |out| && Canonical(digits)
    ensures var x := carry + 256 * out[i];
      DivisionDone(out[i := x % 58], i + 1, x / 58, digits, b)
  {
    hide MulAdd;
    assert out[i] == out[i..][0] == digits[i];
    MulAddStep(out[..i], digits, i, carry);
    WriteAt(out, digits, i, (carry + 256 * out[i]) % 58);
  }

  lemma DivisionEnd(out: seq<nat>, carry: nat, digits: seq<nat>, b: byte)
    requires DivisionDone(out, |digits|, carry, digits, b)
    ensures out + Digits58(carry) == MulAdd(digits, b)
  {
    assert digits[|digits|..] == [] && out[..|digits|] == out;
  }

  lemma MulAddStep(done: seq<nat>, digits: seq<nat>, i: nat, carry: nat)
    requires i < |digits|
    ensures var x := carry + 256 * digits[i];
      done + MulAdd(digits[i..], carry) == (done + [x % 58]) + MulAdd(digits[i + 1..], x / 58)
  {
    assert digits[i..][1..] == digits[i + 1..];
  }

  lemma WriteAt(out: seq<nat>, digits: seq<nat>, i: nat, d: nat)
    requires i < |out| == |digits| && out[i..] == digits[i..]
    ensures out[i := d][..i + 1] == out[..i] + [d]
    ensures out[i := d][i + 1..] == digits[i + 1..]
  {
    assert out[i := d][i + 1..] == out[i..][1..];
    assert digits[i + 1..] == digits[i..][1..];
  }

  lemma DigitIsDigit(digits: seq<nat>, i: nat)
    requires Canonical(digits) && i < |digits|
    ensures digits[i] < 58
  {
  }

  lemma Digits58Step(n: nat)
    ensures Digits58(n) == if n == 0 then [] else [n % 58] + Digits58(n / 58)
  {
  }
}
