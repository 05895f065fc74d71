/** Base58Check addresses, with the decoder that the encoder is proved against. */
module Base58Check {
  import opened Common
  import opened Hashing
  import opened Base58

  function NonzeroDigits(): (s: string)
    ensures |s| == 9
  {
    "123456789"
  }

  function CapitalLetters(): (s: string)
    ensures |s| == 24
  {
    "ABCDEFGHJKLMNPQRSTUVWXYZ"
  }

  function SmallLetters(): (s: string)
    ensures |s| == 25
  {
    "abcdefghijkmnopqrstuvwxyz"
  }

  function Alphabet(): string { NonzeroDigits() + CapitalLetters() + SmallLetters() }

  /** How many zero bytes come first. */
  function LeadingZeros(bytes: seq<byte>): (n: nat)
    ensures n <= |bytes|
    ensures forall i :: 0 <= i < n ==> bytes[i] == 0
    ensures n < |bytes| ==> bytes[n] != 0
  {
    if bytes == [] || bytes[0] != 0 then 0 else 1 + LeadingZeros(bytes[1..])
  }

  function ZeroBytes(n: nat): seq<byte> { seq(n, _ => 0) }

  function Ones(n: nat): string { seq(n, _ => '1') }

  function DigitChar(d: nat): char
    requires d < 58
  {
    Alphabet()[d]
  }

  /** The digits as text, most significant first. */
  function Written(digits: seq<nat>): (s: string)
    requires Canonical(digits)
    ensures |s| == |digits|
  {
    seq(|digits|, i requires 0 <= i < |digits| => DigitChar(digits[|digits| - 1 - i]))
  }

  function ChecksumBytes(hs: Hashes, body: seq<byte>): (c: seq<byte>)
    ensures |c| == 4
  {
    hs.DoubleSha256(body)[..4]
  }

  /** The encoding of a number behind a given count of leading '1' characters. */
  function TextOf(zeros: nat, value: nat): string {
    Digits58Spell(value);
    Ones(zeros) + Written(Digits58(value))
  }

  /** The address of version ‖ payload: the zeros are counted before the checksum is appended. */
  function AddressOf(hs: Hashes, version: seq<byte>, payload: seq<byte>): string {
    var body := version + payload;
    TextOf(LeadingZeros(body), Value256(body + ChecksumBytes(hs, body)))
  }

  method Encode(hs: Hashes, version: seq<byte>, payload: seq<byte>) returns (result: string)
    ensures result == AddressOf(hs, version, payload)
  {
    hide LeadingZeros, Digits58, Value58, Value256, Canonical, DigitChar;
    var fullPayload: seq<byte> := version + payload;
    ghost var body := fullPayload;
    var leadingZeros: nat := 0;
    assert body[0..] == body;
    while leadingZeros < |fullPayload| && fullPayload[leadingZeros] == 0
      invariant leadingZeros <= |fullPayload|
      invariant LeadingZeros(body) == leadingZeros + LeadingZeros(body[leadingZeros..])
    {
      LeadingZerosStep(body, leadingZeros);
      leadingZeros := leadingZeros + 1;
    }
    LeadingZerosStep(body, leadingZeros);
    var checksum := hs.DoubleSha256(fullPayload);
    fullPayload := fullPayload + checksum[..4];
    var digits: seq<nat> := [];
    NothingAbsorbed(fullPayload);
    for k := 0 to |fullPayload|
      invariant Canonical(digits) && Value58(digits) == Value256(fullPayload[..k])
    {
      Value256Step(fullPayload, k);
      digits := AbsorbByte(digits, fullPayload[k]);
    }
    assert fullPayload[..|fullPayload|] == fullPayload;
    CanonicalIsUnique(digits);
    result := Ones(leadingZeros);
    for i := 0 to |digits|
      invariant result == Ones(leadingZeros) + Written(digits)[..i]
    {
      DigitIsDigit(digits, |digits| - 1 - i);
      result := result + [DigitChar(digits[|digits| - 1 - i])];
    }
  }

  lemma LeadingZerosStep(body: seq<byte>, i: nat)
    requires i <= |body|
    ensures LeadingZeros(body[i..]) == if i == |body| || body[i] != 0 then 0 else 1 + LeadingZeros(body[i + 1..])
  {
    if i < |body| {
      assert body[i..][1..] == body[i + 1..];
    }
  }

  lemma NothingAbsorbed(bytes: seq<byte>)
    ensures Canonical([]) && Value58([]) == Value256(bytes[..0])
  {
  }

  lemma Value256Step(bytes: seq<byte>, k: nat)
    requires k < |bytes|
    ensures Value256(bytes[..k + 1]) == 256 * Value256(bytes[..k]) + bytes[k]
  {
    assert bytes[..k + 1][..k] == bytes[..k];
  }

  // The specification decoder.

  function CodeOf(c: char): nat {
    if '1' <= c <= '9' then c as int - '1' as int
    else if 'A' <= c <= 'H' then c as int - 'A' as int + 9
    else if 'J' <= c <= 'N' then c as int - 'J' as int + 17
    else if 'P' <= c <= 'Z' then c as int - 'P' as int + 22
    else if 'a' <= c <= 'k' then c as int - 'a' as int + 33
    else if 'm' <= c <= 'z' then c as int - 'm' as int + 44
    else 58
  }

  lemma DigitsDecode(d: nat)
    requires d < 9
    ensures CodeOf(NonzeroDigits()[d]) == d
  {
  }

  lemma CapitalsDecode(d: nat)
    requires d < 24
    ensures CodeOf(CapitalLetters()[d]) == d + 9
  {
  }

  lemma SmallLettersDecode(d: nat)
    requires d < 25
    ensures CodeOf(SmallLetters()[d]) == d + 33
  {
  }

  lemma DigitCharDecodes(d: nat)
    requires d < 58
    ensures CodeOf(DigitChar(d)) == d
  {
    hide CodeOf, NonzeroDigits, CapitalLetters, SmallLetters;
    if d < 9 {
      DigitsDecode(d);
    } else if d < 33 {
      CapitalsDecode(d - 9);
    } else {
      SmallLettersDecode(d - 33);
    }
  }

  function LeadingOnes(s: string): (n: nat)
    ensures n <= |s|
  {
    if s == [] || s[0] != '1' then 0 else 1 + LeadingOnes(s[1..])
  }

  function ValueOfText(s: string): nat {
    if s == [] then 0 else 58 * ValueOfText(s[..|s| - 1]) + CodeOf(s[|s| - 1])
  }

  /** The bytes of n without superfluous ones, most significant first. */
  function Bytes256(n: nat): seq<byte> {
    if n == 0 then [] else Bytes256(n / 256) + [n % 256]
  }

  /** Every leading '1' stands for one zero byte, the rest of the text for a number in minimal bytes. */
  function Decode(s: string): Option<seq<byte>> {
    if exists i :: 0 <= i < |s| && CodeOf(s[i]) >= 58 then None
    else Some(ZeroBytes(LeadingOnes(s)) + Bytes256(ValueOfText(s[LeadingOnes(s)..])))
  }
}
