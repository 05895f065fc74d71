/** Bech32 and Bech32m addresses, as the code encodes them. */
module Bech32 {
  import opened Common
  import opened BitStrings
  import opened ConvertBits
  import opened Bech32Checksum
  import opened Bech32Burst
  import opened Bech32Symbols
  import opened Bech32Polynomial

  const SEPARATOR: char := '1'
  const BECH32_XOR: word := 1
  const BECH32M_XOR: word := 0x2bc830a3

  function LowerCharset(): (s: string)
    ensures |s| == 16
  {
    "qpzry9x8gf2tvdw0"
  }

  function UpperCharset(): (s: string)
    ensures |s| == 16
  {
    "s3jn54khce6mua7l"
  }

  function Charset(): (s: string)
    ensures |s| == 32
  {
    LowerCharset() + UpperCharset()
  }

  function TargetOf(version: nat): word { if version == 0 then BECH32_XOR else BECH32M_XOR }

  function HighBits(prefix: seq<Char8>): (r: seq<word>)
    ensures |r| == |prefix|
  {
    seq(|prefix|, i requires 0 <= i < |prefix| => High(prefix[i]))
  }

  function LowBits(prefix: seq<Char8>): (r: seq<word>)
    ensures |r| == |prefix|
  {
    seq(|prefix|, i requires 0 <= i < |prefix| => Low(prefix[i]))
  }

  function HrpExpandOf(prefix: seq<Char8>): seq<word> { HighBits(prefix) + [0] + LowBits(prefix) }

  lemma HrpExpandSymbols(prefix: seq<Char8>)
    ensures Symbols(HrpExpandOf(prefix))
  {
    forall i | 0 <= i < |prefix| ensures HighBits(prefix)[i] < 32 && LowBits(prefix)[i] < 32 {
      CharHalves(prefix[i]);
    }
  }

  lemma CharHalves(c: Char8)
    ensures High(c) < 32 && Low(c) < 32
  {
    hide CharWord;
    CharByShifting(c);
    WordOfChar(c);
    MaskIsSymbol(CharWord(c));
    ByteFits(CharWord(c));
  }

  lemma ByteFits(w: word)
    requires w as int < 256
    ensures w >> 5 < 32
  {
    assert w < 256;
  }

  lemma CharByShifting(c: Char8)
    ensures High(c) == CharWord(c) >> 5 && Low(c) == CharWord(c) & 31
  {
    hide CharWord;
  }

  /** Each character code divided by 32: the quotients stand in front of a zero, the remainders behind it. */
  predicate HalvesLieApart(prefix: seq<Char8>, symbols: seq<word>) {
    && |symbols| == 2 * |prefix| + 1
    && symbols[|prefix|] == 0
    && (forall i :: 0 <= i < |prefix| ==> symbols[i] as int == prefix[i] as int / 32)
    && (forall i :: 0 <= i < |prefix| ==> symbols[|prefix| + 1 + i] as int == prefix[i] as int % 32)
  }

  lemma HrpExpandHalves(prefix: seq<Char8>)
    ensures HalvesLieApart(prefix, HrpExpandOf(prefix))
  {
    hide High, Low;
    forall i | 0 <= i < |prefix|
      ensures HighBits(prefix)[i] as int == prefix[i] as int / 32
      ensures LowBits(prefix)[i] as int == prefix[i] as int % 32
    {
      HalvesAreNumbers(prefix[i]);
    }
  }

  method HrpExpand(prefix: seq<Char8>) returns (result: seq<word>)
    ensures result == HrpExpandOf(prefix)
    ensures HalvesLieApart(prefix, result)
  {
    hide CharWord, High, Low, HalvesLieApart;
    HrpExpandHalves(prefix);
    result := [];
    for i := 0 to |prefix|
      invariant result == HighBits(prefix)[..i]
    {
      CharByShifting(prefix[i]);
      result := result + [CharWord(prefix[i]) >> 5];
    }
    result := result + [0];
    for i := 0 to |prefix|
      invariant result == HighBits(prefix) + [0] + LowBits(prefix)[..i]
    {
      CharByShifting(prefix[i]);
      result := result + [CharWord(prefix[i]) & 31];
    }
  }

  function ChecksumOf(prefix: seq<Char8>, data: seq<word>, target: word): seq<word> {
    ChecksumSymbols(Xor(PolymodOf(HrpExpandOf(prefix) + data + SIX_ZEROS), target))
  }

  lemma ChecksumIs(prefix: seq<Char8>, data: seq<word>, target: word)
    ensures ChecksumOf(prefix, data, target)
      == ChecksumSymbols(Xor(PolymodOf(HrpExpandOf(prefix) + data + [0, 0, 0, 0, 0, 0]), target))
  {
    hide Xor, PolymodOf, HrpExpandOf;
  }

  method CreateBech32Checksum(prefix: seq<Char8>, data: seq<word>, xorValue: word) returns (checksum: seq<word>)
    ensures checksum == ChecksumOf(prefix, data, xorValue)
    ensures |checksum| == 6 && Symbols(checksum)
    ensures Symbols(data) && xorValue < LIMIT
      ==> PolymodOf(HrpExpandOf(prefix) + data + checksum) == xorValue
    ensures Symbols(data) && xorValue < LIMIT
      ==> HoldsCoefficients(xorValue, Remainder([1] + (HrpExpandOf(prefix) + data + checksum)))
  {
    hide Xor, ChecksumSymbol, PolymodOf, HrpExpandOf, Remainder, HoldsCoefficients, ChecksumOf;
    var values := HrpExpand(prefix);
    values := values + data;
    values := values + [0, 0, 0, 0, 0, 0];
    var polymod := Polymod(values);
    polymod := Xor(polymod, xorValue);
    checksum := [0, 0, 0, 0, 0, 0];
    for i := 0 to 6
      invariant |checksum| == 6
      invariant checksum[..i] == ChecksumSymbols(polymod)[..i]
    {
      SymbolCut(polymod, i);
      checksum := checksum[i := (polymod >> (5 * (6 - i - 1))) & 31];
    }
    assert checksum == checksum[..6] == ChecksumSymbols(polymod)[..6] == ChecksumSymbols(polymod);
    ChecksumIs(prefix, data, xorValue);
    ChecksumSymbolsAreSymbols(polymod);
    if Symbols(data) && xorValue < LIMIT {
      ChecksumVerifies(prefix, data, xorValue);
      HrpExpandSymbols(prefix);
      SymbolsConcat(HrpExpandOf(prefix), data);
      SymbolsConcat(HrpExpandOf(prefix) + data, checksum);
      RegisterByShifting(HrpExpandOf(prefix) + data + checksum);
    }
  }

  lemma SymbolCut(m: word, i: nat)
    requires i < 6
    ensures (m >> (5 * (6 - i - 1))) & 31 == ChecksumSymbol(m, i)
  {
    hide ChecksumSymbol;
    SymbolsByShifting(m);
    if i == 0 {
      assert 5 * (6 - i - 1) == 25;
    } else if i == 1 {
      assert 5 * (6 - i - 1) == 20;
    } else if i == 2 {
      assert 5 * (6 - i - 1) == 15;
    } else if i == 3 {
      assert 5 * (6 - i - 1) == 10;
    } else if i == 4 {
      assert 5 * (6 - i - 1) == 5;
    }
  }

  lemma ChecksumOfSymbols(prefix: seq<Char8>, data: seq<word>, target: word)
    ensures |ChecksumOf(prefix, data, target)| == 6 && Symbols(ChecksumOf(prefix, data, target))
  {
    hide Xor, PolymodOf, ChecksumSymbols;
    ChecksumSymbolsAreSymbols(Xor(PolymodOf(HrpExpandOf(prefix) + data + SIX_ZEROS), target));
  }

  /** The created checksum always verifies: BIP 173, section "Checksum". */
  lemma ChecksumVerifies(prefix: seq<Char8>, data: seq<word>, target: word)
    requires Symbols(data) && target < LIMIT
    ensures PolymodOf(HrpExpandOf(prefix) + data + ChecksumOf(prefix, data, target)) == target
  {
    HrpExpandSymbols(prefix);
    CreatedChecksumVerifies(HrpExpandOf(prefix) + data, target);
  }

  /** It is the only six symbols that do. */
  lemma ChecksumIsUnique(prefix: seq<Char8>, data: seq<word>, target: word, other: seq<word>)
    requires Symbols(data) && target < LIMIT
    requires |other| == 6 && Symbols(other)
    ensures PolymodOf(HrpExpandOf(prefix) + data + other) == target <==> other == ChecksumOf(prefix, data, target)
  {
    hide HrpExpandOf, ChecksumOf, Xor, PolymodOf;
    var values := HrpExpandOf(prefix) + data;
    var c := ChecksumOf(prefix, data, target);
    HrpExpandSymbols(prefix);
    ChecksumVerifies(prefix, data, target);
    ChecksumOfSymbols(prefix, data, target);
    if other != c {
      assert values + other != values + c by {
        assert (values + other)[|values|..] == other && (values + c)[|values|..] == c;
      }
      BurstDetected(values + other, values + c, |values|);
    }
  }

  // Addresses.

  function CharOf(symbol: word): char
    requires symbol < 32
  {
    SmallNumber(symbol);
    Charset()[symbol as int]
  }

  function Spelled(symbols: seq<word>): (s: string)
    requires Symbols(symbols)
    ensures |s| == |symbols|
  {
    seq(|symbols|, i requires 0 <= i < |symbols| => CharOf(symbols[i]))
  }

  function Bytes(program: seq<byte>): (n: seq<nat>)
    ensures n == program && Fits(n, 8)
  {
    PowersOfTwo();
    program
  }

  /** The data part of an address: version, regrouped program and checksum. */
  function DataOf(version: nat, program: seq<byte>): (d: seq<word>)
    requires version < 32
    ensures Symbols(d)
  {
    FlatBitsOfGroupsFit(program);
    var regrouped := Groups(FlatBits(Bytes(program), 8), 5, true);
    WordsAreSymbols(regrouped);
    WordOfSymbol(version);
    [version as word] + Words(regrouped)
  }

  lemma FlatBitsOfGroupsFit(program: seq<byte>)
    ensures Fits(Groups(FlatBits(Bytes(program), 8), 5, true), 5)
  {
    RegroupRoundTrip(Bytes(program));
  }

  function AddressOf(prefix: seq<Char8>, version: nat, program: seq<byte>): string
    requires version < 32
  {
    hide DataOf, ChecksumOf, TargetOf;
    var data := DataOf(version, program);
    var checksum := ChecksumOf(prefix, data, TargetOf(version));
    ChecksumOfSymbols(prefix, data, TargetOf(version));
    prefix + [SEPARATOR] + Spelled(data + checksum)
  }

  lemma DataIs(version: nat, program: seq<byte>, regrouped: seq<nat>)
    requires version < 32 && Fits(regrouped, 5)
    requires regrouped == Groups(FlatBits(Bytes(program), 8), 5, true)
    ensures [version as word] + Words(regrouped) == DataOf(version, program)
  {
    hide Groups, FlatBits, Words;
  }

  lemma SymbolsConcat(a: seq<word>, b: seq<word>)
    requires Symbols(a) && Symbols(b)
    ensures Symbols(a + b)
  {
  }

  lemma NextSpelled(symbols: seq<word>, i: nat)
    requires Symbols(symbols) && i < |symbols|
    ensures symbols[i] < 32
    ensures Spelled(symbols)[..i + 1] == Spelled(symbols)[..i] + [CharOf(symbols[i])]
  {
    hide CharOf;
  }

  method Encode(prefix: seq<Char8>, witVersion: nat, witProgram: seq<byte>) returns (result: string)
    requires witVersion < 32
    ensures result == AddressOf(prefix, witVersion, witProgram)
  {
    hide PolymodOf, HrpExpandOf, Groups, FlatBits, Regrouped, CharOf, ChecksumOf, Xor, DataOf, Words, Symbols;
    var checksumXorValue := if witVersion == 0 then BECH32_XOR else BECH32M_XOR;
    var data: seq<word> := [witVersion as word];
    var converted := Convert(witProgram, 8, 5);
    data := data + Words(converted);
    DataIs(witVersion, witProgram, converted);
    var checksum := CreateBech32Checksum(prefix, data, checksumXorValue);
    SymbolsConcat(data, checksum);
    data := data + checksum;
    result := prefix + [SEPARATOR];
    for i := 0 to |data|
      invariant result == prefix + [SEPARATOR] + Spelled(data)[..i]
    {
      NextSpelled(data, i);
      result := result + [CharOf(data[i])];
    }
  }
}
