/** The decoding of segregated witness addresses as BIP 173 and BIP 350 specify it. */
module Bech32Decoder {
  import opened Common
  import opened BitStrings
  import opened Bech32Checksum
  import opened Bech32Polynomial
  import opened Bech32Symbols

  function CodeOf(c: char): nat {
    match c
    case 'q' => 0
    case 'p' => 1
    case 'z' => 2
    case 'r' => 3
    case 'y' => 4
    case '9' => 5
    case 'x' => 6
    case '8' => 7
    case 'g' => 8
    case 'f' => 9
    case '2' => 10
    case 't' => 11
    case 'v' => 12
    case 'd' => 13
    case 'w' => 14
    case '0' => 15
    case 's' => 16
    case '3' => 17
    case 'j' => 18
    case 'n' => 19
    case '5' => 20
    case '4' => 21
    case 'k' => 22
    case 'h' => 23
    case 'c' => 24
    case 'e' => 25
    case '6' => 26
    case 'm' => 27
    case 'u' => 28
    case 'a' => 29
    case '7' => 30
    case 'l' => 31
    case _ => 32
  }

  /** The last separator splits an address; -1 if there is none. */
  function LastSeparator(s: string): (i: int)
    ensures -1 <= i < |s|
    ensures i >= 0 ==> s[i] == '1'
  {
    if s == [] then -1
    else if s[|s| - 1] == '1' then |s| - 1
    else LastSeparator(s[..|s| - 1])
  }

  datatype Address = Address(prefix: string, version: nat, program: seq<nat>)

  function CodesOf(data: string): (n: seq<nat>)
    ensures |n| == |data|
  {
    seq(|data|, i requires 0 <= i < |data| => CodeOf(data[i]))
  }

  /** The prefix as symbols: the high three bits of its characters, zero, and their low five bits. */
  function ExpansionOf(prefix: seq<Char8>): seq<word> {
    seq(|prefix|, i requires 0 <= i < |prefix| => (prefix[i] as int / 32) as word) + [0]
      + seq(|prefix|, i requires 0 <= i < |prefix| => (prefix[i] as int % 32) as word)
  }

  /** What the whole address leaves modulo the generator polynomial: 1, or 0x2bc830a3 in groups of five bits. */
  function Residue(version: nat): seq<word> { if version == 0 then [0, 0, 0, 0, 0, 1] else [21, 28, 16, 12, 5, 3] }

  /** An address with a valid checksum: separator, alphabet, checksum and padding are checked in this order. */
  function Decode(s: string): Option<Address> {
    var sep := LastSeparator(s);
    if sep < 0 || |s| < sep + 8 || exists i :: 0 <= i < sep && s[i] as int >= 256 then None
    else
      var symbols := CodesOf(s[sep + 1..]);
      if exists i :: 0 <= i < |symbols| && symbols[i] >= 32 then None
      else
        PowersOfTwo();
        var version := symbols[0];
        var n := |symbols| - 6;
        if Remainder([1] + ExpansionOf(s[..sep]) + Words(symbols)) != Residue(version) then None
        else
          var program := Groups(FlatBits(symbols[1..n], 5), 8, false);
          if Groups(FlatBits(program, 8), 5, true) != symbols[1..n] then None
          else Some(Address(s[..sep], version, program))
  }
}
