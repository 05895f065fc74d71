/** What an address says: it decodes to what was encoded, and short corruptions of it do not decode. */
module Bech32RoundTrip {
  import opened Common
  import opened BitStrings
  import opened ConvertBits
  import opened Bech32Checksum
  import opened Bech32Burst
  import opened Bech32Polynomial
  import opened Bech32Symbols
  import opened Bech32
  import opened Bech32Decoder

  lemma {:induction false} LastSeparatorFound(a: string, b: string)
    requires SEPARATOR !in b
    ensures LastSeparator(a + [SEPARATOR] + b) == |a|
    decreases |b|
  {
    var s := a + [SEPARATOR] + b;
    if b == [] {
      assert s[|s| - 1] == SEPARATOR;
    } else {
      assert s[|s| - 1] == b[|b| - 1];
      assert s[..|s| - 1] == a + [SEPARATOR] + b[..|b| - 1];
      LastSeparatorFound(a, b[..|b| - 1]);
    }
  }

  lemma LowerDecodes(d: nat)
    requires d < 16
    ensures CodeOf(LowerCharset()[d]) == d
  {
  }

  lemma UpperDecodes(d: nat)
    requires d < 16
    ensures CodeOf(UpperCharset()[d]) == d + 16
  {
  }

  lemma SeparatorHasNoCode()
    ensures CodeOf(SEPARATOR) == 32
  {
  }

  lemma CharRoundTrip(symbol: word)
    requires symbol < 32
    ensures CodeOf(CharOf(symbol)) == symbol as nat < 32
    ensures CharOf(symbol) != SEPARATOR
  {
    hide CodeOf, LowerCharset, UpperCharset;
    SmallNumber(symbol);
    var d := symbol as nat;
    if d < 16 {
      LowerDecodes(d);
    } else {
      UpperDecodes(d - 16);
    }
    SeparatorHasNoCode();
  }

  lemma SpelledRoundTrip(symbols: seq<word>)
    requires Symbols(symbols)
    ensures CodesOf(Spelled(symbols)) == Numbers(symbols)
    ensures SEPARATOR !in Spelled(symbols)
    ensures Fits(Numbers(symbols), 5) && Words(Numbers(symbols)) == symbols
  {
    hide CodeOf, CharOf;
    PowersOfTwo();
    forall i | 0 <= i < |symbols|
      ensures CodeOf(CharOf(symbols[i])) == symbols[i] as nat < 32 && CharOf(symbols[i]) != SEPARATOR
      ensures (symbols[i] as nat) as word == symbols[i]
    {
      CharRoundTrip(symbols[i]);
      SmallWord(symbols[i]);
    }
    assert Words(Numbers(symbols)) == symbols;
  }

  lemma SmallWord(w: word)
    requires w < 32
    ensures (w as nat) as word == w && w as nat < 32
  {
  }

  // The specified checksum is the computed one.

  lemma ExpansionAgrees(prefix: seq<Char8>)
    ensures ExpansionOf(prefix) == HrpExpandOf(prefix)
  {
    hide High, Low;
    forall i | 0 <= i < |prefix|
      ensures (prefix[i] as int / 32) as word == High(prefix[i])
      ensures (prefix[i] as int % 32) as word == Low(prefix[i])
    {
      HalvesAreNumbers(prefix[i]);
      WordBack(High(prefix[i]));
      WordBack(Low(prefix[i]));
    }
  }

  lemma ResidueIs(version: nat)
    ensures Coefficients(TargetOf(version)) == Residue(version)
  {
    assert Coefficients(BECH32_XOR) == [0, 0, 0, 0, 0, 1];
    assert Coefficients(BECH32M_XOR) == [21, 28, 16, 12, 5, 3];
  }

  lemma SameCoefficients(x: word, y: word)
    requires x < LIMIT && y < LIMIT && Coefficients(x) == Coefficients(y)
    ensures x == y
  {
    hide Group25, Group20, Group15, Group10, Group5, Low5;
    assert forall i :: 0 <= i < 6 ==>
      Coefficient(x, i) == Coefficients(x)[i] && Coefficient(y, i) == Coefficients(y)[i];
    assert Coefficient(x, 0) == Coefficient(y, 0) && Coefficient(x, 1) == Coefficient(y, 1);
    assert Coefficient(x, 2) == Coefficient(y, 2) && Coefficient(x, 3) == Coefficient(y, 3);
    assert Coefficient(x, 4) == Coefficient(y, 4) && Coefficient(x, 5) == Coefficient(y, 5);
    SameGroups(x, y);
  }

  lemma SameGroups(x: word, y: word)
    requires x < LIMIT && y < LIMIT
    requires Group25(x) == Group25(y) && Group20(x) == Group20(y) && Group15(x) == Group15(y)
    requires Group10(x) == Group10(y) && Group5(x) == Group5(y) && Low5(x) == Low5(y)
    ensures x == y
  {
  }

  /** The register holds the target exactly when the polynomial of the whole address leaves the residue. */
  lemma ChecksumAgrees(prefix: seq<Char8>, symbols: seq<word>, version: nat)
    requires Symbols(symbols)
    ensures PolymodOf(HrpExpandOf(prefix) + symbols) == TargetOf(version)
      <==> Remainder([1] + ExpansionOf(prefix) + symbols) == Residue(version)
  {
    hide PolymodOf, HrpExpandOf, ExpansionOf, Remainder, Residue, TargetOf, Coefficients, Symbols;
    ExpansionAgrees(prefix);
    HrpExpandSymbols(prefix);
    var values := HrpExpandOf(prefix) + symbols;
    SymbolsConcat(HrpExpandOf(prefix), symbols);
    RegisterIsRemainder(values);
    assert [1] + values == [1] + HrpExpandOf(prefix) + symbols;
    ResidueIs(version);
    TargetFits(version);
    if Coefficients(PolymodOf(values)) == Coefficients(TargetOf(version)) {
      SameCoefficients(PolymodOf(values), TargetOf(version));
    }
  }

  lemma TargetFits(version: nat)
    ensures TargetOf(version) < LIMIT
  {
  }

  /** Everything the decoder looks at in an encoded address. */
  lemma AddressParts(prefix: seq<Char8>, version: nat, program: seq<byte>) returns (symbols: seq<word>)
    requires version < 32
    ensures Symbols(symbols)
    ensures var s := AddressOf(prefix, version, program);
      && s == prefix + [SEPARATOR] + Spelled(symbols)
      && LastSeparator(s) == |prefix|
      && CodesOf(s[|prefix| + 1..]) == Numbers(symbols)
    ensures |symbols| >= 7 && symbols[0] as nat == version
    ensures Fits(Numbers(symbols), 5) && Words(Numbers(symbols)) == symbols
    ensures PolymodOf(HrpExpandOf(prefix) + symbols) == TargetOf(version)
    ensures Numbers(symbols)[1..|symbols| - 6] == Groups(FlatBits(Bytes(program), 8), 5, true)
  {
    hide PolymodOf, HrpExpandOf, Groups, FlatBits, LastSeparator, TargetOf, ChecksumSymbol;
    var data := DataOf(version, program);
    var checksum := ChecksumOf(prefix, data, TargetOf(version));
    ChecksumSymbolsAreSymbols(Xor(PolymodOf(HrpExpandOf(prefix) + data + SIX_ZEROS), TargetOf(version)));
    symbols := data + checksum;
    TargetFits(version);
    ChecksumVerifies(prefix, data, TargetOf(version));
    assert HrpExpandOf(prefix) + data + checksum == HrpExpandOf(prefix) + symbols;
    SpelledRoundTrip(symbols);
    LastSeparatorFound(prefix, Spelled(symbols));
    var s := AddressOf(prefix, version, program);
    assert s[|prefix| + 1..] == Spelled(symbols);
    DataParts(version, program, checksum);
  }

  lemma DataParts(version: nat, program: seq<byte>, checksum: seq<word>)
    requires version < 32 && |checksum| == 6
    ensures var symbols := DataOf(version, program) + checksum;
      && |symbols| >= 7 && symbols[0] as nat == version
      && Numbers(symbols)[1..|symbols| - 6] == Groups(FlatBits(Bytes(program), 8), 5, true)
  {
    hide Groups, FlatBits;
    FlatBitsOfGroupsFit(program);
    var regrouped := Groups(FlatBits(Bytes(program), 8), 5, true);
    WordsAreSymbols(regrouped);
    WordOfSymbol(version);
    var symbols := DataOf(version, program) + checksum;
    assert Numbers(symbols)[1..|symbols| - 6] == Numbers(Words(regrouped));
  }

  /** Decoding an encoded address recovers exactly its prefix, version and program. */
  lemma DecodeEncode(prefix: seq<Char8>, version: nat, program: seq<byte>)
    requires version < 32
    ensures Decode(AddressOf(prefix, version, program)) == Some(Address(prefix, version, program))
  {
    hide PolymodOf, HrpExpandOf, Groups, FlatBits, LastSeparator, TargetOf, AddressOf, Words, ExpansionOf, Remainder,
         Residue;
    var symbols := AddressParts(prefix, version, program);
    ChecksumAgrees(prefix, symbols, version);
    RegroupRoundTrip(Bytes(program));
    PowersOfTwo();
    var s := AddressOf(prefix, version, program);
    assert s[..|prefix|] == prefix;
    assert forall i :: 0 <= i < |prefix| ==> s[i] == prefix[i];
  }

  /** Different (version, program) pairs never share an address. */
  lemma AddressIsInjective(prefix: seq<Char8>, v1: nat, p1: seq<byte>, v2: nat, p2: seq<byte>)
    requires v1 < 32 && v2 < 32
    requires AddressOf(prefix, v1, p1) == AddressOf(prefix, v2, p2)
    ensures v1 == v2 && p1 == p2
  {
    hide AddressOf, Decode;
    DecodeEncode(prefix, v1, p1);
    DecodeEncode(prefix, v2, p2);
  }

  /** Main-net addresses of 20-byte programs have 42 characters, those of 32-byte programs 62. */
  lemma AddressLength(version: nat, program: seq<byte>)
    requires version < 32
    ensures |AddressOf("bc", version, program)| * 5 < |program| * 8 + 55
    ensures |AddressOf("bc", version, program)| * 5 >= |program| * 8 + 50
    ensures |program| == 20 ==> |AddressOf("bc", version, program)| == 42
    ensures |program| == 32 ==> |AddressOf("bc", version, program)| == 62
  {
    hide PolymodOf, HrpExpandOf, Groups, FlatBits, TargetOf, AddressOf, Spelled, Numbers;
    var symbols := AddressParts("bc", version, program);
    RegroupLength(Bytes(program), 8, 5);
  }

  /** What acceptance by the decoder says. */
  lemma DecodedParts(s: string)
    requires Decode(s).Some?
    ensures var sep := LastSeparator(s);
      && sep >= 0 && |s| >= sep + 8
      && (forall i :: 0 <= i < sep ==> s[i] as int < 256)
      && var x := CodesOf(s[sep + 1..]);
      && (forall i :: 0 <= i < |x| ==> x[i] < 32)
      && Fits(x, 5)
      && PolymodOf(HrpExpandOf(s[..sep]) + Words(x)) == TargetOf(x[0])
  {
    hide PolymodOf, HrpExpandOf, Groups, FlatBits, LastSeparator, TargetOf, Words, CodeOf, ExpansionOf, Remainder,
         Residue;
    PowersOfTwo();
    var sep := LastSeparator(s);
    var x := CodesOf(s[sep + 1..]);
    WordsAreSymbols(x);
    ChecksumAgrees(s[..sep], Words(x), x[0]);
  }

  /** A valid address in which up to six consecutive characters behind the separator are replaced, none
      of them by another separator, is rejected, unless the checksum constant itself changes with the
      version: BIP 173, section "Checksum", and BIP 350, section "Bech32m". */
  lemma CorruptionRejected(s: string, t: string, start: nat)
    requires Decode(s).Some? && |t| == |s|
    requires var sep := LastSeparator(s);
      && sep + 2 <= |s|
      && t[..sep + 1] == s[..sep + 1]
      && SEPARATOR !in t[sep + 1..]
      && (CodeOf(t[sep + 1]) == 0 <==> CodeOf(s[sep + 1]) == 0)
    requires s != t
    requires forall k :: 0 <= k < |s| && (k < start || start + 6 <= k) ==> s[k] == t[k]
    ensures Decode(t) == None
  {
    hide PolymodOf, HrpExpandOf, Decode, LastSeparator, Words, CodeOf;
    DecodedParts(s);
    var sep := LastSeparator(s);
    SameSeparator(s, t, sep);
    if Decode(t).Some? {
      DecodedParts(t);
      var x, y := CodesOf(s[sep + 1..]), CodesOf(t[sep + 1..]);
      assert x[0] == CodeOf(s[sep + 1]) && y[0] == CodeOf(t[sep + 1]);
      var at := if start >= sep + 1 then start - (sep + 1) else 0;
      SpellingBurst(s, t, sep, start, at);
      hide TargetOf;
      ChecksumsDiffer(s[..sep], x, y, at);
    }
  }

  lemma SameSeparator(s: string, t: string, sep: nat)
    requires |t| == |s| && sep + 1 <= |s| && s[sep] == SEPARATOR
    requires t[..sep + 1] == s[..sep + 1] && SEPARATOR !in t[sep + 1..]
    ensures LastSeparator(t) == sep && t[..sep] == s[..sep]
  {
    assert t[sep] == t[..sep + 1][sep] == s[..sep + 1][sep];
    assert t == t[..sep] + [SEPARATOR] + t[sep + 1..];
    LastSeparatorFound(t[..sep], t[sep + 1..]);
    assert t[..sep] == t[..sep + 1][..sep] == s[..sep + 1][..sep];
  }

  lemma ChecksumsDiffer(prefix: seq<Char8>, x: seq<nat>, y: seq<nat>, at: nat)
    requires Fits(x, 5) && Fits(y, 5) && |x| == |y| && x != y
    requires forall k :: 0 <= k < |x| && (k < at || at + 6 <= k) ==> x[k] == y[k]
    ensures PolymodOf(HrpExpandOf(prefix) + Words(x)) != PolymodOf(HrpExpandOf(prefix) + Words(y))
  {
    hide PolymodOf, HrpExpandOf, Words, Symbols, BurstAt;
    var hrp := HrpExpandOf(prefix);
    HrpExpandSymbols(prefix);
    WordsAreSymbols(x);
    WordsAreSymbols(y);
    SameWords(x, y);
    SymbolsConcat(hrp, Words(x));
    SymbolsConcat(hrp, Words(y));
    BurstBehind(hrp, Words(x), Words(y), at);
    BurstDetected(hrp + Words(x), hrp + Words(y), |hrp| + at);
  }

  lemma SameWords(x: seq<nat>, y: seq<nat>)
    requires Fits(x, 5) && Fits(y, 5) && |x| == |y|
    ensures forall k :: 0 <= k < |x| && x[k] == y[k] ==> Words(x)[k] == Words(y)[k]
  {
  }

  lemma BurstBehind(front: seq<word>, xs: seq<word>, ys: seq<word>, at: nat)
    requires |xs| == |ys| && xs != ys
    requires forall k :: 0 <= k < |xs| && (k < at || at + 6 <= k) ==> xs[k] == ys[k]
    ensures BurstAt(front + xs, front + ys, |front| + at) && front + xs != front + ys
  {
    assert (front + xs)[|front|..] == xs && (front + ys)[|front|..] == ys;
  }

  /** Characters of the alphabet differ exactly when their symbols do. */
  lemma SpellingBurst(s: string, t: string, sep: nat, start: nat, at: nat)
    requires |s| == |t| && sep + 1 <= |s| && s != t && s[..sep + 1] == t[..sep + 1]
    requires forall k :: 0 <= k < |s| && (k < start || start + 6 <= k) ==> s[k] == t[k]
    requires at == if start >= sep + 1 then start - (sep + 1) else 0
    requires var x := CodesOf(s[sep + 1..]); forall i :: 0 <= i < |x| ==> x[i] < 32
    ensures var x, y := CodesOf(s[sep + 1..]), CodesOf(t[sep + 1..]);
      && |x| == |y| && x != y
      && forall k :: 0 <= k < |x| && (k < at || at + 6 <= k) ==> x[k] == y[k]
  {
    hide CodeOf;
    var x, y := CodesOf(s[sep + 1..]), CodesOf(t[sep + 1..]);
    PrefixAgrees(s, t, sep + 1);
    var k :| 0 <= k < |s| && s[k] != t[k];
    var i := k - (sep + 1);
    assert x[i] == CodeOf(s[k]) && y[i] == CodeOf(t[k]);
    SymbolsSeparate(s[k], t[k]);
    forall j | 0 <= j < |x| && (j < at || at + 6 <= j) ensures x[j] == y[j] {
      assert s[j + sep + 1] == t[j + sep + 1];
    }
  }

  lemma PrefixAgrees(s: string, t: string, n: nat)
    requires n <= |s| && n <= |t| && s[..n] == t[..n]
    ensures forall j :: 0 <= j < n ==> s[j] == t[j]
  {
    forall j | 0 <= j < n ensures s[j] == t[j] {
      assert s[..n][j] == t[..n][j];
    }
  }

  lemma SymbolsSeparate(c: char, d: char)
    requires CodeOf(c) < 32 && c != d
    ensures CodeOf(c) != CodeOf(d)
  {
  }

  // Errors in the prefix.

  lemma CharIsItsHalves(c: Char8, d: Char8)
    requires High(c) == High(d) && Low(c) == Low(d)
    ensures c == d
  {
    hide High, Low;
    HalvesAreNumbers(c);
    HalvesAreNumbers(d);
  }

  /** A two-character prefix expands to five symbols, which fit one burst. */
  lemma ExpansionsDiffer(p: seq<Char8>, q: seq<Char8>)
    requires |p| == |q| == 2 && p != q
    ensures |HrpExpandOf(p)| == |HrpExpandOf(q)| == 5 && HrpExpandOf(p) != HrpExpandOf(q)
  {
    hide High, Low;
    var e, f := HrpExpandOf(p), HrpExpandOf(q);
    assert e == [High(p[0]), High(p[1]), 0, Low(p[0]), Low(p[1])];
    assert f == [High(q[0]), High(q[1]), 0, Low(q[0]), Low(q[1])];
    if e == f {
      assert e[0] == f[0] && e[1] == f[1] && e[3] == f[3] && e[4] == f[4];
      CharIsItsHalves(p[0], q[0]);
      CharIsItsHalves(p[1], q[1]);
    }
  }

  /** Replacing the prefix "bc", or any other of two characters, by a different one of two characters
      makes a valid address invalid. */
  lemma PrefixCorruptionRejected(prefix: seq<Char8>, other: seq<Char8>, data: string)
    requires |prefix| == |other| == 2 && prefix != other
    requires SEPARATOR !in data && Decode(prefix + [SEPARATOR] + data).Some?
    ensures Decode(other + [SEPARATOR] + data) == None
  {
    hide PolymodOf, HrpExpandOf, Decode, LastSeparator, TargetOf, Words, CodeOf;
    var s, t := prefix + [SEPARATOR] + data, other + [SEPARATOR] + data;
    LastSeparatorFound(prefix, data);
    LastSeparatorFound(other, data);
    DecodedParts(s);
    assert s[3..] == data && t[3..] == data && s[..2] == prefix && t[..2] == other;
    if Decode(t).Some? {
      DecodedParts(t);
      PrefixesDiffer(prefix, other, CodesOf(data));
    }
  }

  lemma PrefixesDiffer(prefix: seq<Char8>, other: seq<Char8>, x: seq<nat>)
    requires |prefix| == |other| == 2 && prefix != other && Fits(x, 5)
    ensures PolymodOf(HrpExpandOf(prefix) + Words(x)) != PolymodOf(HrpExpandOf(other) + Words(x))
  {
    hide PolymodOf;
    ExpansionsDiffer(prefix, other);
    HrpExpandSymbols(prefix);
    HrpExpandSymbols(other);
    hide HrpExpandOf;
    WordsAreSymbols(x);
    var e, f := HrpExpandOf(prefix), HrpExpandOf(other);
    hide Words, Symbols;
    SymbolsConcat(e, Words(x));
    SymbolsConcat(f, Words(x));
    assert (e + Words(x))[..5] == e && (f + Words(x))[..5] == f;
    BurstDetected(e + Words(x), f + Words(x), 0);
  }
}
