/** Addresses of output scripts and of the input scripts that spend them. */
module TransactionScriptParser {
  import opened Common
  import opened Hashing
  import opened ScriptTemplates
  import B58 = Base58Check
  import B58RoundTrip = Base58RoundTrip
  import Bech32
  import Bech32Decoder
  import Bech32RoundTrip

  const UNKNOWN: string := "Unknown"
  const OP_RETURN_TEXT: string := "OP_RETURN"

  function LockAddress(hs: Hashes, lock: Lock): string
    requires lock.Standard()
  {
    match lock
    case PubkeyHash(h) => B58.AddressOf(hs, [0x00], h)
    case ScriptHash(h) => B58.AddressOf(hs, [0x05], h)
    case WitnessProgram(v, p) => Bech32.AddressOf("bc", v, p)
  }

  function OutputAddress(hs: Hashes, script: seq<byte>): string {
    if Recognised(script) then
      ScriptOfLock(script);
      LockAddress(hs, LockOf(script))
    else if script != [] && script[0] == OP_RETURN then OP_RETURN_TEXT
    else UNKNOWN
  }

  method ParseOutputScript(hs: Hashes, outputScript: seq<byte>) returns (address: string)
    ensures address == OutputAddress(hs, outputScript)
    ensures OutputAnswered(hs, outputScript, address)
  {
    hide OutputAnswered;
    OutputAnswer(hs, outputScript);
    if |outputScript| == 0 {
      return UNKNOWN;
    }
    if outputScript[0] == OP_RETURN {
      return OP_RETURN_TEXT;
    }
    if IsP2PKH(outputScript) {
      address := B58.Encode(hs, [0x00], outputScript[3..23]);
      return;
    }
    if IsP2SH(outputScript) {
      address := B58.Encode(hs, [0x05], outputScript[2..22]);
      return;
    }
    var isP2wpkhScript := IsP2WPKH(outputScript);
    var isP2wshScript := IsP2WSH(outputScript);
    var isTaproot := IsTaproot(outputScript);
    if isP2wpkhScript || isP2wshScript || isTaproot {
      var witVersion := if isTaproot then 1 else 0;
      address := Bech32.Encode("bc", witVersion, outputScript[2..]);
      return;
    }
    return UNKNOWN;
  }

  function InputAddress(hs: Hashes, script: seq<byte>): string {
    if script == [] then UNKNOWN
    else if IsP2shP2wpkhRedeem(script) then Bech32.AddressOf("bc", 0, script[3..])
    else ScriptSigAddress(hs, script)
  }

  /** The address of the second of two pushes, read as a public key. */
  function ScriptSigAddress(hs: Hashes, scriptSig: seq<byte>): string
    requires scriptSig != []
  {
    var start: nat := 1 + scriptSig[0] as nat;
    if |scriptSig| < start + 1 then UNKNOWN
    else
      var end: nat := start + scriptSig[start] + 1;
      if |scriptSig| < end then UNKNOWN
      else B58.AddressOf(hs, [0x00], hs.Hash160(scriptSig[start + 1..end]))
  }

  method ParseInputScript(hs: Hashes, inputScript: seq<byte>) returns (address: string)
    ensures address == InputAddress(hs, inputScript)
    ensures InputAnswered(hs, inputScript, address)
  {
    hide InputAnswered;
    InputAnswer(hs, inputScript);
    if |inputScript| == 0 {
      return UNKNOWN;
    }
    if IsP2shP2wpkhRedeem(inputScript) {
      address := Bech32.Encode("bc", 0, inputScript[3..]);
      return;
    }
    address := DecodeScriptSigP2PKH(hs, inputScript);
  }

  method DecodeScriptSigP2PKH(hs: Hashes, scriptSig: seq<byte>) returns (address: string)
    requires scriptSig != []
    ensures address == ScriptSigAddress(hs, scriptSig)
  {
    var pubkeyStart: nat := 1 + scriptSig[0] as nat;
    if |scriptSig| < pubkeyStart + 1 {
      return UNKNOWN;
    }
    var pubkeyEnd: nat := pubkeyStart + scriptSig[pubkeyStart] + 1;
    if |scriptSig| < pubkeyEnd {
      return UNKNOWN;
    }
    var pubkey := scriptSig[pubkeyStart + 1..pubkeyEnd];
    var payload := hs.ripemd160(hs.sha256(pubkey));
    address := B58.Encode(hs, [0x00], payload);
  }

  // One address per script.

  lemma Bech32Start(version: nat, program: seq<byte>)
    requires version < 32
    ensures var s := Bech32.AddressOf("bc", version, program); |s| > 0 && s[0] == 'b'
  {
  }

  /** The first character tells the three families of addresses apart, and from both fixed texts. */
  lemma LockAddressStart(hs: Hashes, lock: Lock)
    requires lock.Standard()
    ensures var s := LockAddress(hs, lock);
      && |s| > 0
      && s[0] == match lock { case PubkeyHash(_) => '1' case ScriptHash(_) => '3' case WitnessProgram(_, _) => 'b' }
  {
    hide B58.AddressOf, Bech32.AddressOf;
    match lock
    case PubkeyHash(h) => B58RoundTrip.P2pkhAddressShape(hs, h);
    case ScriptHash(h) => B58RoundTrip.P2shAddressShape(hs, h);
    case WitnessProgram(v, p) => Bech32Start(v, p);
  }

  lemma LockAddressIsInjective(hs: Hashes, a: Lock, b: Lock)
    requires a.Standard() && b.Standard()
    requires LockAddress(hs, a) == LockAddress(hs, b)
    ensures a == b
  {
    LockAddressStart(hs, a);
    LockAddressStart(hs, b);
    hide B58.AddressOf, Bech32.AddressOf;
    match a
    case PubkeyHash(h) => SameHash(hs, 0x00, h, b.hash);
    case ScriptHash(h) => SameHash(hs, 0x05, h, b.hash);
    case WitnessProgram(v, p) => Bech32RoundTrip.AddressIsInjective("bc", v, p, b.version, b.program);
  }

  lemma SameHash(hs: Hashes, version: byte, h: seq<byte>, g: seq<byte>)
    requires |h| == |g| && B58.AddressOf(hs, [version], h) == B58.AddressOf(hs, [version], g)
    ensures h == g
  {
    hide B58.AddressOf;
    B58RoundTrip.AddressIsInjective(hs, [version], h, [version], g);
    assert h == ([version] + h)[1..] && g == ([version] + g)[1..];
  }

  /** Two recognised scripts never share an address, whatever the hash functions do. */
  lemma OutputAddressIsInjective(hs: Hashes, s: seq<byte>, t: seq<byte>)
    requires Recognised(s) && Recognised(t)
    requires OutputAddress(hs, s) == OutputAddress(hs, t)
    ensures s == t
  {
    hide LockAddress;
    ScriptOfLock(s);
    ScriptOfLock(t);
    LockAddressIsInjective(hs, LockOf(s), LockOf(t));
  }

  /** The fixed texts are never the address of a recognised script, so the answer tells the script's kind. */
  lemma AnswersAreUnambiguous(hs: Hashes, script: seq<byte>)
    ensures var r := OutputAddress(hs, script);
      && (r == "OP_RETURN" <==> script != [] && script[0] == 0x6A)
      && (r == "Unknown" <==> !Recognised(script) && (script == [] || script[0] != 0x6A))
  {
    if Recognised(script) {
      ScriptOfLock(script);
      LockAddressStart(hs, LockOf(script));
    }
  }

  /** Decoding the address gives the condition back: always for witness programs and script hashes; for
      a public-key hash exactly unless it is all zero and the checksum starts with a zero byte too. */
  lemma OutputAddressDecodes(hs: Hashes, lock: Lock)
    requires lock.Standard()
    ensures var s := OutputAddress(hs, lock.Script());
      match lock
      case WitnessProgram(v, p) => Bech32Decoder.Decode(s) == Some(Bech32Decoder.Address("bc", v, p))
      case ScriptHash(h) => B58.Decode(s) == Some([0x05] + h + hs.sha256(hs.sha256([0x05] + h))[..4])
      case PubkeyHash(h) =>
        var checksum := hs.sha256(hs.sha256([0x00] + h))[..4];
        (B58.Decode(s) == Some([0x00] + h + checksum)) <==>
          ((exists i :: 0 <= i < |h| && h[i] != 0) || checksum[0] != 0)
  {
    hide B58.AddressOf, Bech32.AddressOf, B58.Decode, Bech32Decoder.Decode;
    LockOfScript(lock);
    match lock
    case WitnessProgram(v, p) => Bech32RoundTrip.DecodeEncode("bc", v, p);
    case ScriptHash(h) =>
      B58RoundTrip.RoundTrip(hs, [0x05], h);
      assert ([0x05] + h)[0] == 0x05;
    case PubkeyHash(h) =>
      B58RoundTrip.RoundTrip(hs, [0x00], h);
      var body: seq<byte> := [0x00] + h;
      assert forall i :: 0 <= i < |h| ==> body[i + 1] == h[i];
      assert forall i :: 0 < i < |body| ==> body[i] == h[i - 1];
  }

  // Locking and spending agree.

  function TwoPushes(sig: seq<byte>, pubkey: seq<byte>, rest: seq<byte>): seq<byte>
    requires |sig| < 256 && |pubkey| < 256
  {
    [|sig|] + sig + [|pubkey|] + pubkey + rest
  }

  /** An input that pushes a signature and a public key gets the address of the output it can spend. */
  lemma SpendingMatchesLocking(hs: Hashes, sig: seq<byte>, pubkey: seq<byte>, rest: seq<byte>)
    requires |sig| < 256 && |pubkey| < 256
    ensures InputAddress(hs, TwoPushes(sig, pubkey, rest))
      == OutputAddress(hs, [0x76, 0xA9, 0x14] + hs.ripemd160(hs.sha256(pubkey)) + [0x88, 0xAC])
  {
    hide B58.AddressOf, Bech32.AddressOf;
    var script := TwoPushes(sig, pubkey, rest);
    var start := |sig| + 1;
    assert script[start + 1..start + 1 + |pubkey|] == pubkey;
    LockOfScript(PubkeyHash(hs.Hash160(pubkey)));
  }

  /** The nested redeem push gets the address of the native script it wraps. */
  lemma NestedMatchesNative(hs: Hashes, h: seq<byte>)
    requires |h| == 20
    ensures InputAddress(hs, [0x16, 0x00, 0x14] + h) == OutputAddress(hs, [0x00, 0x14] + h)
  {
    hide B58.AddressOf, Bech32.AddressOf;
    assert ([0x16, 0x00, 0x14] + h)[3..] == h;
    LockOfScript(WitnessProgram(0, h));
  }

  /** The push of a native script for a public-key hash. */
  predicate NestedPush(script: seq<byte>, h: seq<byte>) { |h| == 20 && script == [0x16, 0x00, 0x14] + h }

  lemma RedeemIsPush(script: seq<byte>)
    ensures IsP2shP2wpkhRedeem(script) <==> exists h: seq<byte> :: NestedPush(script, h)
    ensures IsP2shP2wpkhRedeem(script) ==> NestedPush(script, script[3..])
  {
    if IsP2shP2wpkhRedeem(script) {
      assert script[..3] == [0x16, 0x00, 0x14] && script == script[..3] + script[3..];
      assert NestedPush(script, script[3..]);
    }
  }

  /** An input script is understood exactly when it is such a redeem push or starts with two pushes. */
  lemma InputUnderstood(hs: Hashes, script: seq<byte>)
    ensures InputAddress(hs, script) != "Unknown" <==>
      ((exists h: seq<byte> :: NestedPush(script, h)) || exists sig, pubkey, rest ::
        |sig| < 256 && |pubkey| < 256 && script == TwoPushes(sig, pubkey, rest))
  {
    hide B58.AddressOf, Bech32.AddressOf;
    RedeemIsPush(script);
    if IsP2shP2wpkhRedeem(script) {
      Bech32Start(0, script[3..]);
    } else {
      if InputAddress(hs, script) != UNKNOWN {
        var start: nat := 1 + script[0] as nat;
        var end: nat := start + script[start] + 1;
        var sig, pubkey, rest := script[1..start], script[start + 1..end], script[end..];
        assert script == TwoPushes(sig, pubkey, rest);
      }
      forall sig, pubkey, rest | |sig| < 256 && |pubkey| < 256 && script == TwoPushes(sig, pubkey, rest)
        ensures InputAddress(hs, script) != UNKNOWN
      {
        SpendingMatchesLocking(hs, sig, pubkey, rest);
        PubkeyAnswer(hs, pubkey);
      }
    }
  }

  lemma PubkeyAnswer(hs: Hashes, pubkey: seq<byte>)
    ensures OutputAddress(hs, [0x76, 0xA9, 0x14] + hs.ripemd160(hs.sha256(pubkey)) + [0x88, 0xAC]) != UNKNOWN
  {
    var lock := PubkeyHash(hs.ripemd160(hs.sha256(pubkey)));
    LockOfScript(lock);
    LockAddressStart(hs, lock);
  }

  // The answers over the bytes of the script.

  /** The five standard output scripts that name the hash or key h. */
  predicate Names(script: seq<byte>, h: seq<byte>) {
    || (|h| == 20 && script == [0x76, 0xA9, 0x14] + h + [0x88, 0xAC])
    || (|h| == 20 && script == [0xA9, 0x14] + h + [0x87])
    || (|h| == 20 && script == [0x00, 0x14] + h)
    || (|h| == 32 && script == [0x00, 0x20] + h)
    || (|h| == 32 && script == [0x51, 0x20] + h)
  }

  /** The text decodes to version byte, hash and double-hash checksum, unless all of it is zero up to and
      including the first byte of the checksum. */
  predicate DecodesToKeyHash(hs: Hashes, h: seq<byte>, r: string) {
    var checksum := hs.sha256(hs.sha256([0x00] + h))[..4];
    B58.Decode(r) == Some([0x00] + h + checksum) <==> (exists i :: 0 <= i < |h| && h[i] != 0) || checksum[0] != 0
  }

  /** What the answer for a script that names h decodes to; the first byte tells the kinds apart. */
  predicate DecodesTo(hs: Hashes, first: byte, h: seq<byte>, r: string) {
    if first == 0x76 then DecodesToKeyHash(hs, h, r)
    else if first == 0xA9 then B58.Decode(r) == Some([0x05] + h + hs.sha256(hs.sha256([0x05] + h))[..4])
    else Bech32Decoder.Decode(r) == Some(Bech32Decoder.Address("bc", if first == 0x00 then 0 else 1, h))
  }

  /** An address for the standard scripts, and then one that decodes to what the script names; a fixed text
      for the others. */
  ghost predicate OutputAnswered(hs: Hashes, script: seq<byte>, r: string) {
    && (r != "OP_RETURN" && r != "Unknown" <==> exists h: seq<byte> :: Names(script, h))
    && (r == "OP_RETURN" <==> script != [] && script[0] == 0x6A)
    && forall h: seq<byte> :: Names(script, h) ==> DecodesTo(hs, script[0], h, r)
  }

  lemma OutputAnswer(hs: Hashes, script: seq<byte>)
    ensures OutputAnswered(hs, script, OutputAddress(hs, script))
  {
    hide OutputAddress, DecodesTo;
    AnswersAreUnambiguous(hs, script);
    RecognisedIsNamed(script);
    forall h: seq<byte> | Names(script, h) ensures DecodesTo(hs, script[0], h, OutputAddress(hs, script)) {
      AnswerDecodes(hs, script, h);
    }
  }

  lemma RecognisedIsNamed(script: seq<byte>)
    ensures Recognised(script) <==> exists h: seq<byte> :: Names(script, h)
    ensures Recognised(script) ==> script[0] != 0x6A
  {
    if Recognised(script) {
      ScriptOfLock(script);
      var lock := LockOf(script);
      var h := match lock { case PubkeyHash(h) => h case ScriptHash(h) => h case WitnessProgram(_, p) => p };
      assert Names(script, h);
    }
    forall h: seq<byte> | Names(script, h) ensures Recognised(script) {
      var lock := NamedIsLock(script, h);
    }
  }

  lemma NamedIsLock(script: seq<byte>, h: seq<byte>) returns (lock: Lock)
    requires Names(script, h)
    ensures lock.Standard() && lock.Script() == script && Recognised(script)
    ensures lock == if script[0] == 0x76 then PubkeyHash(h)
      else if script[0] == 0xA9 then ScriptHash(h)
      else WitnessProgram(if script[0] == 0x00 then 0 else 1, h)
  {
    lock := if script[0] == 0x76 then PubkeyHash(h)
      else if script[0] == 0xA9 then ScriptHash(h)
      else WitnessProgram(if script[0] == 0x00 then 0 else 1, h);
    LockOfScript(lock);
  }

  lemma AnswerDecodes(hs: Hashes, script: seq<byte>, h: seq<byte>)
    requires Names(script, h)
    ensures DecodesTo(hs, script[0], h, OutputAddress(hs, script))
  {
    var lock := NamedIsLock(script, h);
    hide OutputAddress, B58.Decode, Bech32Decoder.Decode, Names;
    OutputAddressDecodes(hs, lock);
  }

  /** An address for the nested push and for scripts that start with two pushes, and then one that decodes
      to the pushed hash or to the hash of the pushed key. */
  ghost predicate InputAnswered(hs: Hashes, script: seq<byte>, r: string) {
    && (r != "Unknown" <==> ((exists h: seq<byte> :: NestedPush(script, h)) || exists sig, pubkey, rest ::
          |sig| < 256 && |pubkey| < 256 && script == TwoPushes(sig, pubkey, rest)))
    && (forall h: seq<byte> :: NestedPush(script, h)
          ==> Bech32Decoder.Decode(r) == Some(Bech32Decoder.Address("bc", 0, h)))
    && (forall sig, pubkey, rest :: |sig| < 256 && |pubkey| < 256 && script == TwoPushes(sig, pubkey, rest)
          ==> DecodesToKeyHash(hs, hs.ripemd160(hs.sha256(pubkey)), r))
  }

  lemma InputAnswer(hs: Hashes, script: seq<byte>)
    ensures InputAnswered(hs, script, InputAddress(hs, script))
  {
    hide InputAddress, OutputAddress, B58.Decode, Bech32Decoder.Decode, DecodesToKeyHash;
    InputUnderstood(hs, script);
    forall h: seq<byte> | NestedPush(script, h)
      ensures Bech32Decoder.Decode(InputAddress(hs, script)) == Some(Bech32Decoder.Address("bc", 0, h))
    {
      NestedMatchesNative(hs, h);
      AnswerDecodes(hs, [0x00, 0x14] + h, h);
    }
    forall sig, pubkey, rest | |sig| < 256 && |pubkey| < 256 && script == TwoPushes(sig, pubkey, rest)
      ensures DecodesToKeyHash(hs, hs.ripemd160(hs.sha256(pubkey)), InputAddress(hs, script))
    {
      SpendingMatchesLocking(hs, sig, pubkey, rest);
      var h := hs.ripemd160(hs.sha256(pubkey));
      AnswerDecodes(hs, [0x76, 0xA9, 0x14] + h + [0x88, 0xAC], h);
    }
  }
}
