/** The standard output scripts and their byte patterns. */
module ScriptTemplates {
  import opened Common

  const OP_0: byte := 0x00
  const OP_1: byte := 0x51
  const OP_DUP: byte := 0x76
  const OP_HASH160: byte := 0xA9
  const OP_EQUAL: byte := 0x87
  const OP_EQUALVERIFY: byte := 0x88
  const OP_CHECKSIG: byte := 0xAC
  const OP_RETURN: byte := 0x6A
  const PUSH_20: byte := 0x14
  const PUSH_22: byte := 0x16
  const PUSH_32: byte := 0x20

  predicate IsP2PKH(script: seq<byte>) {
    && |script| == 25
    && script[0] == OP_DUP
    && script[1] == OP_HASH160
    && script[2] == PUSH_20
    && script[23] == OP_EQUALVERIFY
    && script[24] == OP_CHECKSIG
  }

  predicate IsP2SH(script: seq<byte>) {
    && |script| == 23
    && script[0] == OP_HASH160
    && script[1] == PUSH_20
    && script[22] == OP_EQUAL
  }

  predicate IsP2WPKH(script: seq<byte>) {
    && |script| == 22
    && script[0] == OP_0
    && script[1] == PUSH_20
  }

  predicate IsP2WSH(script: seq<byte>) {
    && |script| == 34
    && script[0] == OP_0
    && script[1] == PUSH_32
  }

  predicate IsTaproot(script: seq<byte>) {
    && |script| == 34
    && script[0] == OP_1
    && script[1] == PUSH_32
  }

  predicate IsP2shP2wpkhRedeem(script: seq<byte>) {
    && |script| == 23
    && script[0] == PUSH_22
    && script[1] == OP_0
    && script[2] == PUSH_20
  }

  /** A locking condition: what a standard output script says. */
  datatype Lock =
    | PubkeyHash(hash: seq<byte>)
    | ScriptHash(hash: seq<byte>)
    | WitnessProgram(version: nat, program: seq<byte>)
  {
    predicate Standard() {
      match this
      case PubkeyHash(h) => |h| == 20
      case ScriptHash(h) => |h| == 20
      case WitnessProgram(v, p) => (v == 0 && |p| == 20) || (v == 0 && |p| == 32) || (v == 1 && |p| == 32)
    }

    /** The output script that expresses the condition, byte by byte. */
    function Script(): seq<byte>
      requires Standard()
    {
      match this
      case PubkeyHash(h) => [0x76, 0xA9, 0x14] + h + [0x88, 0xAC]
      case ScriptHash(h) => [0xA9, 0x14] + h + [0x87]
      case WitnessProgram(v, p) => [if v == 0 then 0x00 else 0x51, if |p| == 20 then 0x14 else 0x20] + p
    }
  }

  predicate Recognised(script: seq<byte>) {
    IsP2PKH(script) || IsP2SH(script) || IsP2WPKH(script) || IsP2WSH(script) || IsTaproot(script)
  }

  function LockOf(script: seq<byte>): Lock
    requires Recognised(script)
  {
    if IsP2PKH(script) then PubkeyHash(script[3..23])
    else if IsP2SH(script) then ScriptHash(script[2..22])
    else WitnessProgram(if IsTaproot(script) then 1 else 0, script[2..])
  }

  /** The patterns recognise exactly the scripts of the standard conditions, and each script says one thing. */
  lemma PatternsAreExact(script: seq<byte>)
    ensures Recognised(script) ==> LockOf(script).Standard() && LockOf(script).Script() == script
    ensures Recognised(script) <==> exists lock: Lock :: lock.Standard() && lock.Script() == script
  {
    if Recognised(script) {
      ScriptOfLock(script);
    }
    forall lock: Lock | lock.Standard() && lock.Script() == script ensures Recognised(script) {
      LockOfScript(lock);
    }
  }

  lemma ScriptOfLock(script: seq<byte>)
    requires Recognised(script)
    ensures LockOf(script).Standard() && LockOf(script).Script() == script
  {
    if IsP2PKH(script) {
      CutInThree(script, 3, 23);
      assert script[..3] == [0x76, 0xA9, 0x14] && script[23..] == [0x88, 0xAC];
    } else if IsP2SH(script) {
      CutInThree(script, 2, 22);
      assert script[..2] == [0xA9, 0x14] && script[22..] == [0x87];
    } else {
      CutInThree(script, 2, |script|);
      assert script[..2] == [script[0], script[1]] && script[2..|script|] == script[2..];
    }
  }

  lemma CutInThree(s: seq<byte>, i: nat, j: nat)
    requires i <= j <= |s|
    ensures s == s[..i] + s[i..j] + s[j..]
  {
  }

  lemma LockOfScript(lock: Lock)
    requires lock.Standard()
    ensures Recognised(lock.Script()) && LockOf(lock.Script()) == lock
  {
    var s := lock.Script();
    match lock
    case PubkeyHash(h) => assert s[3..23] == h;
    case ScriptHash(h) => assert s[2..22] == h;
    case WitnessProgram(v, p) => assert s[2..] == p;
  }
}
