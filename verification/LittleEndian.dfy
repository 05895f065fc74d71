/** Little-endian numbers, and the shift-and-or loops that assemble them. */
module LittleEndian {
  import opened Common

  function LeValue(bytes: seq<byte>): nat {
    if bytes == [] then 0 else bytes[0] + 256 * LeValue(bytes[1..])
  }

  function LeBytes(n: nat, width: nat): (b: seq<byte>)
    ensures |b| == width
  {
    if width == 0 then [] else [n % 256] + LeBytes(n / 256, width - 1)
  }

  lemma {:induction false} LeValueOfBytes(n: nat, width: nat)
    requires n < Pow256(width)
    ensures LeValue(LeBytes(n, width)) == n
  {
    if width > 0 {
      LeValueOfBytes(n / 256, width - 1);
      assert LeBytes(n, width)[1..] == LeBytes(n / 256, width - 1);
    }
  }

  lemma {:induction false} LeBytesOfValue(bytes: seq<byte>)
    ensures LeValue(bytes) < Pow256(|bytes|)
    ensures LeBytes(LeValue(bytes), |bytes|) == bytes
  {
    if bytes != [] {
      LeBytesOfValue(bytes[1..]);
      assert LeValue(bytes) % 256 == bytes[0] && LeValue(bytes) / 256 == LeValue(bytes[1..]);
    }
  }

  lemma Widths()
    ensures Pow256(2) == 0x1_0000 && Pow256(4) == 0x1_0000_0000 && Pow256(8) == 0x1_0000_0000_0000_0000
  {
    assert Pow256(6) == 0x1_0000_0000_0000;
  }

  /** Shifting by whole bytes is multiplying by powers of 256. */
  lemma {:induction false} ByteShift(n: nat)
    ensures Pow2(8 * n) == Pow256(n)
  {
    if n > 0 {
      ByteShift(n - 1);
      Pow2Adds(8 * (n - 1), 8);
      assert 8 * (n - 1) + 8 == 8 * n;
      PowersOfTwo();
    }
  }

  lemma {:induction false} LeValueAppend(bytes: seq<byte>, b: byte)
    ensures LeValue(bytes + [b]) == LeValue(bytes) + b * Pow256(|bytes|)
  {
    if bytes == [] {
      assert [b][1..] == [];
    } else {
      var rest := bytes[1..];
      assert (bytes + [b])[1..] == rest + [b];
      LeValueAppend(rest, b);
      assert b * Pow256(|bytes|) == 256 * (b * Pow256(|rest|));
    }
  }

  /** leUint8ToUint16, leUint8ToUint32 and leUint8ToUint64 are this loop for 2, 4 and 8 bytes. */
  method LeUint8ToUint(input: seq<byte>, outBytes: nat) returns (ok: bool, out: nat)
    ensures ok <==> |input| == outBytes
    ensures ok ==> out == LeValue(input) && out < Pow256(outBytes)
  {
    ok, out := false, 0;
    if |input| != outBytes {
      return;
    }
    hide BitOr, LeValue, Pow2, Pow256;
    NoBytes();
    for i := 0 to outBytes
      invariant out == LeValue(input[..i])
    {
      var shift := i * 8;
      var newByte := input[i] * Pow2(shift);
      NextByte(input, i, shift);
      out := BitOr(out, newByte);
    }
    assert input[..outBytes] == input;
    LeBytesOfValue(input);
    ok := true;
  }

  lemma NoBytes()
    ensures LeValue([]) == 0
  {
  }

  /** The bits of byte i are free in the value of the bytes before it. */
  lemma NextByte(input: seq<byte>, i: nat, shift: nat)
    requires i < |input| && shift == i * 8
    ensures BitOr(LeValue(input[..i]), input[i] * Pow2(shift)) == LeValue(input[..i + 1])
  {
    hide BitOr, LeValue, Pow2, Pow256;
    var out := LeValue(input[..i]);
    assert input[..i + 1] == input[..i] + [input[i]];
    LeValueAppend(input[..i], input[i]);
    LeBytesOfValue(input[..i]);
    ByteShift(i);
    assert shift == 8 * i;
    BitOrDisjoint(input[i], out, shift);
    BitOrCommutes(out, input[i] * Pow2(shift));
  }

  /** The two's complement reading of a 32-bit word. */
  function ToInt32(n: nat): int { if n < 0x8000_0000 then n else n - 0x1_0000_0000 }

  function FromInt32(x: int): nat
    requires -0x8000_0000 <= x < 0x8000_0000
  {
    if x >= 0 then x else x + 0x1_0000_0000
  }

  /** The four bytes of a 32-bit integer; nothing for a number that is not one. */
  function Int32Bytes(x: int): seq<byte> {
    if -0x8000_0000 <= x < 0x8000_0000 then LeBytes(FromInt32(x), 4) else []
  }

  method LeUint8ToInt32(input: seq<byte>) returns (ok: bool, out: int)
    ensures ok <==> |input| == 4
    ensures ok ==> -0x8000_0000 <= out < 0x8000_0000 && FromInt32(out) == LeValue(input)
    ensures ok ==> out == ToInt32(LeValue(input))
  {
    var converted, tmp := LeUint8ToUint(input, 4);
    ok, out := converted, 0;
    if converted {
      Widths();
      out := ToInt32(tmp);
    }
  }
}
