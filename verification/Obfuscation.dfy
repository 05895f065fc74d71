/** XOR obfuscation of block files with an 8-byte key aligned to absolute file offsets. */
module Obfuscation {
  import opened Common
  import opened FileReader

  type Key = k: seq<byte> | |k| == 8 witness seq(8, _ => 0)

  function XorByte(a: byte, b: byte): byte {
    PowersOfTwo();
    BitXor(a, b, 8)
  }

  lemma XorByteTwice(a: byte, k: byte)
    ensures XorByte(XorByte(a, k), k) == a
  {
    PowersOfTwo();
    BitXorTwice(a, k, 8);
  }

  /** data, which starts at the given file offset, combined with the key byte of each offset. */
  function XorAt(data: seq<byte>, offset: nat, key: Key): (r: seq<byte>)
    ensures |r| == |data|
  {
    seq(|data|, i requires 0 <= i < |data| => XorByte(data[i], key[(offset + i) % 8]))
  }

  /** The bits of combined bytes: a bit is set if and only if it is set in exactly one of the two, the
      byte and the key byte of its absolute offset. */
  ghost predicate BitsCombined(combined: seq<byte>, data: seq<byte>, offset: nat, key: Key) {
    && |combined| == |data|
    && forall i: nat, j: nat :: i < |data| && j < 8 ==>
         ((combined[i] / Pow2(j)) % 2 == 1 <==> (data[i] / Pow2(j)) % 2 != (key[(offset + i) % 8] / Pow2(j)) % 2)
  }

  lemma XorAtBits(data: seq<byte>, offset: nat, key: Key)
    ensures BitsCombined(XorAt(data, offset, key), data, offset, key)
  {
    hide BitXor, Pow2;
    forall i: nat, j: nat | i < |data| && j < 8
      ensures (XorAt(data, offset, key)[i] / Pow2(j)) % 2 == 1 <==>
        (data[i] / Pow2(j)) % 2 != (key[(offset + i) % 8] / Pow2(j)) % 2
    {
      BitXorBit(data[i], key[(offset + i) % 8], 8, j);
    }
  }

  /** What the reader lets its callers see of a file. */
  function View(contents: Contents, key: Option<Key>): (v: Contents)
    ensures |v| == |contents|
  {
    if key.None? then contents else XorAt(contents, 0, key.value)
  }

  /** Bit j of byte i of the view: that of the file, inverted where bit j of key byte i mod 8 is set. */
  lemma ViewBits(contents: Contents, key: Option<Key>, i: nat, j: nat)
    requires i < |contents| && j < 8
    ensures (View(contents, key)[i] / Pow2(j)) % 2 == 1 <==>
      if key.None? then (contents[i] / Pow2(j)) % 2 == 1
      else (contents[i] / Pow2(j)) % 2 != (key.value[i % 8] / Pow2(j)) % 2
  {
    if key.Some? {
      hide XorAt, Pow2;
      XorAtBits(contents, 0, key.value);
    }
  }

  function Obfuscate(plain: Contents, key: Key): (c: Contents)
    ensures |c| == |plain|
  {
    XorAt(plain, 0, key)
  }

  lemma ViewOfObfuscated(plain: Contents, key: Key)
    ensures View(Obfuscate(plain, key), Some(key)) == plain
  {
    hide XorByte;
    forall i | 0 <= i < |plain|
      ensures XorByte(XorByte(plain[i], key[(0 + i) % 8]), key[(0 + i) % 8]) == plain[i]
    {
      XorByteTwice(plain[i], key[(0 + i) % 8]);
    }
  }

  /** De-obfuscating a slice with the offset it was read at is slicing the de-obfuscated file. */
  lemma XorOfSlice(contents: seq<byte>, key: Key, from: nat, to: nat)
    requires from <= to <= |contents|
    ensures XorAt(contents[from..to], from, key) == XorAt(contents, 0, key)[from..to]
  {
    hide XorByte;
  }
}
