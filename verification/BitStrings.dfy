/** Big-endian bit strings: the unbounded meaning of a sequence of fixed-width symbols. */
module BitStrings {
  import opened Common

  /** The low n bits of x, most significant first. */
  function BitsOf(x: nat, n: nat): (b: seq<bool>)
    ensures |b| == n
  {
    if n == 0 then [] else BitsOf(x / 2, n - 1) + [x % 2 == 1]
  }

  function ValueOf(b: seq<bool>): nat
  {
    if b == [] then 0 else 2 * ValueOf(b[..|b| - 1]) + (if b[|b| - 1] then 1 else 0)
  }

  /** The concatenation of the width-bit strings of all symbols. */
  function FlatBits(symbols: seq<nat>, width: nat): seq<bool> {
    if symbols == [] then [] else BitsOf(symbols[0], width) + FlatBits(symbols[1..], width)
  }

  function Zeros(n: nat): seq<bool> { seq(n, _ => false) }

  /** Cuts a bit string into big-endian groups of the given width; an incomplete last group is
      filled with zeros when pad is set and dropped otherwise. */
  function Groups(bits: seq<bool>, width: nat, pad: bool): (symbols: seq<nat>)
    requires width > 0
    decreases |bits|
  {
    if |bits| >= width then [ValueOf(bits[..width])] + Groups(bits[width..], width, pad)
    else if pad && bits != [] then [ValueOf(bits + Zeros(width - |bits|))]
    else []
  }

  predicate Fits(symbols: seq<nat>, width: nat) {
    forall i :: 0 <= i < |symbols| ==> symbols[i] < Pow2(width)
  }

  lemma {:induction false} ValueOfBitsOf(x: nat, n: nat)
    requires x < Pow2(n)
    ensures ValueOf(BitsOf(x, n)) == x
  {
    if n > 0 {
      ValueOfBitsOf(x / 2, n - 1);
      assert BitsOf(x, n)[..n - 1] == BitsOf(x / 2, n - 1);
    }
  }

  lemma {:induction false} BitsOfValueOf(b: seq<bool>)
    ensures ValueOf(b) < Pow2(|b|)
    ensures BitsOf(ValueOf(b), |b|) == b
  {
    if b != [] {
      BitsOfValueOf(b[..|b| - 1]);
    }
  }

  /** Bits above position n are invisible to BitsOf(_, n): this is why the wrap-around is harmless. */
  lemma {:induction false} HighBitsIgnored(a: nat, r: nat, m: nat, n: nat)
    requires n <= m
    ensures BitsOf(a * Pow2(m) + r, n) == BitsOf(r, n)
    decreases n
  {
    if n > 0 {
      var half := a * Pow2(m - 1);
      assert a * Pow2(m) == 2 * half;
      HighBitsIgnored(a, r / 2, m - 1, n - 1);
      assert (2 * half + r) / 2 == half + r / 2;
      assert (2 * half + r) % 2 == r % 2;
    }
  }

  lemma {:induction false} BitsOfShifted(a: nat, v: nat, n: nat, f: nat)
    requires v < Pow2(f)
    ensures BitsOf(a * Pow2(f) + v, n + f) == BitsOf(a, n) + BitsOf(v, f)
    decreases f
  {
    if f > 0 {
      var half := a * Pow2(f - 1);
      assert a * Pow2(f) == 2 * half;
      BitsOfShifted(a, v / 2, n, f - 1);
      assert (2 * half + v) / 2 == half + v / 2;
      assert n + f - 1 == n + (f - 1);
      assert (2 * half + v) % 2 == v % 2;
    } else {
      assert BitsOf(v, f) == [];
    }
  }

  lemma BitsOfMod(x: nat, m: nat, n: nat)
    requires n <= m
    ensures BitsOf(x % Pow2(m), n) == BitsOf(x, n)
  {
    var p := Pow2(m);
    DivMod(x, p);
    HighBitsIgnored(x / p, x % p, m, n);
  }

  lemma BitsOfSplit(x: nat, a: nat, v: nat, n: nat, k: nat)
    requires v < Pow2(k) && x == a * Pow2(k) + v
    ensures BitsOf(x, n + k) == BitsOf(a, n) + BitsOf(x, k)
  {
    BitsOfShifted(a, v, n, k);
    HighBitsIgnored(a, v, k, k);
  }

  lemma {:induction false} FlatBitsAppend(s: seq<nat>, t: seq<nat>, width: nat)
    ensures FlatBits(s + t, width) == FlatBits(s, width) + FlatBits(t, width)
  {
    if s == [] {
      assert s + t == t;
    } else {
      assert (s + t)[1..] == s[1..] + t;
      FlatBitsAppend(s[1..], t, width);
    }
  }

  lemma FlatBitsOne(x: nat, width: nat)
    ensures FlatBits([x], width) == BitsOf(x, width)
  {
    assert FlatBits([x], width) == BitsOf(x, width) + FlatBits([], width);
  }

  lemma {:induction false} FlatBitsLength(s: seq<nat>, width: nat)
    ensures |FlatBits(s, width)| == |s| * width
  {
    if s != [] {
      FlatBitsLength(s[1..], width);
      assert |s| * width == (|s| - 1) * width + width;
    }
  }

  /** Regrouping a flat bit string at the width it was built with gives the symbols back. */
  lemma {:induction false} GroupsOfFlatBits(symbols: seq<nat>, tail: seq<bool>, width: nat, pad: bool)
    requires width > 0 && |tail| < width
    requires Fits(symbols, width)
    ensures Groups(FlatBits(symbols, width) + tail, width, pad) == symbols + Groups(tail, width, pad)
  {
    if symbols == [] {
      assert FlatBits(symbols, width) + tail == tail;
      assert symbols + Groups(tail, width, pad) == Groups(tail, width, pad);
    } else {
      var head, rest := symbols[0], symbols[1..];
      var bits := FlatBits(symbols, width) + tail;
      assert bits == BitsOf(head, width) + (FlatBits(rest, width) + tail);
      assert bits[..width] == BitsOf(head, width);
      assert bits[width..] == FlatBits(rest, width) + tail;
      ValueOfBitsOf(head, width);
      GroupsOfFlatBits(rest, tail, width, pad);
      assert symbols == [head] + rest;
    }
  }

  /** Without padding the groups spell the bit string up to the incomplete group that was dropped. */
  lemma {:induction false} FlatBitsOfGroups(bits: seq<bool>, width: nat)
    requires width > 0
    ensures Fits(Groups(bits, width, false), width)
    ensures FlatBits(Groups(bits, width, false), width) <= bits
    ensures |bits| - width < |FlatBits(Groups(bits, width, false), width)|
    decreases |bits|
  {
    if |bits| >= width {
      var first, rest := bits[..width], bits[width..];
      FlatBitsOfGroups(rest, width);
      BitsOfValueOf(first);
      assert Groups(bits, width, false) == [ValueOf(first)] + Groups(rest, width, false);
    }
  }

  /** With padding they spell the whole bit string followed by fewer than width zeros. */
  lemma {:induction false} FlatBitsOfPaddedGroups(bits: seq<bool>, width: nat) returns (fill: nat)
    requires width > 0
    ensures Fits(Groups(bits, width, true), width)
    ensures fill < width
    ensures FlatBits(Groups(bits, width, true), width) == bits + Zeros(fill)
    decreases |bits|
  {
    if |bits| >= width {
      fill := FlatBitsOfPaddedGroups(bits[width..], width);
      WholeGroup(bits, width);
      assert bits[..width] + (bits[width..] + Zeros(fill)) == bits + Zeros(fill);
    } else {
      fill := if bits == [] then 0 else width - |bits|;
      LastGroup(bits, width);
      assert bits == [] ==> bits + Zeros(0) == [];
    }
  }

  lemma WholeGroup(bits: seq<bool>, width: nat)
    requires 0 < width <= |bits|
    ensures var rest := Groups(bits[width..], width, true);
      && Groups(bits, width, true) == [ValueOf(bits[..width])] + rest
      && ValueOf(bits[..width]) < Pow2(width)
      && FlatBits(Groups(bits, width, true), width) == bits[..width] + FlatBits(rest, width)
  {
    BitsOfValueOf(bits[..width]);
  }

  lemma LastGroup(bits: seq<bool>, width: nat)
    requires |bits| < width
    ensures Fits(Groups(bits, width, true), width)
    ensures FlatBits(Groups(bits, width, true), width)
         == if bits == [] then [] else bits + Zeros(width - |bits|)
  {
    if bits != [] {
      var full := bits + Zeros(width - |bits|);
      BitsOfValueOf(full);
      FlatBitsOne(ValueOf(full), width);
    }
  }
}
