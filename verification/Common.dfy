/** Shared vocabulary: bytes, results and the arithmetic reading of the machine operations. */
module Common {

  type byte = x: int | 0 <= x < 256

  datatype Option<+T> = None | Some(value: T)

  /** The error codes that the parsing code can return. */
  datatype ErrorCode =
    | FileError
    | FileReadingFailure
    | BlockParsingFailure
    | BlockWrongMagic
    | EmptyBlockSize
    | TooLargeBlockSize
    | IntegerConversionFailure
    | XorObfuscationFailure
    | RuntimeException

  /** std::expected<T, AppErrorCode>; `:-` plays the part of RETURN_IF_UNEXPECTED. */
  datatype Result<+T> = Ok(value: T) | Err(error: ErrorCode) {
    predicate IsFailure() { Err? }

    function PropagateFailure<U>(): Result<U>
      requires Err?
    {
      Err(error)
    }

    function Extract(): T
      requires Ok?
    {
      value
    }
  }

  /** std::reverse and std::reverse_copy. */
  function Reverse<T>(s: seq<T>): (r: seq<T>)
    ensures |r| == |s|
    ensures forall i :: 0 <= i < |s| ==> r[i] == s[|s| - 1 - i]
  {
    seq(|s|, i requires 0 <= i < |s| => s[|s| - 1 - i])
  }

  lemma ReverseTwice<T>(s: seq<T>)
    ensures Reverse(Reverse(s)) == s
  {
  }

  function Pow2(n: nat): (p: nat)
    ensures p > 0
  {
    if n == 0 then 1 else 2 * Pow2(n - 1)
  }

  function Pow256(n: nat): (p: nat)
    ensures p > 0
  {
    if n == 0 then 1 else 256 * Pow256(n - 1)
  }

  lemma {:induction false} Pow2Adds(a: nat, b: nat)
    ensures Pow2(a + b) == Pow2(a) * Pow2(b)
  {
    if b > 0 {
      Pow2Adds(a, b - 1);
      assert a + b - 1 == a + (b - 1);
      assert Pow2(a) * (2 * Pow2(b - 1)) == 2 * (Pow2(a) * Pow2(b - 1));
    }
  }

  lemma DivMod(x: nat, p: nat)
    requires p > 0
    ensures x / p >= 0 && 0 <= x % p < p && x == (x / p) * p + x % p
  {
  }

  /** Bitwise "or" of two unbounded words. */
  function BitOr(a: nat, b: nat): nat
    decreases a + b
  {
    if a == 0 && b == 0 then 0
    else (if a % 2 == 1 || b % 2 == 1 then 1 else 0) + 2 * BitOr(a / 2, b / 2)
  }

  lemma BitOrCommutes(a: nat, b: nat)
    ensures BitOr(a, b) == BitOr(b, a)
    decreases a + b
  {
  }

  lemma {:induction false} BitOrZero(a: nat)
    ensures BitOr(a, 0) == a
  {
    if a > 0 {
      BitOrZero(a / 2);
    }
  }

  /** A word shifted left by f has f low zero bits, so "or"-ing a value below 2^f into it adds that value. */
  lemma {:induction false} BitOrDisjoint(a: nat, v: nat, f: nat)
    requires v < Pow2(f)
    ensures BitOr(a * Pow2(f), v) == a * Pow2(f) + v
    decreases f
  {
    if f == 0 {
      BitOrZero(a);
    } else {
      var high := a * Pow2(f - 1);
      assert a * Pow2(f) == 2 * high;
      BitOrDisjoint(a, v / 2, f - 1);
      assert (2 * high) / 2 == high && (2 * high) % 2 == 0;
    }
  }

  /** Bitwise "exclusive or" of the low n bits of two words. */
  function BitXor(a: nat, b: nat, n: nat): (x: nat)
    ensures x < Pow2(n)
  {
    if n == 0 then 0 else (a % 2 + b % 2) % 2 + 2 * BitXor(a / 2, b / 2, n - 1)
  }

  lemma {:induction false} BitXorTwice(a: nat, k: nat, n: nat)
    requires a < Pow2(n)
    ensures BitXor(BitXor(a, k, n), k, n) == a
  {
    hide BitXor;
    if n == 0 {
      NoBits(BitXor(a, k, n), k);
    } else {
      var x := BitXor(a, k, n);
      BitXorHalves(a, k, n);
      BitXorHalves(x, k, n);
      BitXorTwice(a / 2, k / 2, n - 1);
      FlippedTwice(a % 2, k % 2);
      SameHalves(BitXor(x, k, n), a);
    }
  }

  /** Each of the n bits is set if and only if it is set in exactly one of the two words. */
  lemma {:induction false} BitXorBit(a: nat, b: nat, n: nat, j: nat)
    requires j < n
    ensures (BitXor(a, b, n) / Pow2(j)) % 2 == 1 <==> (a / Pow2(j)) % 2 != (b / Pow2(j)) % 2
    decreases n
  {
    hide BitXor;
    BitXorHalves(a, b, n);
    if j == 0 {
      assert Pow2(0) == 1;
    } else {
      hide Pow2;
      BitXorBit(a / 2, b / 2, n - 1, j - 1);
      NextBit(BitXor(a, b, n), j);
      NextBit(a, j);
      NextBit(b, j);
    }
  }

  lemma NextBit(x: nat, j: nat)
    requires j > 0
    ensures x / Pow2(j) == (x / 2) / Pow2(j - 1)
  {
    HalfFirst(x, Pow2(j - 1));
  }

  lemma HalfFirst(x: nat, p: nat)
    requires p > 0
    ensures x / (2 * p) == (x / 2) / p
  {
    var q, r := x / (2 * p), x % (2 * p);
    DivMod(x, 2 * p);
    assert x == 2 * (q * p) + r;
    assert x / 2 == q * p + r / 2;
    QuotientIs(x / 2, q, r / 2, p);
  }

  lemma QuotientIs(x: nat, q: nat, r: nat, p: nat)
    requires r < p && x == q * p + r
    ensures x / p == q
  {
    DivMod(x, p);
    QuotientGap(q, x / p, p);
    QuotientGap(x / p, q, p);
  }

  lemma QuotientGap(small: nat, large: nat, p: nat)
    ensures small < large ==> large * p >= small * p + p
  {
    if small < large {
      var gap := large - small - 1;
      assert gap * p >= 0;
      assert (small + 1 + gap) * p == small * p + p + gap * p;
    }
  }

  lemma NoBits(a: nat, k: nat)
    ensures BitXor(a, k, 0) == 0
  {
  }

  lemma BitXorHalves(a: nat, k: nat, n: nat)
    requires n > 0
    ensures BitXor(a, k, n) % 2 == (a % 2 + k % 2) % 2
    ensures BitXor(a, k, n) / 2 == BitXor(a / 2, k / 2, n - 1)
  {
    hide Pow2;
    LowBit((a % 2 + k % 2) % 2, BitXor(a / 2, k / 2, n - 1));
  }

  lemma LowBit(bit: nat, rest: nat)
    requires bit < 2
    ensures (bit + 2 * rest) % 2 == bit && (bit + 2 * rest) / 2 == rest
  {
  }

  lemma FlippedTwice(bit: nat, flip: nat)
    requires bit < 2 && flip < 2
    ensures ((bit + flip) % 2 + flip) % 2 == bit
  {
  }

  lemma SameHalves(a: nat, b: nat)
    requires a % 2 == b % 2 && a / 2 == b / 2
    ensures a == b
  {
  }

  lemma PowersOfTwo()
    ensures Pow2(5) == 32 && Pow2(8) == 256
  {
    assert Pow2(2) == 4 && Pow2(4) == 16 && Pow2(6) == 64;
  }
}
