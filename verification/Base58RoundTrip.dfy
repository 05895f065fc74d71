/** What a Base58Check address says: when it decodes, when two agree, and what it looks like. */
module Base58RoundTrip {
  import opened Common
  import opened Hashing
  import opened Base58
  import opened Base58Check

  // Text.

  lemma {:induction false} WrittenValue(digits: seq<nat>)
    requires Canonical(digits)
    ensures ValueOfText(Written(digits)) == Value58(digits)
    ensures forall i :: 0 <= i < |digits| ==> CodeOf(Written(digits)[i]) < 58
  {
    hide CodeOf, DigitChar;
    if digits != [] {
      var s := Written(digits);
      var n := |s| - 1;
      assert s[..n] == Written(digits[1..]);
      WrittenValue(digits[1..]);
      DigitCharDecodes(digits[0]);
      forall i | 0 <= i < |digits| ensures CodeOf(s[i]) < 58 {
        DigitCharDecodes(digits[|digits| - 1 - i]);
      }
    }
  }

  lemma {:induction false} LeadingOnesFound(zeros: nat, rest: string)
    requires rest == [] || rest[0] != '1'
    ensures LeadingOnes(Ones(zeros) + rest) == zeros
  {
    var s := Ones(zeros) + rest;
    if zeros == 0 {
      assert s == rest;
    } else {
      assert s[1..] == Ones(zeros - 1) + rest;
      LeadingOnesFound(zeros - 1, rest);
    }
  }

  lemma TextParts(zeros: nat, value: nat)
    ensures var s := TextOf(zeros, value);
      && LeadingOnes(s) == zeros
      && ValueOfText(s[zeros..]) == value
      && forall i :: 0 <= i < |s| ==> CodeOf(s[i]) < 58
  {
    hide CodeOf, DigitChar;
    var digits := Digits58(value);
    Digits58Spell(value);
    WrittenValue(digits);
    var w := Written(digits);
    if digits != [] {
      DigitCharDecodes(digits[|digits| - 1]);
      OneIsZero();
    }
    LeadingOnesFound(zeros, w);
    var s := TextOf(zeros, value);
    assert s[zeros..] == w;
    OneIsZero();
    forall i | 0 <= i < |s| ensures CodeOf(s[i]) < 58 {
      assert i >= zeros ==> s[i] == w[i - zeros];
    }
  }

  lemma OneIsZero()
    ensures CodeOf('1') == 0
  {
  }

  /** The text determines both the count of leading zeros and the number. */
  lemma TextIsInjective(z1: nat, n1: nat, z2: nat, n2: nat)
    requires TextOf(z1, n1) == TextOf(z2, n2)
    ensures z1 == z2 && n1 == n2
  {
    TextParts(z1, n1);
    TextParts(z2, n2);
  }

  // Bytes.

  lemma {:induction false} LeadingZerosAre(bytes: seq<byte>, n: nat)
    requires n <= |bytes| && (forall i :: 0 <= i < n ==> bytes[i] == 0)
    requires n < |bytes| ==> bytes[n] != 0
    ensures LeadingZeros(bytes) == n
  {
    if n > 0 {
      LeadingZerosAre(bytes[1..], n - 1);
    }
  }

  lemma LeadingZerosAppend(front: seq<byte>, last: byte)
    ensures LeadingZeros(front + [last]) ==
      if LeadingZeros(front) < |front| then LeadingZeros(front) else if last == 0 then |front| + 1 else |front|
  {
    var z := LeadingZeros(front);
    LeadingZerosAre(front + [last], if z < |front| then z else if last == 0 then |front| + 1 else |front|);
  }

  /** Minimal bytes behind the leading zero bytes give the byte sequence back. */
  lemma {:induction false} BytesOfValue(bytes: seq<byte>)
    ensures bytes == ZeroBytes(LeadingZeros(bytes)) + Bytes256(Value256(bytes))
    ensures Value256(bytes) == 0 <==> LeadingZeros(bytes) == |bytes|
  {
    hide LeadingZeros;
    if bytes != [] {
      var front, last := bytes[..|bytes| - 1], bytes[|bytes| - 1];
      assert bytes == front + [last];
      BytesOfValue(front);
      LeadingZerosAppend(front, last);
    }
  }

  lemma {:induction false} Value256IsInjective(a: seq<byte>, b: seq<byte>)
    requires |a| == |b| && Value256(a) == Value256(b)
    ensures a == b
  {
    if a != [] {
      var n := |a| - 1;
      Value256IsInjective(a[..n], b[..n]);
      assert a == a[..n] + [a[n]] && b == b[..n] + [b[n]];
    }
  }

  // Round trip.

  lemma DecodedAddress(hs: Hashes, version: seq<byte>, payload: seq<byte>)
    ensures var body := version + payload;
      Decode(AddressOf(hs, version, payload))
        == Some(ZeroBytes(LeadingZeros(body)) + Bytes256(Value256(body + ChecksumBytes(hs, body))))
  {
    hide LeadingOnes, CodeOf, ChecksumBytes, ValueOfText, TextOf;
    var body := version + payload;
    TextParts(LeadingZeros(body), Value256(body + ChecksumBytes(hs, body)));
  }

  lemma ChecksumIsDoubleHash(hs: Hashes, body: seq<byte>)
    ensures ChecksumBytes(hs, body) == hs.sha256(hs.sha256(body))[..4]
  {
  }

  /** The decoder recovers version ‖ payload ‖ checksum, zero bytes included, exactly when
      version ‖ payload is not all zero or the first checksum byte is not zero. */
  lemma RoundTrip(hs: Hashes, version: seq<byte>, payload: seq<byte>)
    ensures var body := version + payload;
      var checksum := hs.sha256(hs.sha256(body))[..4];
      (Decode(AddressOf(hs, version, payload)) == Some(body + checksum))
        <==> ((exists i :: 0 <= i < |body| && body[i] != 0) || checksum[0] != 0)
  {
    var body := version + payload;
    var checksum := ChecksumBytes(hs, body);
    ChecksumIsDoubleHash(hs, body);
    var full := body + checksum;
    DecodedAddress(hs, version, payload);
    hide ChecksumBytes, Decode, AddressOf;
    BytesOfValue(full);
    var z := LeadingZeros(body);
    if z < |body| {
      assert body[z] != 0;
      LeadingZerosAre(full, z);
    } else {
      assert full[|body|] == checksum[0];
      if checksum[0] != 0 {
        LeadingZerosAre(full, z);
      } else {
        var minimal := Bytes256(Value256(full));
        assert LeadingZeros(full) > z;
        assert |ZeroBytes(z) + minimal| < |full|;
      }
    }
  }

  /** The exception occurs for the all-zero public-key hash, if the hash functions are such that its
      checksum starts with a zero byte: the address does not give its bytes back. */
  lemma RoundTripCanFail(digest: Digest32, other: Digest20)
    requires digest[0] == 0
    ensures var hs, hash := Hashes(_ => digest, _ => other), ZeroBytes(20);
      Decode(AddressOf(hs, [0], hash)) != Some([0] + hash + hs.sha256(hs.sha256([0] + hash))[..4])
  {
    hide Decode, AddressOf;
    var hs, hash := Hashes(_ => digest, _ => other), ZeroBytes(20);
    RoundTrip(hs, [0], hash);
    assert hs.sha256(hs.sha256([0] + hash))[..4][0] == digest[0];
  }

  /** At a fixed byte length the encoding is injective, whatever the hash function. */
  lemma AddressIsInjective(hs: Hashes, v1: seq<byte>, p1: seq<byte>, v2: seq<byte>, p2: seq<byte>)
    requires |v1 + p1| == |v2 + p2|
    requires AddressOf(hs, v1, p1) == AddressOf(hs, v2, p2)
    ensures v1 + p1 == v2 + p2
  {
    var b1, b2 := v1 + p1, v2 + p2;
    var f1, f2 := b1 + ChecksumBytes(hs, b1), b2 + ChecksumBytes(hs, b2);
    hide ChecksumBytes, TextOf, LeadingZeros;
    TextIsInjective(LeadingZeros(b1), Value256(f1), LeadingZeros(b2), Value256(f2));
    Value256IsInjective(f1, f2);
    assert b1 == f1[..|b1|] && b2 == f2[..|b2|];
  }

  // Shape.

  function Pow58(k: nat): (p: nat)
    ensures p > 0
  {
    if k == 0 then 1 else 58 * Pow58(k - 1)
  }

  lemma DigitDropped(n: nat, low: nat, high: nat)
    requires 58 * low <= n < 58 * high
    ensures low <= n / 58 < high
  {
  }

  lemma {:induction false} TopDigit(n: nat, k: nat, t: nat)
    requires 0 < t < 58 && t * Pow58(k) <= n < (t + 1) * Pow58(k)
    ensures |Digits58(n)| == k + 1 && Digits58(n)[k] == t
  {
    if k == 0 {
      assert n == t && n / 58 == 0;
    } else {
      var p := Pow58(k - 1);
      NextPower(t, p, Pow58(k), 58);
      assert t * p > 0;
      hide Pow58;
      DigitDropped(n, t * p, (t + 1) * p);
      TopDigit(n / 58, k - 1, t);
    }
  }

  lemma {:induction false} DigitCount(n: nat, k: nat)
    requires n < Pow58(k)
    ensures |Digits58(n)| <= k
  {
    if n > 0 {
      DigitCount(n / 58, k - 1);
    }
  }

  lemma {:induction false} ValueRange(first: byte, rest: seq<byte>)
    ensures first * Pow256(|rest|) <= Value256([first] + rest) < (first + 1) * Pow256(|rest|)
  {
    var all := [first] + rest;
    if rest == [] {
      assert all[..0] == [];
    } else {
      var front := rest[..|rest| - 1];
      ValueRange(first, front);
      assert all[..|all| - 1] == [first] + front;
      NextPower(first, Pow256(|front|), Pow256(|rest|), 256);
      Bounded(first * Pow256(|front|), Value256([first] + front), (first + 1) * Pow256(|front|), rest[|rest| - 1]);
    }
  }

  lemma NextPower(first: nat, p: nat, next: nat, base: nat)
    requires next == base * p
    ensures first * next == base * (first * p) && (first + 1) * next == base * ((first + 1) * p)
  {
  }

  lemma Bounded(low: nat, n: nat, high: nat, b: byte)
    requires low <= n < high
    ensures 256 * low <= 256 * n + b < 256 * high
  {
  }

  lemma {:induction false} ValueBehindZeros(bytes: seq<byte>, z: nat)
    requires z <= |bytes| && (forall i :: 0 <= i < z ==> bytes[i] == 0)
    ensures Value256(bytes) < Pow256(|bytes| - z)
  {
    if z == |bytes| {
      if z > 0 {
        ValueBehindZeros(bytes[..z - 1], z - 1);
      }
    } else {
      ValueBehindZeros(bytes[..|bytes| - 1], z);
    }
  }

  lemma PowersCompared()
    ensures 2 * Pow58(33) <= 5 * Pow256(24)
    ensures 6 * Pow256(24) <= 3 * Pow58(33)
    ensures Pow256(24) <= Pow58(33)
  {
    assert Pow256(8) == 18446744073709551616;
    assert Pow256(16) == 340282366920938463463374607431768211456;
    assert Pow256(24) == 6277101735386680763835789423207666416102355444464034512896;
    assert Pow58(8) == 128063081718016;
    assert Pow58(16) == 16400152899115243850138976256;
    assert Pow58(24) == 2100254120907352485526230505830591911428096;
    assert Pow58(32) == 268965015114358137726910587140455987105619365599731777536;
    assert Pow58(33) == 15599970876632771988160814054146447252125923204784443097088;
  }

  lemma {:induction false} ShorterPowersCompared(j: nat)
    requires j <= 24
    ensures Pow256(24 - j) <= Pow58(33 - j)
  {
    hide Pow256, Pow58;
    if j == 0 {
      PowersCompared();
    } else {
      ShorterPowersCompared(j - 1);
      PowerSteps(24 - j, 33 - j);
    }
  }

  lemma PowerSteps(j: nat, k: nat)
    ensures Pow256(j + 1) == 256 * Pow256(j) && Pow58(k + 1) == 58 * Pow58(k)
  {
  }

  lemma DigitTwoIsWrittenThree()
    ensures DigitChar(2) == '3'
  {
  }

  /** Every address with version 5 of a 20-byte payload has 34 characters, the first of them '3'. */
  lemma P2shAddressShape(hs: Hashes, payload: seq<byte>)
    requires |payload| == 20
    ensures var s := AddressOf(hs, [5], payload);
      |s| == 34 && s[0] == '3'
  {
    hide ChecksumBytes, Digits58, Value256, Pow58, Pow256;
    var body: seq<byte> := [5] + payload;
    var rest := payload + ChecksumBytes(hs, body);
    assert body + ChecksumBytes(hs, body) == [5] + rest;
    ValueRange(5, rest);
    PowersCompared();
    var value := Value256([5] + rest);
    TopDigit(value, 33, 2);
    Digits58Spell(value);
    LeadingZerosAre(body, 0);
    assert Written(Digits58(value))[0] == DigitChar(2);
    DigitTwoIsWrittenThree();
    assert AddressOf(hs, [5], payload) == Ones(0) + Written(Digits58(value));
  }

  /** Every address with version 0 of a 20-byte payload starts with '1' and has at most 34 characters. */
  lemma P2pkhAddressShape(hs: Hashes, payload: seq<byte>)
    requires |payload| == 20
    ensures var s := AddressOf(hs, [0], payload);
      1 <= |s| <= 34 && s[0] == '1'
  {
    hide ChecksumBytes, Digits58, Value256, Pow58, Pow256;
    var body: seq<byte> := [0] + payload;
    var full := body + ChecksumBytes(hs, body);
    var z := LeadingZeros(body);
    assert body[0] == 0;
    ValueBehindZeros(full, z);
    ShorterPowersCompared(z - 1);
    var value := Value256(full);
    DigitCount(value, 34 - z);
    Digits58Spell(value);
    assert AddressOf(hs, [0], payload) == Ones(z) + Written(Digits58(value));
  }
}
