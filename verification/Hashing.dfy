/** The hash functions of the OpenSSL library: arbitrary functions of which only the digest length is known. */
module Hashing {
  import opened Common

  type Digest32 = d: seq<byte> | |d| == 32 witness seq(32, _ => 0)
  type Digest20 = d: seq<byte> | |d| == 20 witness seq(20, _ => 0)

  datatype Hashes = Hashes(sha256: seq<byte> -> Digest32, ripemd160: seq<byte> -> Digest20) {
    function DoubleSha256(input: seq<byte>): Digest32 { sha256(sha256(input)) }

    function Hash160(input: seq<byte>): Digest20 { ripemd160(sha256(input)) }
  }
}
