/**
 * The hash primitives the core calls into: `crypto/sha256`,
 * `golang.org/x/crypto/ripemd160` and `crypto/hmac` over `crypto/sha512`.
 * They are library code, so the model takes them as a parameter: any three
 * functions with the right output lengths.  Nothing else about them is
 * assumed.
 */
module Crypto {
  import opened BigEndian

  type Digest20 = s: seq<byte> | |s| == 20 witness Zeros(20)
  type Digest32 = s: seq<byte> | |s| == 32 witness Zeros(32)
  type Digest64 = s: seq<byte> | |s| == 64 witness Zeros(64)

  /** `hmacSha512(key, data)` is `hmac.New(sha512.New, key)` fed `data`. */
  datatype Hashes = Hashes(
    sha256: seq<byte> -> Digest32,
    ripemd160: seq<byte> -> Digest20,
    hmacSha512: (seq<byte>, seq<byte>) -> Digest64)
}
