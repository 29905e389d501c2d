/**
 * The hash primitives the signer calls into: SHA-256 (FIPS 180-4) and
 * HMAC-SHA256 (RFC 2104). Their internals are not modelled; the signer takes
 * them as a parameter and relies only on their 32-byte output.
 */
module Crypto {
  import opened Wrappers
  import opened Hex

  /** A SHA-256 output. */
  type Digest = d: seq<byte> | |d| == 32 witness seq(32, _ => 0 as byte)

  /** `hashlib.sha256(data).digest()` and `hmac.new(key, data, hashlib.sha256).digest()`. */
  datatype HashSuite = HashSuite(sha256: seq<byte> -> Digest, hmacSha256: (seq<byte>, seq<byte>) -> Digest)

  /** `.hexdigest()` of a digest: 64 lowercase hex characters that parse back to it. */
  function HexDigest(d: Digest): (s: string)
    ensures |s| == 64 && IsLowerHex(s)
    ensures ParseHex(s) == Some(d)
  {
    ParseLowerHex(d);
    LowerHex(d)
  }
}
