/** The two hash primitives of the signer, taken from Go's `crypto/sha256` and
    `crypto/hmac` and not reimplemented: they are parameters of the model.
    `hashSHA256(data)` is `sha256(data)`; `hmacSHA256(key, data)` is
    `hmac(key, data)`, HMAC (RFC 2104) over SHA-256. */
module Crypto {
  import opened ByteStrings

  datatype Primitives = Primitives(sha256: Bytes -> Bytes, hmac: (Bytes, Bytes) -> Bytes)

  /** SHA-256 and HMAC-SHA256 digests are 32 bytes (FIPS 180-4). */
  const DigestSize: nat := 32

  ghost predicate WellFormed(p: Primitives) {
    && (forall m :: |p.sha256(m)| == DigestSize)
    && (forall k, m :: |p.hmac(k, m)| == DigestSize)
  }
}
