/** The cryptographic primitives the ledger calls but does not implement.
    Each is an unknown function of its type: nothing is assumed about
    SHA-256 beyond its 32-byte digest, and nothing at all about ECDSA. */
module Crypto {
  import opened Bytes

  /** A SHA-256 digest: exactly 32 bytes. */
  type Digest = s: seq<Byte> | |s| == 32 witness seq(32, _ => 0)

  /** `sha256.Sum256`, left uninterpreted. */
  const Sha256: seq<Byte> -> Digest

  /** An ECDSA P-256 private key, reduced to its secret scalar. */
  datatype PrivateKey = PrivateKey(d: nat)

  /** What `ecdsa.Sign` hands back: the pair (r, s) as the big-endian bytes
      of `r.Bytes()` and `s.Bytes()`, or an error. */
  datatype SignResult = Signed(r: seq<Byte>, s: seq<Byte>) | SignFailed

  /** `ecdsa.Sign(rand.Reader, key, digest)`, left uninterpreted. */
  const EcdsaSign: (PrivateKey, seq<Byte>) -> SignResult
}
