/**
 Hash algorithms as the repository names them (attest/attest.go) and the hash
 functions themselves, of which only the digest length is known.
 */
module Hashing {
  import opened Bytes

  /** crypto.Hash: zero, the two algorithms event logs use, or any other one. */
  datatype CryptoHash = NoHash | SHA1 | SHA256 | OtherHash(id: nat)

  /** The values HashAlg.cryptoHash can return. */
  type LogHash = h: CryptoHash | !h.OtherHash? witness NoHash

  const ALG_SHA1: byte := 0x04
  const ALG_SHA256: byte := 0x0B

  predicate Supported(h: CryptoHash) {
    h == SHA1 || h == SHA256
  }

  function Size(h: CryptoHash): nat
    requires Supported(h)
  {
    if h == SHA1 then 20 else 32
  }

  /** Any functions with the right digest lengths; nothing else is assumed of a hash. */
  type HashFunction = f: (CryptoHash, bytes) -> bytes |
      forall h, b :: Supported(h) ==> |f(h, b)| == Size(h)
    witness (h: CryptoHash, b: bytes) => if Supported(h) then seq(Size(h), i => 0) else []

  /** HashAlg.cryptoHash. */
  function CryptoHashOf(alg: byte): LogHash {
    if alg == ALG_SHA1 then SHA1 else if alg == ALG_SHA256 then SHA256 else NoHash
  }
}
