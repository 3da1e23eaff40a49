/** The cryptographic primitives, as values.

  SHA-256, X25519 and ChaCha20-Poly1305 are foreign code. A suite is a record of functions, and every
  theorem holds for every suite that obeys the laws stated here.
 */
module Crypto {
  import opened Bits
  import opened Wire
  import opened Wrappers

  const KEY_SIZE: nat := 32
  const TAG_SIZE: nat := 16

  /** AEAD cipher: `seal` and `open` take key, 12-byte nonce, associated data and text. */
  datatype Aead = Aead(
    seal: (Bytes, Bytes, Bytes, Bytes) -> Bytes,
    open: (Bytes, Bytes, Bytes, Bytes) -> Option<Bytes>)
  {
    /** Decryption inverts encryption; a ciphertext is one tag longer than its plaintext. */
    ghost predicate Lawful()
    {
      && (forall k, n, ad, text :: open(k, n, ad, seal(k, n, ad, text)) == Some(text))
      && (forall k, n, ad, text :: |seal(k, n, ad, text)| == |text| + TAG_SIZE)
      && (forall k, n, ad, box :: open(k, n, ad, box).Some? ==> |box| == |open(k, n, ad, box).value| + TAG_SIZE)
    }
  }

  /** A 12-byte nonce: four zero bytes, then the counter in little-endian order. */
  function BuildNonce(counter: U64): (nonce: Bytes)
    ensures |nonce| == 12
  {
    [0, 0, 0, 0] + ToLE(counter, 8)
  }

  lemma BuildNonceInjective(x: U64, y: U64)
    requires BuildNonce(x) == BuildNonce(y)
    ensures x == y
  {
    Pow256Constants();
    assert BuildNonce(x)[4..] == ToLE(x, 8);
    assert BuildNonce(y)[4..] == ToLE(y, 8);
    ToLEInjective(x, y, 8);
  }
}
