/**
 * The authenticated cipher under one key, used through the STREAM construction: a text is sealed
 * under a nonce, a chunk counter and a flag that marks the last chunk. Only the laws below are used,
 * so every result holds for every cipher that meets them.
 */
module Ciphers {
  import opened ByteStreams

  const PLAIN_CHUNK_SIZE: nat := 1_000_000
  const ENCRYPTION_OVERHEAD: nat := 16
  const ENCRYPTED_CHUNK_SIZE: nat := PLAIN_CHUNK_SIZE + ENCRYPTION_OVERHEAD

  datatype Aead = Aead(
    seal: (Bytes, nat, bool, Bytes) -> Bytes,
    open: (Bytes, nat, bool, Bytes) -> Option<Bytes>)

  /** Sealing adds the overhead, and opening with the same nonce, counter and flag undoes it. */
  ghost predicate Lawful(a: Aead) {
    forall nonce: Bytes, counter: nat, last: bool, p: Bytes | |p| <= PLAIN_CHUNK_SIZE ::
      && |a.seal(nonce, counter, last, p)| == |p| + ENCRYPTION_OVERHEAD
      && a.open(nonce, counter, last, a.seal(nonce, counter, last, p)) == Some(p)
  }

  /** No proper prefix of a sealed chunk opens as a last chunk. */
  ghost predicate PrefixSafe(a: Aead) {
    forall nonce: Bytes, counter: nat, last: bool, p: Bytes, k: nat
      | |p| <= PLAIN_CHUNK_SIZE && k < |a.seal(nonce, counter, last, p)| ::
      a.open(nonce, counter, true, a.seal(nonce, counter, last, p)[..k]) == None
  }

  // A cipher without secrecy that meets both laws: its tag spells out the length and the flag.

  function Tag(last: bool, n: nat): (t: Bytes)
    ensures |t| == ENCRYPTION_OVERHEAD
  {
    var high := n / 256;
    [if last then 1 else 0,
     (high / 256 % 256) as byte, (high % 256) as byte, (n % 256) as byte,
     0, 0, 0, 0, 0, 0, 0, 0, 0, 0, 0, 0]
  }

  function TagSeal(nonce: Bytes, counter: nat, last: bool, p: Bytes): Bytes {
    Tag(last, |p|) + p
  }

  function TagOpen(nonce: Bytes, counter: nat, last: bool, c: Bytes): Option<Bytes> {
    if |c| >= ENCRYPTION_OVERHEAD && c[..ENCRYPTION_OVERHEAD] == Tag(last, |c| - ENCRYPTION_OVERHEAD)
    then Some(c[ENCRYPTION_OVERHEAD..])
    else None
  }

  const TAG_CIPHER: Aead := Aead(TagSeal, TagOpen)

  lemma TagSpellsLength(last: bool, n: nat)
    requires n <= PLAIN_CHUNK_SIZE
    ensures
      var t := Tag(last, n);
      n == (t[1] as int * 256 + t[2] as int) * 256 + t[3] as int
  {
    var high := n / 256;
    assert high / 256 % 256 == high / 256;
  }

  /** The laws are satisfiable, so no theorem that assumes them is vacuous. */
  lemma CipherExists()
    ensures Lawful(TAG_CIPHER) && PrefixSafe(TAG_CIPHER)
  {
    forall nonce: Bytes, counter: nat, last: bool, p: Bytes | |p| <= PLAIN_CHUNK_SIZE
      ensures |TAG_CIPHER.seal(nonce, counter, last, p)| == |p| + ENCRYPTION_OVERHEAD
      ensures TAG_CIPHER.open(nonce, counter, last, TAG_CIPHER.seal(nonce, counter, last, p)) == Some(p)
    {
      var c := TagSeal(nonce, counter, last, p);
      assert c[..ENCRYPTION_OVERHEAD] == Tag(last, |p|) && c[ENCRYPTION_OVERHEAD..] == p;
    }
    forall nonce: Bytes, counter: nat, last: bool, p: Bytes, k: nat
      | |p| <= PLAIN_CHUNK_SIZE && k < |TAG_CIPHER.seal(nonce, counter, last, p)|
      ensures TAG_CIPHER.open(nonce, counter, true, TAG_CIPHER.seal(nonce, counter, last, p)[..k]) == None
    {
      var c := TagSeal(nonce, counter, last, p);
      if k >= ENCRYPTION_OVERHEAD && c[..k][..ENCRYPTION_OVERHEAD] == Tag(true, k - ENCRYPTION_OVERHEAD) {
        assert c[..k][..ENCRYPTION_OVERHEAD] == Tag(last, |p|);
        TagSpellsLength(true, k - ENCRYPTION_OVERHEAD);
        TagSpellsLength(last, |p|);
        assert false;
      }
    }
  }
}
