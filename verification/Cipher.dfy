/** AES as the program sees it: a single-block cipher and an authenticated cipher (AES-CCM),
    known only by the lengths they produce and by the law that opening undoes sealing. */
module Cipher {
  import opened Bytes

  type Block = b: bytes | |b| == 16 witness [0, 0, 0, 0, 0, 0, 0, 0, 0, 0, 0, 0, 0, 0, 0, 0]
  type Key = Block

  const MIC_LEN_ACCESS: nat := 4
  const MIC_LEN_CONTROL: nat := 8

  /** `seal` and `open` take key, nonce, text and MIC length. */
  datatype Aes = Aes(
    ecb: (Key, Block) -> Block,
    seal: (Key, bytes, bytes, nat) -> bytes,
    open: (Key, bytes, bytes, nat) -> Option<bytes>)

  ghost predicate Lawful(c: Aes) {
    && (forall k, n, p, m :: |c.seal(k, n, p, m)| == |p| + m)
    && (forall k, n, p, m :: c.open(k, n, c.seal(k, n, p, m), m) == Some(p))
    && (forall k, n, d, m :: c.open(k, n, d, m).Some? ==> c.seal(k, n, c.open(k, n, d, m).value, m) == d)
  }

  /** A lawful cipher whose MIC repeats the sequence-number bytes of the nonce. It shows that the
      laws can be met, and serves as the witness wherever a property fails for some cipher. */
  function SequenceTag(nonce: bytes, m: nat): (t: bytes)
    ensures |t| == m
  {
    seq(m, i requires 0 <= i < m => if i + 2 < |nonce| then nonce[i + 2] else 0)
  }

  function TagSeal(nonce: bytes, p: bytes, m: nat): bytes { p + SequenceTag(nonce, m) }

  function TagOpen(nonce: bytes, d: bytes, m: nat): Option<bytes> {
    if |d| >= m && d[|d| - m..] == SequenceTag(nonce, m) then Some(d[..|d| - m]) else None
  }

  function TagCipher(): Aes {
    Aes((k, b) => b, (k, n, p, m) => TagSeal(n, p, m), (k, n, d, m) => TagOpen(n, d, m))
  }

  lemma TagCipherIsLawful()
    ensures Lawful(TagCipher())
  {
    forall n: bytes, p: bytes, m: nat
      ensures TagOpen(n, TagSeal(n, p, m), m) == Some(p)
    {
      var d := TagSeal(n, p, m);
      assert d[..|d| - m] == p && d[|d| - m..] == SequenceTag(n, m);
    }
    forall n: bytes, d: bytes, m: nat | TagOpen(n, d, m).Some?
      ensures TagSeal(n, TagOpen(n, d, m).value, m) == d
    {
      assert d[..|d| - m] + d[|d| - m..] == d;
    }
  }
}
