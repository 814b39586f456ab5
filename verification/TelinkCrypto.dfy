/** The Telink cipher modes: byte-reversed AES, counter mode with a one-byte counter, and the
    CBC-MAC, as loops and as definitions. */
module TelinkCrypto {
  import opened Bytes
  import opened Cipher

  type BlockCipher = (Key, Block) -> Block

  const MAX_CTR_BLOCKS: nat := 256

  function Reverse(b: bytes): (r: bytes)
    ensures |r| == |b| && forall i :: 0 <= i < |b| ==> r[i] == b[|b| - 1 - i]
  {
    seq(|b|, i requires 0 <= i < |b| => b[|b| - 1 - i])
  }

  function PadToBlock(b: bytes): Block {
    if |b| >= 16 then b[..16] else b + Zeros(16 - |b|)
  }

  /** `telink_aes_encrypt`: key, text and result all in reversed byte order. */
  function TelinkAes(e: BlockCipher, key: Key, plaintext: bytes): Block {
    Reverse(e(Reverse(key), Reverse(PadToBlock(plaintext))))
  }

  // ---- Counter mode

  /** The i-th counter block: the counter byte, then the nonce. */
  function CounterBlock(nonce: bytes, i: nat): Block {
    [i % 256] + PadToBlock([0] + nonce)[1..]
  }

  function KeyStreamByte(e: BlockCipher, key: Key, nonce: bytes, i: nat): byte {
    TelinkAes(e, key, CounterBlock(nonce, i / 16))[i % 16]
  }

  /** Counter mode byte by byte. */
  function Crypt(e: BlockCipher, key: Key, nonce: bytes, payload: bytes): (r: bytes)
    ensures |r| == |payload|
    ensures forall i :: 0 <= i < |r| ==> r[i] == XorByte(KeyStreamByte(e, key, nonce, i), payload[i])
  {
    seq(|payload|, i requires 0 <= i < |payload| => XorByte(KeyStreamByte(e, key, nonce, i), payload[i]))
  }

  lemma KeyStreamOfBlock(e: BlockCipher, key: Key, nonce: bytes, i: nat, j: nat)
    requires j < 16
    ensures KeyStreamByte(e, key, nonce, 16 * i + j) == TelinkAes(e, key, CounterBlock(nonce, i))[j]
  {
    assert (16 * i + j) / 16 == i && (16 * i + j) % 16 == j;
  }

  /** One round of the loop extends the result by one block. */
  lemma CryptBlock(e: BlockCipher, key: Key, nonce: bytes, payload: bytes, i: nat)
    requires 16 * i < |payload|
    ensures var chunk := Slice(payload, 16 * i, 16 * i + 16);
      |chunk| <= 16 && 16 * i + |chunk| <= |payload| &&
      Crypt(e, key, nonce, payload)[..16 * i + |chunk|]
        == Crypt(e, key, nonce, payload)[..16 * i]
           + Xor(TelinkAes(e, key, CounterBlock(nonce, i))[..|chunk|], chunk)
  {
    hide TelinkAes;
    hide CounterBlock;
    hide KeyStreamByte;
    hide XorByte;
    hide Xor;
    var chunk := Slice(payload, 16 * i, 16 * i + 16);
    var all := Crypt(e, key, nonce, payload);
    var stream := TelinkAes(e, key, CounterBlock(nonce, i));
    hide Crypt;
    forall j | 0 <= j < |chunk| ensures all[16 * i + j] == Xor(stream[..|chunk|], chunk)[j] {
      KeyStreamOfBlock(e, key, nonce, i, j);
    }
  }

  lemma FirstCounterBlock(nonce: bytes)
    ensures CounterBlock(nonce, 0) == PadToBlock([0] + nonce)
  {
  }

  lemma NextCounterBlock(nonce: bytes, i: nat)
    ensures CounterBlock(nonce, i + 1) == CounterBlock(nonce, i)[0 := (i % 256 + 1) % 256]
    ensures CounterBlock(nonce, i)[0] == i % 256
  {
  }

  /** `crypt_payload`: refuses what would wrap the counter, otherwise encrypts block by block. */
  method CryptPayload(e: BlockCipher, key: Key, nonce: bytes, payload: bytes) returns (r: Result<bytes>)
    ensures r == if |payload| <= 4096 then Ok(Crypt(e, key, nonce, payload)) else Raised(CryptoError)
  {
    hide CounterBlock;
    hide PadToBlock;
    hide TelinkAes;
    hide KeyStreamByte;
    hide XorByte;
    hide Xor;
    hide Crypt;
    var blocksNeeded := (|payload| + 15) / 16;
    if blocksNeeded > MAX_CTR_BLOCKS { return Raised(CryptoError); }
    var base: Block := PadToBlock([0] + nonce);
    FirstCounterBlock(nonce);
    var result: bytes := [];
    var i := 0;
    ghost var block := 0;
    while i < |payload|
      invariant i == 16 * block && |result| == Min(i, |payload|)
      invariant base == CounterBlock(nonce, block)
      invariant result == Crypt(e, key, nonce, payload)[..|result|]
    {
      var keystream := TelinkAes(e, key, base);
      var chunk := Slice(payload, i, i + 16);
      CryptBlock(e, key, nonce, payload, block);
      result := result + Xor(keystream[..|chunk|], chunk);
      NextCounterBlock(nonce, block);
      var counter: int := base[0];
      base := base[0 := (counter + 1) % 256];
      i := i + 16;
      block := block + 1;
    }
    WholeSlice(result, Crypt(e, key, nonce, payload));
    r := Ok(result);
  }

  lemma WholeSlice(a: bytes, b: bytes)
    requires |a| == |b| && a == b[..|a|]
    ensures a == b
  {
  }

  /** Encryption and decryption are the same call. */
  lemma CryptTwice(e: BlockCipher, key: Key, nonce: bytes, payload: bytes)
    ensures Crypt(e, key, nonce, Crypt(e, key, nonce, payload)) == payload
  {
    var once := Crypt(e, key, nonce, payload);
    forall i | 0 <= i < |payload| ensures Crypt(e, key, nonce, once)[i] == payload[i] {
      var k := KeyStreamByte(e, key, nonce, i);
      XorCommutes(k, payload[i]);
      XorUndoes(payload[i], k);
      XorCommutes(k, once[i]);
    }
  }

  lemma CryptOfPrefix(e: BlockCipher, key: Key, nonce: bytes, payload: bytes, n: nat)
    requires n <= |payload|
    ensures Crypt(e, key, nonce, payload[..n]) == Crypt(e, key, nonce, payload)[..n]
  {
  }

  /** Keystream blocks use different counter blocks exactly as long as the counter does not wrap:
      256 blocks, the limit that `crypt_payload` enforces. */
  lemma CounterBlocksRepeatAfter256(nonce: bytes, i: nat, j: nat)
    ensures CounterBlock(nonce, i) == CounterBlock(nonce, j) <==> i % 256 == j % 256
    ensures i < j < MAX_CTR_BLOCKS ==> CounterBlock(nonce, i) != CounterBlock(nonce, j)
  {
    assert CounterBlock(nonce, i)[0] == i % 256 && CounterBlock(nonce, j)[0] == j % 256;
  }

  // ---- CBC-MAC

  /** The rest of the MAC of `payload` from the chaining value `check`. */
  function CbcMac(e: BlockCipher, key: Key, check: Block, payload: bytes): Block
    decreases |payload|
  {
    if payload == [] then check
    else CbcMac(e, key, TelinkAes(e, key, Xor(check, PadToBlock(payload))), payload[Min(16, |payload|)..])
  }

  function Checksum(e: BlockCipher, key: Key, nonce: bytes, payload: bytes): Block
    requires |payload| < 256
  {
    CbcMac(e, key, TelinkAes(e, key, nonce + [|payload|]), payload)
  }

  /** `make_checksum`: the payload length has to fit the byte that goes into the first block. */
  method MakeChecksum(e: BlockCipher, key: Key, nonce: bytes, payload: bytes) returns (r: Result<Block>)
    ensures r == if |payload| < 256 then Ok(Checksum(e, key, nonce, payload)) else Raised(ValueError)
  {
    if |payload| >= 256 { return Raised(ValueError); }
    var check := TelinkAes(e, key, PadToBlock(nonce + [|payload|]));
    PadTwice(nonce + [|payload|]);
    var i := 0;
    assert payload[0..] == payload;
    while i < |payload|
      invariant CbcMac(e, key, check, payload[Min(i, |payload|)..]) == Checksum(e, key, nonce, payload)
    {
      var chunk := PadToBlock(Slice(payload, i, i + 16));
      PadOfSlice(payload, i);
      assert payload[i..][Min(16, |payload| - i)..] == payload[Min(i + 16, |payload|)..];
      check := TelinkAes(e, key, Xor(check, chunk));
      i := i + 16;
    }
    r := Ok(check);
  }

  lemma PadTwice(b: bytes)
    ensures PadToBlock(PadToBlock(b)) == PadToBlock(b)
  {
  }

  lemma PadOfSlice(payload: bytes, i: nat)
    requires i < |payload|
    ensures PadToBlock(Slice(payload, i, i + 16)) == PadToBlock(payload[i..])
  {
  }

  // ---- What the modes compute, in terms of the cipher itself

  predicate IsReversed(a: bytes, b: bytes) { |a| == |b| && forall i :: 0 <= i < |a| ==> a[i] == b[|b| - 1 - i] }

  ghost predicate Injective(e: BlockCipher) { forall k, a, b :: e(k, a) == e(k, b) ==> a == b }

  /** Key, text and result are turned round; a text of less than a block is filled up with zeros. */
  lemma TelinkAesLayout(e: BlockCipher, key: Key, text: bytes, turnedKey: Key, turned: Block)
    requires |text| <= 16
    requires IsReversed(turnedKey, key) && IsReversed(turned, text + Zeros(16 - |text|))
    ensures IsReversed(TelinkAes(e, key, text), e(turnedKey, turned))
  {
    assert turnedKey == Reverse(key);
    assert PadToBlock(text) == text + Zeros(16 - |text|);
    assert turned == Reverse(PadToBlock(text));
  }

  /** The counter block of byte i: the number of its block in one byte, then the nonce, then zeros. */
  predicate IsCounterBlock(block: Block, nonce: bytes, i: nat) {
    && block[0] == i / 16 % 256 && |nonce| <= 15
    && block[1..] == nonce + Zeros(15 - |nonce|)
  }

  /** Byte i of the text, combined with the byte of the encrypted counter block that is at its place. */
  lemma CryptLayout(e: BlockCipher, key: Key, nonce: bytes, payload: bytes, i: nat, block: Block, turnedKey: Key,
    turned: Block)
    requires i < |payload| && IsCounterBlock(block, nonce, i)
    requires IsReversed(turnedKey, key) && IsReversed(turned, block)
    ensures Crypt(e, key, nonce, payload)[i] == XorByte(e(turnedKey, turned)[15 - i % 16], payload[i])
  {
    hide XorByte;
    assert block + Zeros(0) == block;
    TelinkAesLayout(e, key, block, turnedKey, turned);
    assert PadToBlock([0] + nonce) == [0] + nonce + Zeros(15 - |nonce|);
    assert PadToBlock([0] + nonce)[1..] == nonce + Zeros(15 - |nonce|);
    assert CounterBlock(nonce, i / 16) == [block[0]] + block[1..] == block;
    hide TelinkAes;
  }

  /** The i-th block of a text, filled up with zeros. */
  function BlockAt(text: bytes, i: nat): (b: Block)
    ensures forall j :: 0 <= j < 16 ==> b[j] == if 16 * i + j < |text| then text[16 * i + j] else 0
  {
    seq(16, j requires 0 <= j < 16 => if 16 * i + j < |text| then text[16 * i + j] else 0)
  }

  /** The chaining values of a MAC: the first from the nonce and the length, each further one from the
      one before combined with the next block of the text. */
  ghost predicate IsChain(e: BlockCipher, key: Key, nonce: bytes, payload: bytes, c: seq<Block>)
    requires |payload| < 256
  {
    && |c| == (|payload| + 15) / 16 + 1
    && c[0] == TelinkAes(e, key, nonce + [|payload|])
    && forall i :: 0 <= i < |c| - 1 ==> c[i + 1] == TelinkAes(e, key, Xor(c[i], BlockAt(payload, i)))
  }

  /** Every MAC has such a chain. */
  lemma {:induction false} ChainExists(e: BlockCipher, key: Key, nonce: bytes, payload: bytes, n: nat)
    returns (c: seq<Block>)
    requires |payload| < 256
    ensures |c| == n + 1 && c[0] == TelinkAes(e, key, nonce + [|payload|])
    ensures forall i :: 0 <= i < n ==> c[i + 1] == TelinkAes(e, key, Xor(c[i], BlockAt(payload, i)))
    ensures n == (|payload| + 15) / 16 ==> IsChain(e, key, nonce, payload, c)
  {
    hide TelinkAes;
    hide Xor;
    if n == 0 {
      c := [TelinkAes(e, key, nonce + [|payload|])];
    } else {
      c := ChainExists(e, key, nonce, payload, n - 1);
      c := c + [TelinkAes(e, key, Xor(c[n - 1], BlockAt(payload, n - 1)))];
    }
  }

  lemma {:induction false} ChainToEnd(e: BlockCipher, key: Key, nonce: bytes, payload: bytes, c: seq<Block>, i: nat)
    requires |payload| < 256 && IsChain(e, key, nonce, payload, c) && i < |c|
    ensures CbcMac(e, key, c[i], payload[Min(16 * i, |payload|)..]) == c[|c| - 1]
    decreases |c| - i
  {
    hide TelinkAes;
    hide Xor;
    if i == |c| - 1 {
      assert payload[Min(16 * i, |payload|)..] == [];
    } else {
      var rest := payload[16 * i..];
      assert PadToBlock(rest) == BlockAt(payload, i);
      assert rest[Min(16, |rest|)..] == payload[Min(16 * (i + 1), |payload|)..];
      ChainToEnd(e, key, nonce, payload, c, i + 1);
    }
  }

  /** The checksum is the last of the chaining values. */
  lemma ChecksumIsLastOfChain(e: BlockCipher, key: Key, nonce: bytes, payload: bytes, c: seq<Block>)
    requires |payload| < 256 && IsChain(e, key, nonce, payload, c)
    ensures Checksum(e, key, nonce, payload) == c[|c| - 1]
  {
    ChainToEnd(e, key, nonce, payload, c, 0);
    assert payload[0..] == payload;
  }

  lemma TelinkAesKeepsApart(e: BlockCipher, key: Key, a: bytes, b: bytes)
    requires Injective(e) && PadToBlock(a) != PadToBlock(b)
    ensures TelinkAes(e, key, a) != TelinkAes(e, key, b)
  {
    ReverseKeepsApart(PadToBlock(a), PadToBlock(b));
    ReverseKeepsApart(e(Reverse(key), Reverse(PadToBlock(a))), e(Reverse(key), Reverse(PadToBlock(b))));
    hide Reverse;
    hide PadToBlock;
  }

  lemma ReverseKeepsApart(a: bytes, b: bytes)
    requires |a| == |b| && a != b
    ensures Reverse(a) != Reverse(b)
  {
    if Reverse(a) == Reverse(b) {
      forall i | 0 <= i < |a| ensures a[i] == b[i] {
        assert Reverse(a)[|a| - 1 - i] == Reverse(b)[|a| - 1 - i];
      }
    }
  }

  lemma StepKeepsApart(e: BlockCipher, key: Key, x: Block, y: Block, a: Block, b: Block)
    requires Injective(e) && (x == y <==> a != b)
    ensures TelinkAes(e, key, Xor(x, a)) != TelinkAes(e, key, Xor(y, b))
  {
    if x == y { XorKeepsApart(a, b, x); } else { XorKeepsApart(x, y, a); }
    hide Xor;
    hide TelinkAes;
    TelinkAesKeepsApart(e, key, Xor(x, a), Xor(y, b));
  }

  lemma {:induction false} CbcMacKeepsApart(e: BlockCipher, key: Key, x: Block, y: Block, payload: bytes)
    requires Injective(e) && x != y
    ensures CbcMac(e, key, x, payload) != CbcMac(e, key, y, payload)
    decreases |payload|
  {
    hide TelinkAes;
    hide Xor;
    hide PadToBlock;
    if payload == [] {
    } else {
      var b := PadToBlock(payload);
      StepKeepsApart(e, key, x, y, b, b);
      CbcMacKeepsApart(e, key, TelinkAes(e, key, Xor(x, b)), TelinkAes(e, key, Xor(y, b)),
        payload[Min(16, |payload|)..]);
    }
  }

  /** The same payload under two nonces has two checksums. */
  lemma NonceShowsInChecksum(e: BlockCipher, key: Key, n1: bytes, n2: bytes, payload: bytes)
    requires Injective(e) && |n1| == |n2| == 8 && n1 != n2 && |payload| < 256
    ensures Checksum(e, key, n1, payload) != Checksum(e, key, n2, payload)
  {
    var a, b := n1 + [|payload|], n2 + [|payload|];
    assert PadToBlock(a)[..8] == n1 && PadToBlock(b)[..8] == n2;
    TelinkAesKeepsApart(e, key, a, b);
    hide TelinkAes;
    hide CbcMac;
    CbcMacKeepsApart(e, key, TelinkAes(e, key, a), TelinkAes(e, key, b), payload);
  }

  lemma {:induction false} CbcMacOfOneChange(e: BlockCipher, key: Key, x: Block, a: bytes, b: bytes, j: nat)
    requires Injective(e) && DifferInBlock(a, b, j)
    ensures CbcMac(e, key, x, a) != CbcMac(e, key, x, b)
    decreases |a|
  {
    hide TelinkAes;
    hide Xor;
    if j > 0 {
      LaterBlockDiffers(a, b, j);
      assert PadToBlock(a) == a[..16] && PadToBlock(b) == b[..16];
      CbcMacOfOneChange(e, key, TelinkAes(e, key, Xor(x, PadToBlock(a))), a[16..], b[16..], j - 1);
    } else {
      var rest := a[Min(16, |a|)..];
      if |a| > 16 {
        FirstBlockDiffers(a, b);
      } else {
        assert PadToBlock(a)[..|a|] == a && PadToBlock(b)[..|b|] == b;
        assert rest == b[Min(16, |b|)..];
      }
      StepKeepsApart(e, key, x, x, PadToBlock(a), PadToBlock(b));
      var y, z := TelinkAes(e, key, Xor(x, PadToBlock(a))), TelinkAes(e, key, Xor(x, PadToBlock(b)));
      CbcMacKeepsApart(e, key, y, z, rest);
    }
  }

  /** A change within one block, the first and a partial last one included, changes the checksum. */
  lemma OneChangedBlockShows(e: BlockCipher, key: Key, nonce: bytes, a: bytes, b: bytes, j: nat)
    requires Injective(e) && |a| < 256 && DifferInBlock(a, b, j)
    ensures Checksum(e, key, nonce, a) != Checksum(e, key, nonce, b)
  {
    CbcMacOfOneChange(e, key, TelinkAes(e, key, nonce + [|a|]), a, b, j);
    hide CbcMac;
    hide TelinkAes;
  }
}
