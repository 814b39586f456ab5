/** The network layer: encryption, privacy obfuscation and their inverse
    (Mesh Profile sections 3.4.4, 3.8.5.1 and 3.8.7.3). */
module NetworkLayer {
  import opened Bytes
  import opened Cipher

  type nid7 = n: nat | n < 128

  datatype NetKeys = NetKeys(encKey: Key, privKey: Key, nid: nid7, ivIndex: u32)

  /** The fields a caller hands to encryption and gets back from decryption. */
  datatype NetworkPdu = NetworkPdu(ctl: nat, ttl: nat, seqNo: u32, src: u16, dst: u16, transportPdu: bytes)

  function CtlTtl(ctl: nat, ttl: nat): byte { ctl % 2 * 128 + ttl % 128 }

  function MicLen(ctl: nat): nat { if ctl != 0 then MIC_LEN_CONTROL else MIC_LEN_ACCESS }

  function NetworkNonce(ctlTtl: byte, seqNo: nat, src: nat, ivIndex: nat): (n: bytes)
    ensures |n| == 13
  {
    [0, ctlTtl] + U24(seqNo) + U16(src) + [0, 0] + U32(ivIndex)
  }

  function Header(ctlTtl: byte, seqNo: nat, src: nat): (h: bytes)
    ensures |h| == 6
  {
    [ctlTtl] + U24(seqNo) + U16(src)
  }

  /** The six mask bytes. The single-block cipher refuses anything but 16 bytes, which happens
      when fewer than seven encrypted bytes are there to be sampled. */
  function PrivacyMask(c: Aes, keys: NetKeys, encrypted: bytes): (r: Result<bytes>)
    ensures r.Ok? <==> |encrypted| >= 7
    ensures r.Ok? ==> |r.value| == 6
    ensures r.Raised? ==> r.error == CryptoError
  {
    var pecbInput := Zeros(5) + U32(keys.ivIndex) + Take(encrypted, 7);
    if |pecbInput| != 16 then Raised(CryptoError)
    else Ok(c.ecb(keys.privKey, pecbInput)[..6])
  }

  /** The destination and the transport PDU, encrypted, with their MIC. */
  function Sealed(c: Aes, keys: NetKeys, p: NetworkPdu): bytes {
    var nonce := NetworkNonce(CtlTtl(p.ctl, p.ttl), p.seqNo, p.src, keys.ivIndex);
    c.seal(keys.encKey, nonce, U16(p.dst) + p.transportPdu, MicLen(p.ctl))
  }

  function FirstByte(keys: NetKeys): byte { keys.ivIndex % 2 * 128 + keys.nid }

  function EncryptNetworkPdu(c: Aes, keys: NetKeys, p: NetworkPdu): Result<bytes> {
    var encrypted := Sealed(c, keys, p);
    match PrivacyMask(c, keys, encrypted)
    case Raised(e) => Raised(e)
    case Ok(mask) =>
      Ok([FirstByte(keys)] + Xor(Header(CtlTtl(p.ctl, p.ttl), p.seqNo, p.src), mask) + encrypted)
  }

  function DecryptNetworkPdu(c: Aes, keys: NetKeys, pdu: bytes): Result<Option<NetworkPdu>> {
    if |pdu| < 10 || pdu[0] % 128 != keys.nid then Ok(None)
    else
      match PrivacyMask(c, keys, pdu[7..])
      case Raised(e) => Raised(e)
      case Ok(mask) => OpenNetworkPdu(c, keys, Xor(pdu[1..7], mask), pdu[7..])
  }

  /** Decryption once the header is in the clear. */
  function OpenNetworkPdu(c: Aes, keys: NetKeys, header: bytes, encrypted: bytes): Result<Option<NetworkPdu>>
    requires |header| == 6
  {
    var ctlTtl, seqNo, src := header[0], FromU24(header[1..4]), FromU16(header[4..6]);
    var ctl, ttl := ctlTtl / 128, ctlTtl % 128;
    match c.open(keys.encKey, NetworkNonce(ctlTtl, seqNo, src, keys.ivIndex), encrypted, MicLen(ctl))
    case None => Ok(None)
    case Some(plaintext) =>
      if |plaintext| < 2 then Raised(IndexError)
      else Ok(Some(NetworkPdu(ctl, ttl, seqNo, src, FromU16(plaintext[..2]), plaintext[2..])))
  }

  /** What a PDU keeps of the fields it was built from: seven TTL bits, 24 sequence bits. */
  function OnTheWire(p: NetworkPdu): NetworkPdu {
    NetworkPdu(p.ctl, p.ttl % 128, p.seqNo % SEQ_LIMIT, p.src, p.dst, p.transportPdu)
  }

  lemma HeaderFields(ctl: bit, ttl: nat, seqNo: nat, src: u16)
    ensures var h := Header(CtlTtl(ctl, ttl), seqNo, src);
      h[0] / 128 == ctl && h[0] % 128 == ttl % 128 &&
      FromU24(h[1..4]) == seqNo % SEQ_LIMIT && FromU16(h[4..6]) == src
  {
    var h := Header(CtlTtl(ctl, ttl), seqNo, src);
    assert h[1..4] == U24(seqNo) && h[4..6] == U16(src);
    U24RoundTrip(seqNo);
    U16RoundTrip(src);
  }

  lemma U24Wraps(seqNo: nat)
    ensures U24(seqNo % SEQ_LIMIT) == U24(seqNo)
  {
    U24RoundTrip(seqNo);
    FieldsFromBytes(U24(seqNo));
  }

  /** Encryption fails exactly on an empty transport PDU of an access message. */
  lemma EncryptFailsOnlyWhenTooShort(c: Aes, keys: NetKeys, p: NetworkPdu)
    requires Lawful(c)
    ensures EncryptNetworkPdu(c, keys, p).Raised? <==> p.ctl == 0 && p.transportPdu == []
  {
  }

  lemma OpenUndoesSeal(c: Aes, keys: NetKeys, p: NetworkPdu)
    requires Lawful(c) && p.ctl < 2
    ensures OpenNetworkPdu(c, keys, Header(CtlTtl(p.ctl, p.ttl), p.seqNo, p.src), Sealed(c, keys, p))
      == Ok(Some(OnTheWire(p)))
  {
    hide U16;
    hide U24;
    hide U32;
    hide FromU16;
    hide FromU24;
    hide Header;
    HeaderFields(p.ctl, p.ttl, p.seqNo, p.src);
    U24Wraps(p.seqNo);
    var plaintext := U16(p.dst) + p.transportPdu;
    assert plaintext[..2] == U16(p.dst) && plaintext[2..] == p.transportPdu;
    U16RoundTrip(p.dst);
  }

  lemma SealUndoesOpen(c: Aes, keys: NetKeys, header: bytes, encrypted: bytes)
    requires Lawful(c) && |header| == 6
    requires OpenNetworkPdu(c, keys, header, encrypted).Ok?
    requires OpenNetworkPdu(c, keys, header, encrypted).value.Some?
    ensures var p := OpenNetworkPdu(c, keys, header, encrypted).value.value;
      p.ctl < 2 && OnTheWire(p) == p && Sealed(c, keys, p) == encrypted &&
      Header(CtlTtl(p.ctl, p.ttl), p.seqNo, p.src) == header
  {
    hide U16;
    hide U24;
    hide U32;
    hide FromU16;
    hide FromU24;
    var p := OpenNetworkPdu(c, keys, header, encrypted).value.value;
    FieldsFromBytes(header[1..4]);
    FieldsFromBytes(header[4..6]);
    assert CtlTtl(p.ctl, p.ttl) == header[0];
    assert [header[0]] + header[1..4] + header[4..6] == header;
    var nonce := NetworkNonce(header[0], p.seqNo, p.src, keys.ivIndex);
    var plaintext := c.open(keys.encKey, nonce, encrypted, MicLen(p.ctl)).value;
    FieldsFromBytes(plaintext[..2]);
    assert U16(p.dst) + p.transportPdu == plaintext;
  }

  lemma FrameParts(first: byte, hidden: bytes, encrypted: bytes)
    requires |hidden| == 6
    ensures var pdu := [first] + hidden + encrypted;
      |pdu| == 7 + |encrypted| && pdu[0] == first && pdu[1..7] == hidden && pdu[7..] == encrypted
  {
  }

  lemma DecryptOfFrame(c: Aes, keys: NetKeys, header: bytes, mask: bytes, encrypted: bytes)
    requires |header| == 6 && PrivacyMask(c, keys, encrypted) == Ok(mask)
    ensures DecryptNetworkPdu(c, keys, [FirstByte(keys)] + Xor(header, mask) + encrypted)
      == OpenNetworkPdu(c, keys, header, encrypted)
  {
    FrameParts(FirstByte(keys), Xor(header, mask), encrypted);
    XorTwice(header, mask);
    assert FirstByte(keys) % 128 == keys.nid;
  }

  /** Decryption returns the fields of every PDU that encryption produced. */
  lemma DecryptUndoesEncrypt(c: Aes, keys: NetKeys, p: NetworkPdu)
    requires Lawful(c) && p.ctl < 2
    requires p.ctl == 1 || p.transportPdu != []
    ensures EncryptNetworkPdu(c, keys, p).Ok?
    ensures DecryptNetworkPdu(c, keys, EncryptNetworkPdu(c, keys, p).value) == Ok(Some(OnTheWire(p)))
  {
    EncryptFailsOnlyWhenTooShort(c, keys, p);
    var encrypted := Sealed(c, keys, p);
    var mask := PrivacyMask(c, keys, encrypted).value;
    DecryptOfFrame(c, keys, Header(CtlTtl(p.ctl, p.ttl), p.seqNo, p.src), mask, encrypted);
    OpenUndoesSeal(c, keys, p);
  }

  /** A PDU of this network that is long enough to sample is opened under its unmasked header. */
  lemma DecryptOpens(c: Aes, keys: NetKeys, pdu: bytes)
    requires |pdu| >= 14 && pdu[0] % 128 == keys.nid
    ensures PrivacyMask(c, keys, pdu[7..]).Ok?
    ensures DecryptNetworkPdu(c, keys, pdu)
      == OpenNetworkPdu(c, keys, Xor(pdu[1..7], PrivacyMask(c, keys, pdu[7..]).value), pdu[7..])
  {
    hide PrivacyMask;
    hide OpenNetworkPdu;
    hide Xor;
  }

  lemma AcceptedIsLongEnough(c: Aes, keys: NetKeys, pdu: bytes)
    requires DecryptNetworkPdu(c, keys, pdu).Ok? && DecryptNetworkPdu(c, keys, pdu).value.Some?
    ensures |pdu| >= 14 && pdu[0] % 128 == keys.nid
  {
    hide PrivacyMask;
    hide OpenNetworkPdu;
    hide Xor;
  }

  lemma EncryptOfParts(c: Aes, keys: NetKeys, p: NetworkPdu, header: bytes, mask: bytes, encrypted: bytes)
    requires |header| == 6 && header == Header(CtlTtl(p.ctl, p.ttl), p.seqNo, p.src)
    requires encrypted == Sealed(c, keys, p) && PrivacyMask(c, keys, encrypted) == Ok(mask)
    ensures EncryptNetworkPdu(c, keys, p) == Ok([FirstByte(keys)] + Xor(header, mask) + encrypted)
  {
    hide PrivacyMask;
    hide Sealed;
    hide Xor;
    hide Header;
  }

  lemma AfterFirst(first: byte, pdu: bytes)
    requires |pdu| >= 7
    ensures [first] + pdu[1..7] + pdu[7..] == [first] + pdu[1..]
  {
    assert pdu[1..] == pdu[1..7] + pdu[7..];
  }

  /** The converse: whatever decryption accepts is what encryption makes of the fields returned,
      but for the IV bit of the first byte, which decryption does not look at. */
  lemma EncryptUndoesDecrypt(c: Aes, keys: NetKeys, pdu: bytes)
    requires Lawful(c)
    requires DecryptNetworkPdu(c, keys, pdu).Ok? && DecryptNetworkPdu(c, keys, pdu).value.Some?
    ensures var p := DecryptNetworkPdu(c, keys, pdu).value.value;
      p.ctl < 2 && OnTheWire(p) == p &&
      EncryptNetworkPdu(c, keys, p) == Ok([FirstByte(keys)] + pdu[1..])
  {
    hide *;
    AcceptedIsLongEnough(c, keys, pdu);
    DecryptOpens(c, keys, pdu);
    var encrypted := pdu[7..];
    var mask := PrivacyMask(c, keys, encrypted).value;
    var header := Xor(pdu[1..7], mask);
    SealUndoesOpen(c, keys, header, encrypted);
    var p := DecryptNetworkPdu(c, keys, pdu).value.value;
    EncryptOfParts(c, keys, p, header, mask, encrypted);
    XorTwice(pdu[1..7], mask);
    AfterFirst(FirstByte(keys), pdu);
  }

  // ---- The layout on the wire, field by field

  /** The header in the clear: control bit and seven TTL bits, sequence number, source. */
  predicate IsHeader(header: bytes, p: NetworkPdu) {
    && |header| == 6 && header[0] == p.ctl % 2 * 128 + p.ttl % 128
    && FromU24(header[1..4]) == p.seqNo % 0x100_0000 && FromU16(header[4..6]) == p.src
  }

  /** What the single-block cipher is given: five zero bytes, the IV index, and the first seven bytes
      after the header. */
  predicate IsPrivacyBlock(block: bytes, ivIndex: u32, pdu: bytes) {
    && |block| == 16 && (forall i :: 0 <= i < 5 ==> block[i] == 0)
    && FromU32(block[5..9]) == ivIndex && |pdu| >= 14 && block[9..] == pdu[7..14]
  }

  /** The nonce: a zero byte, the header, two zero bytes, the IV index. */
  predicate IsNetworkNonce(nonce: bytes, header: bytes, ivIndex: u32) {
    && |nonce| == 13 && nonce[0] == 0 && nonce[1..7] == header
    && nonce[7] == 0 && nonce[8] == 0 && FromU32(nonce[9..]) == ivIndex
  }

  predicate IsPlaintext(plaintext: bytes, p: NetworkPdu) {
    |plaintext| >= 2 && FromU16(plaintext[..2]) == p.dst && plaintext[2..] == p.transportPdu
  }

  lemma HeaderIs(header: bytes, p: NetworkPdu)
    requires IsHeader(header, p)
    ensures header == Header(CtlTtl(p.ctl, p.ttl), p.seqNo, p.src)
  {
    hide U16;
    hide U24;
    hide FromU16;
    hide FromU24;
    var h := Header(CtlTtl(p.ctl, p.ttl), p.seqNo, p.src);
    assert h[1..4] == U24(p.seqNo) && h[4..6] == U16(p.src);
    U24RoundTrip(p.seqNo);
    U16RoundTrip(p.src);
    FieldsDetermineBytes(header[1..4], h[1..4]);
    FieldsDetermineBytes(header[4..6], h[4..6]);
    assert header == [header[0]] + header[1..4] + header[4..6];
  }

  lemma PrivacyBlockIs(block: bytes, ivIndex: u32, pdu: bytes)
    requires IsPrivacyBlock(block, ivIndex, pdu)
    ensures block == Zeros(5) + U32(ivIndex) + Take(pdu[7..], 7)
  {
    hide U32;
    hide FromU32;
    U32RoundTrip(ivIndex);
    FieldsDetermineBytes(block[5..9], U32(ivIndex));
    assert block[..5] == Zeros(5);
    assert block == block[..5] + block[5..9] + block[9..];
    assert pdu[7..][..7] == pdu[7..14];
  }

  lemma NetworkNonceIs(nonce: bytes, header: bytes, p: NetworkPdu, ivIndex: u32)
    requires IsHeader(header, p) && IsNetworkNonce(nonce, header, ivIndex)
    ensures nonce == NetworkNonce(CtlTtl(p.ctl, p.ttl), p.seqNo, p.src, ivIndex)
  {
    HeaderIs(header, p);
    hide U16;
    hide U24;
    hide U32;
    hide FromU32;
    U32RoundTrip(ivIndex);
    FieldsDetermineBytes(nonce[9..], U32(ivIndex));
    assert nonce == [nonce[0]] + nonce[1..7] + [nonce[7], nonce[8]] + nonce[9..];
  }

  lemma PlaintextIs(plaintext: bytes, p: NetworkPdu)
    requires IsPlaintext(plaintext, p)
    ensures plaintext == U16(p.dst) + p.transportPdu
  {
    U16RoundTrip(p.dst);
    FieldsDetermineBytes(plaintext[..2], U16(p.dst));
    hide U16;
    hide FromU16;
    assert plaintext == plaintext[..2] + plaintext[2..];
  }

  /** Every byte of an encrypted PDU: the IV bit and the NID; the header, masked with the first six
      bytes of the privacy block under the privacy key; destination and transport PDU, sealed under
      the encryption key with a MIC of eight bytes for control and four for access messages. */
  lemma PduLayout(c: Aes, keys: NetKeys, p: NetworkPdu, header: bytes, block: bytes, nonce: bytes, plaintext: bytes)
    requires p.ctl < 2 && EncryptNetworkPdu(c, keys, p).Ok?
    requires IsHeader(header, p) && IsNetworkNonce(nonce, header, keys.ivIndex) && IsPlaintext(plaintext, p)
    requires IsPrivacyBlock(block, keys.ivIndex, EncryptNetworkPdu(c, keys, p).value)
    ensures var pdu := EncryptNetworkPdu(c, keys, p).value;
      && pdu[0] == keys.ivIndex % 2 * 128 + keys.nid
      && pdu[1..7] == Xor(header, c.ecb(keys.privKey, block)[..6])
      && pdu[7..] == c.seal(keys.encKey, nonce, plaintext, if p.ctl == 1 then 8 else 4)
  {
    var pdu := EncryptNetworkPdu(c, keys, p).value;
    var encrypted := Sealed(c, keys, p);
    HeaderIs(header, p);
    NetworkNonceIs(nonce, header, p, keys.ivIndex);
    PlaintextIs(plaintext, p);
    var mask := PrivacyMask(c, keys, encrypted).value;
    FrameParts(FirstByte(keys), Xor(header, mask), encrypted);
    PrivacyBlockIs(block, keys.ivIndex, pdu);
    hide Header;
    hide NetworkNonce;
    hide Xor;
    hide Take;
    hide U16;
    hide U32;
  }

  lemma SameAfterFirst(first: byte, pdu: bytes, block: bytes, ivIndex: u32)
    requires |pdu| >= 14 && IsPrivacyBlock(block, ivIndex, pdu)
    ensures var other := [first] + pdu[1..];
      |other| == |pdu| && other[1..7] == pdu[1..7] && other[7..] == pdu[7..] && IsPrivacyBlock(block, ivIndex, other)
  {
    hide FromU32;
    var other := [first] + pdu[1..];
    assert other[1..7] == pdu[1..7];
    assert other[7..] == pdu[7..];
    assert other[7..14] == pdu[7..14];
  }

  /** The same of every PDU that is accepted, for the fields that are returned. */
  lemma AcceptedPduLayout(c: Aes, keys: NetKeys, pdu: bytes, header: bytes, block: bytes, nonce: bytes,
    plaintext: bytes)
    requires Lawful(c) && DecryptNetworkPdu(c, keys, pdu).Ok? && DecryptNetworkPdu(c, keys, pdu).value.Some?
    requires var p := DecryptNetworkPdu(c, keys, pdu).value.value;
      IsHeader(header, p) && IsNetworkNonce(nonce, header, keys.ivIndex) && IsPlaintext(plaintext, p)
    requires IsPrivacyBlock(block, keys.ivIndex, pdu)
    ensures var p := DecryptNetworkPdu(c, keys, pdu).value.value;
      && p.ctl < 2 && pdu[0] % 128 == keys.nid
      && pdu[1..7] == Xor(header, c.ecb(keys.privKey, block)[..6])
      && pdu[7..] == c.seal(keys.encKey, nonce, plaintext, if p.ctl == 1 then 8 else 4)
  {
    hide EncryptNetworkPdu;
    hide DecryptNetworkPdu;
    hide IsHeader;
    hide IsNetworkNonce;
    hide IsPlaintext;
    hide IsPrivacyBlock;
    hide OnTheWire;
    hide Lawful;
    hide Xor;
    var p := DecryptNetworkPdu(c, keys, pdu).value.value;
    EncryptUndoesDecrypt(c, keys, pdu);
    AcceptedIsLongEnough(c, keys, pdu);
    SameAfterFirst(FirstByte(keys), pdu, block, keys.ivIndex);
    PduLayout(c, keys, p, header, block, nonce, plaintext);
  }

  /** Flipping the IV bit of an accepted PDU gives another PDU that decrypts to the same fields. */
  lemma IvBitIsIgnored(c: Aes, keys: NetKeys, pdu: bytes, first: byte)
    requires |pdu| > 0 && first % 128 == pdu[0] % 128
    ensures DecryptNetworkPdu(c, keys, [first] + pdu[1..]) == DecryptNetworkPdu(c, keys, pdu)
  {
    var other := [first] + pdu[1..];
    if |pdu| >= 10 {
      assert other[7..] == pdu[7..] && other[1..7] == pdu[1..7];
    }
  }

  /** A control PDU as the network layer builds it, but around a plaintext that is too short to
      hold a destination. */
  ghost predicate ShortControl(c: Aes, keys: NetKeys, pdu: bytes,
    ctlTtl: byte, seqNo: nat, src: u16, plaintext: bytes)
  {
    var encrypted := c.seal(keys.encKey, NetworkNonce(ctlTtl, seqNo, src, keys.ivIndex), plaintext, MIC_LEN_CONTROL);
    && 128 <= ctlTtl && seqNo < SEQ_LIMIT && |plaintext| < 2
    && PrivacyMask(c, keys, encrypted).Ok?
    && |pdu| > 0 && pdu[0] % 128 == keys.nid
    && pdu[1..] == Xor(Header(ctlTtl, seqNo, src), PrivacyMask(c, keys, encrypted).value) + encrypted
  }

  lemma HeaderParts(header: bytes)
    requires |header| == 6
    ensures Header(header[0], FromU24(header[1..4]), FromU16(header[4..6])) == header
  {
    hide U16;
    hide U24;
    hide FromU16;
    hide FromU24;
    FieldsFromBytes(header[1..4]);
    FieldsFromBytes(header[4..6]);
    assert [header[0]] + header[1..4] + header[4..6] == header;
  }

  lemma PartsOfHeader(ctlTtl: byte, seqNo: nat, src: u16)
    requires seqNo < SEQ_LIMIT
    ensures var h := Header(ctlTtl, seqNo, src);
      h[0] == ctlTtl && FromU24(h[1..4]) == seqNo && FromU16(h[4..6]) == src
  {
    hide U16;
    hide U24;
    hide FromU16;
    hide FromU24;
    var h := Header(ctlTtl, seqNo, src);
    assert h[1..4] == U24(seqNo) && h[4..6] == U16(src);
    U24RoundTrip(seqNo);
    U16RoundTrip(src);
  }

  lemma OpenRaises(c: Aes, keys: NetKeys, header: bytes, encrypted: bytes) returns (plaintext: bytes)
    requires Lawful(c) && |header| == 6 && |encrypted| >= 7
    requires OpenNetworkPdu(c, keys, header, encrypted).Raised?
    ensures OpenNetworkPdu(c, keys, header, encrypted).error == IndexError
    ensures header[0] >= 128 && |plaintext| < 2
    ensures encrypted == c.seal(keys.encKey,
      NetworkNonce(header[0], FromU24(header[1..4]), FromU16(header[4..6]), keys.ivIndex), plaintext, MIC_LEN_CONTROL)
  {
    hide FromU24;
    hide FromU16;
    hide NetworkNonce;
    var nonce := NetworkNonce(header[0], FromU24(header[1..4]), FromU16(header[4..6]), keys.ivIndex);
    var micLen := MicLen(header[0] / 128);
    plaintext := c.open(keys.encKey, nonce, encrypted, micLen).value;
    assert |encrypted| == |plaintext| + micLen;
  }

  lemma RaisedIsShortControl(c: Aes, keys: NetKeys, pdu: bytes)
    requires Lawful(c) && |pdu| >= 14 && DecryptNetworkPdu(c, keys, pdu).Raised?
    ensures DecryptNetworkPdu(c, keys, pdu).error == IndexError
    ensures exists ctlTtl, seqNo, src, plaintext :: ShortControl(c, keys, pdu, ctlTtl, seqNo, src, plaintext)
  {
    DecryptOpens(c, keys, pdu);
    hide DecryptNetworkPdu;
    hide OpenNetworkPdu;
    hide PrivacyMask;
    hide NetworkNonce;
    hide Header;
    hide Xor;
    hide FromU24;
    hide FromU16;
    var encrypted := pdu[7..];
    var mask := PrivacyMask(c, keys, encrypted).value;
    var header := Xor(pdu[1..7], mask);
    var plaintext := OpenRaises(c, keys, header, encrypted);
    HeaderParts(header);
    XorTwice(pdu[1..7], mask);
    assert pdu[1..] == pdu[1..7] + pdu[7..];
    assert ShortControl(c, keys, pdu, header[0], FromU24(header[1..4]), FromU16(header[4..6]), plaintext);
  }

  lemma ShortControlRaises(c: Aes, keys: NetKeys, pdu: bytes, ctlTtl: byte, seqNo: nat, src: u16, plaintext: bytes)
    requires Lawful(c) && ShortControl(c, keys, pdu, ctlTtl, seqNo, src, plaintext)
    ensures DecryptNetworkPdu(c, keys, pdu) == Raised(IndexError)
    ensures |pdu| == 15 + |plaintext|
  {
    var encrypted := c.seal(keys.encKey, NetworkNonce(ctlTtl, seqNo, src, keys.ivIndex), plaintext, MIC_LEN_CONTROL);
    var mask, header := PrivacyMask(c, keys, encrypted).value, Header(ctlTtl, seqNo, src);
    hide PrivacyMask;
    hide Xor;
    assert pdu == [pdu[0]] + Xor(header, mask) + encrypted;
    FrameParts(pdu[0], Xor(header, mask), encrypted);
    DecryptOpens(c, keys, pdu);
    XorTwice(header, mask);
    PartsOfHeader(ctlTtl, seqNo, src);
    hide DecryptNetworkPdu;
    hide FromU24;
    hide FromU16;
    hide NetworkNonce;
  }

  /** Exactly which PDUs make decryption raise instead of answering: those of this network with 10
      to 13 bytes, and control PDUs built around less than a destination. */
  lemma DecryptRaisesExactlyWhen(c: Aes, keys: NetKeys, pdu: bytes)
    requires Lawful(c)
    ensures DecryptNetworkPdu(c, keys, pdu) == Raised(CryptoError)
      <==> 10 <= |pdu| < 14 && pdu[0] % 128 == keys.nid
    ensures DecryptNetworkPdu(c, keys, pdu) == Raised(IndexError)
      <==> exists ctlTtl, seqNo, src, plaintext :: ShortControl(c, keys, pdu, ctlTtl, seqNo, src, plaintext)
    ensures DecryptNetworkPdu(c, keys, pdu).Raised? ==>
      DecryptNetworkPdu(c, keys, pdu).error in {CryptoError, IndexError}
  {
    if |pdu| >= 14 {
      if DecryptNetworkPdu(c, keys, pdu).Raised? { RaisedIsShortControl(c, keys, pdu); }
    }
    forall ctlTtl, seqNo, src, plaintext | ShortControl(c, keys, pdu, ctlTtl, seqNo, src, plaintext)
      ensures DecryptNetworkPdu(c, keys, pdu) == Raised(IndexError) && |pdu| >= 15
    {
      ShortControlRaises(c, keys, pdu, ctlTtl, seqNo, src, plaintext);
    }
    hide ShortControl;
    hide OpenNetworkPdu;
    hide Xor;
  }

  /** Under every lawful cipher and all keys, such PDUs exist at the lengths 15 and 16 and no other. */
  lemma IndexErrorAtExactly15And16(c: Aes, keys: NetKeys, n: nat)
    requires Lawful(c)
    ensures (exists pdu :: |pdu| == n && DecryptNetworkPdu(c, keys, pdu) == Raised(IndexError)) <==> n in {15, 16}
  {
    forall pdu | |pdu| == n && DecryptNetworkPdu(c, keys, pdu) == Raised(IndexError) ensures n in {15, 16} {
      DecryptRaisesExactlyWhen(c, keys, pdu);
      var ctlTtl, seqNo, src, plaintext :| ShortControl(c, keys, pdu, ctlTtl, seqNo, src, plaintext);
      ShortControlRaises(c, keys, pdu, ctlTtl, seqNo, src, plaintext);
    }
    if n in {15, 16} {
      var plaintext := Zeros(n - 15);
      var pdu := MakeShortControl(c, keys, plaintext);
      ShortControlRaises(c, keys, pdu, 128, 0, 0, plaintext);
    }
    hide DecryptNetworkPdu;
  }

  lemma MakeShortControl(c: Aes, keys: NetKeys, plaintext: bytes) returns (pdu: bytes)
    requires Lawful(c) && |plaintext| < 2
    ensures ShortControl(c, keys, pdu, 128, 0, 0, plaintext)
  {
    var encrypted := c.seal(keys.encKey, NetworkNonce(128, 0, 0, keys.ivIndex), plaintext, MIC_LEN_CONTROL);
    var mask := PrivacyMask(c, keys, encrypted).value;
    pdu := [FirstByte(keys)] + Xor(Header(128, 0, 0), mask) + encrypted;
    hide PrivacyMask;
    hide Xor;
    hide Header;
    FrameParts(FirstByte(keys), Xor(Header(128, 0, 0), mask), encrypted);
    assert pdu[1..] == Xor(Header(128, 0, 0), mask) + encrypted;
  }

  /** Where section 3.8.5.1 of the Mesh Profile puts the fields of the network nonce. */
  lemma NetworkNonceLayout(ctlTtl: byte, seqNo: nat, src: u16, ivIndex: u32)
    requires seqNo < SEQ_LIMIT
    ensures var n := NetworkNonce(ctlTtl, seqNo, src, ivIndex);
      n[0] == 0 && n[1] == ctlTtl && FromU24(n[2..5]) == seqNo && FromU16(n[5..7]) == src &&
      n[7] == n[8] == 0 && FromU32(n[9..13]) == ivIndex
  {
    hide U16;
    hide U24;
    hide U32;
    hide FromU16;
    hide FromU24;
    hide FromU32;
    var n := NetworkNonce(ctlTtl, seqNo, src, ivIndex);
    assert n[2..5] == U24(seqNo) && n[5..7] == U16(src) && n[9..13] == U32(ivIndex);
    U24RoundTrip(seqNo);
    U16RoundTrip(src);
    U32RoundTrip(ivIndex);
  }

  /** Two PDUs sent with different sequence numbers never share a nonce, whatever else differs. */
  lemma NonceDeterminesSequence(ct1: byte, s1: nat, src1: nat, iv1: nat, ct2: byte, s2: nat, src2: nat, iv2: nat)
    requires s1 < SEQ_LIMIT && s2 < SEQ_LIMIT
    requires NetworkNonce(ct1, s1, src1, iv1) == NetworkNonce(ct2, s2, src2, iv2)
    ensures s1 == s2
  {
    SequenceInNonce(ct1, s1, src1, iv1);
    SequenceInNonce(ct2, s2, src2, iv2);
    U24Injective(s1, s2);
    hide NetworkNonce;
  }

  lemma SequenceInNonce(ctlTtl: byte, seqNo: nat, src: nat, ivIndex: nat)
    ensures NetworkNonce(ctlTtl, seqNo, src, ivIndex)[2..5] == U24(seqNo)
  {
  }
}
