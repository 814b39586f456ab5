/** The transport layers: nonces of access messages, segmentation, segment headers and
    unsegmented messages (Mesh Profile sections 3.5.2, 3.5.3 and 3.8.5). */
module LowerTransport {
  import opened Bytes
  import opened Cipher
  import opened NetworkLayer

  const SEG_DATA_SIZE: nat := 12
  const MAX_UNSEG_ACCESS_PAYLOAD: nat := 11
  const SEQ_ZERO_LIMIT: nat := 0x2000  // SeqZero is the low 13 bits of the sequence number
  const MAX_SEGMENTS: nat := 32

  datatype MeshKeys = MeshKeys(net: NetKeys, devKey: Key, appKey: Option<Key>)

  /** What a sender is asked to deliver. `aid` is masked to six bits on the way out. */
  datatype Message = Message(
    src: u16, dst: u16, seqStart: u32, akf: bit, aid: nat, szmic: bit, payload: bytes)

  datatype Segment = Segment(seqNo: nat, pdu: bytes)

  datatype SegmentHeader = SegmentHeader(
    akf: bit, aid: nat, szmic: bit, seqZero: nat, segO: nat, segN: nat, data: bytes)

  function SelectKey(keys: MeshKeys, akf: bit): Option<Key> {
    if akf == 1 then keys.appKey else Some(keys.devKey)
  }

  /** The application key for AKF 1, the device key for AKF 0. */
  predicate UsesKey(keys: MeshKeys, akf: bit, key: Key) {
    (akf == 1 ==> keys.appKey == Some(key)) && (akf == 0 ==> keys.devKey == key)
  }

  lemma KeyIsSelected(keys: MeshKeys, akf: bit, key: Key)
    ensures SelectKey(keys, akf) == Some(key) <==> UsesKey(keys, akf, key)
  {
  }

  function AppNonce(akf: bit, szmic: bit, seqNo: nat, src: nat, dst: nat, ivIndex: nat): (n: bytes)
    ensures |n| == 13
  {
    [if akf == 1 then 1 else 2, szmic * 128] + U24(seqNo) + U16(src) + U16(dst) + U32(ivIndex)
  }

  function TransMicLen(szmic: bit): nat { if szmic == 1 then MIC_LEN_CONTROL else MIC_LEN_ACCESS }

  function UpperTransport(c: Aes, key: Key, ivIndex: u32, m: Message): bytes {
    c.seal(key, AppNonce(m.akf, m.szmic, m.seqStart, m.src, m.dst, ivIndex), m.payload, TransMicLen(m.szmic))
  }

  function SegmentCount(length: nat): nat { (length + SEG_DATA_SIZE - 1) / SEG_DATA_SIZE }

  function Chunk(upper: bytes, i: nat): bytes {
    Slice(upper, i * SEG_DATA_SIZE, (i + 1) * SEG_DATA_SIZE)
  }

  /** The 24-bit field after the first header byte, or-ed together as the source does. */
  function Info(szmic: nat, seqZero: nat, segO: nat, segN: nat): nat {
    BitOr(BitOr(BitOr(szmic * 0x80_0000, seqZero * 0x400), segO * 0x20), segN)
  }

  function SegmentPdu(m: Message, upper: bytes, segO: nat, segN: nat): bytes {
    [128 + m.akf * 64 + m.aid % 64]
    + U24(Info(m.szmic, m.seqStart % SEQ_ZERO_LIMIT, segO, segN)) + Chunk(upper, segO)
  }

  /** The segments of a message as one expression. */
  function Segments(c: Aes, key: Key, ivIndex: u32, m: Message): (s: seq<Segment>)
    ensures |s| == SegmentCount(|UpperTransport(c, key, ivIndex, m)|)
  {
    var upper := UpperTransport(c, key, ivIndex, m);
    var n := SegmentCount(|upper|);
    seq(n, i requires 0 <= i < n => Segment(m.seqStart + i, SegmentPdu(m, upper, i, n - 1)))
  }

  method MakeAccessSegmented(c: Aes, key: Key, ivIndex: u32, m: Message) returns (segments: seq<Segment>)
    ensures segments == Segments(c, key, ivIndex, m)
  {
    hide BitOr;
    hide U24;
    hide AppNonce;
    var nonce := AppNonce(m.akf, m.szmic, m.seqStart, m.src, m.dst, ivIndex);
    var upper := c.seal(key, nonce, m.payload, TransMicLen(m.szmic));
    var nSegs := (|upper| + SEG_DATA_SIZE - 1) / SEG_DATA_SIZE;
    var seqZero := m.seqStart % SEQ_ZERO_LIMIT;
    segments := [];
    var segO := 0;
    while segO < nSegs
      invariant segO <= nSegs
      invariant segments == Segments(c, key, ivIndex, m)[..segO]
    {
      var chunk := Slice(upper, segO * SEG_DATA_SIZE, (segO + 1) * SEG_DATA_SIZE);
      var info := BitOr(BitOr(BitOr(m.szmic * 0x80_0000, seqZero * 0x400), segO * 0x20), nSegs - 1);
      var pdu := [128 + m.akf * 64 + m.aid % 64] + U24(info) + chunk;
      segments := segments + [Segment(m.seqStart + segO, pdu)];
      segO := segO + 1;
    }
  }

  /** SZMIC, SeqZero, SegO and SegN out of the 24-bit field. */
  function InfoFields(info: nat): (bit, nat, nat, nat) {
    (info / 0x80_0000 % 2, info / 0x400 % SEQ_ZERO_LIMIT, info / 0x20 % 32, info % 32)
  }

  function ParseSegmentHeader(pdu: bytes): Result<SegmentHeader> {
    if |pdu| < 4 || pdu[0] < 128 then Raised(MalformedPacketError)
    else
      var (szmic, seqZero, segO, segN) := InfoFields(FromU24(pdu[1..4]));
      Ok(SegmentHeader(pdu[0] / 64 % 2, pdu[0] % 64, szmic, seqZero, segO, segN, pdu[4..]))
  }

  // ---- Segment headers

  lemma Powers()
    ensures Pow2(5) == 0x20 && Pow2(10) == 0x400 && Pow2(23) == 0x80_0000
  {
    assert Pow2(15) == 0x8000;
  }

  lemma InfoOfFields(szmic: bit, seqZero: nat, segO: nat, segN: nat)
    requires seqZero < SEQ_ZERO_LIMIT && segO < 32 && segN < 32
    ensures Info(szmic, seqZero, segO, segN) == szmic * 0x80_0000 + seqZero * 0x400 + segO * 0x20 + segN
  {
    hide Pow2;
    hide BitOr;
    Powers();
    OrOfDisjoint(szmic, 23, seqZero * 0x400);
    OrOfDisjoint(szmic * 0x2000 + seqZero, 10, segO * 0x20);
    OrOfDisjoint((szmic * 0x2000 + seqZero) * 0x20 + segO, 5, segN);
  }

  lemma FieldsOfSum(info: nat, szmic: bit, seqZero: nat, segO: nat, segN: nat)
    requires seqZero < SEQ_ZERO_LIMIT && segO < 32 && segN < 32
    requires info == szmic * 0x80_0000 + seqZero * 0x400 + segO * 0x20 + segN
    ensures InfoFields(info % SEQ_LIMIT) == (szmic, seqZero, segO, segN)
  {
    assert info % SEQ_LIMIT == info;
    assert info / 0x80_0000 == szmic;
    assert info / 0x400 == szmic * 0x2000 + seqZero;
    assert info / 0x20 == (szmic * 0x2000 + seqZero) * 32 + segO;
  }

  lemma HeaderOfSegment(m: Message, upper: bytes, segO: nat, segN: nat)
    ensures var info := Info(m.szmic, m.seqStart % SEQ_ZERO_LIMIT, segO, segN) % SEQ_LIMIT;
      var (szmic, seqZero, o, n) := InfoFields(info);
      ParseSegmentHeader(SegmentPdu(m, upper, segO, segN))
        == Ok(SegmentHeader(m.akf, m.aid % 64, szmic, seqZero, o, n, Chunk(upper, segO)))
  {
    var info := Info(m.szmic, m.seqStart % SEQ_ZERO_LIMIT, segO, segN);
    var pdu := SegmentPdu(m, upper, segO, segN);
    assert pdu[1..4] == U24(info) && pdu[4..] == Chunk(upper, segO);
    U24RoundTrip(info);
  }

  /** Up to 32 segments, the receiver reads back from each header exactly what was packed. */
  lemma HeaderRoundTrip(m: Message, upper: bytes, segO: nat, segN: nat)
    requires segO < MAX_SEGMENTS && segN < MAX_SEGMENTS
    ensures ParseSegmentHeader(SegmentPdu(m, upper, segO, segN)) == Ok(SegmentHeader(
      m.akf, m.aid % 64, m.szmic, m.seqStart % SEQ_ZERO_LIMIT, segO, segN, Chunk(upper, segO)))
  {
    HeaderOfSegment(m, upper, segO, segN);
    var seqZero := m.seqStart % SEQ_ZERO_LIMIT;
    InfoOfFields(m.szmic, seqZero, segO, segN);
    FieldsOfSum(Info(m.szmic, seqZero, segO, segN), m.szmic, seqZero, segO, segN);
  }

  /** Nothing checks the 32-segment limit: every single header is readable, and announces the true
      count if and only if there are at most 32 segments. */
  lemma HeadersAreRightUpTo32(c: Aes, key: Key, ivIndex: u32, m: Message, i: nat)
    requires i < |Segments(c, key, ivIndex, m)|
    ensures var segs := Segments(c, key, ivIndex, m);
      ParseSegmentHeader(segs[i].pdu).Ok? &&
      (ParseSegmentHeader(segs[i].pdu).value.segN == |segs| - 1 <==> |segs| <= MAX_SEGMENTS)
  {
    var n := |Segments(c, key, ivIndex, m)|;
    var upper := UpperTransport(c, key, ivIndex, m);
    assert Segments(c, key, ivIndex, m)[i].pdu == SegmentPdu(m, upper, i, n - 1);
    hide Segments;
    hide SegmentPdu;
    if n <= MAX_SEGMENTS {
      HeaderRoundTrip(m, upper, i, n - 1);
    } else {
      HeaderOfSegment(m, upper, i, n - 1);
      hide Info;
    }
  }

  // ---- Segmentation loses nothing

  lemma {:induction false} FirstChunks(upper: bytes, k: nat)
    ensures Concat(seq(k, i requires 0 <= i < k => Chunk(upper, i))) == Take(upper, k * SEG_DATA_SIZE)
  {
    if k == 0 {
    } else {
      var before := seq(k - 1, i requires 0 <= i < k - 1 => Chunk(upper, i));
      FirstChunks(upper, k - 1);
      ConcatAppend(before, Chunk(upper, k - 1));
      assert seq(k, i requires 0 <= i < k => Chunk(upper, i)) == before + [Chunk(upper, k - 1)];
    }
  }

  /** The chunks put back together are the upper transport PDU; the sequence numbers are the
      contiguous range that `send_config_appkey_add` reserves from the payload length alone. */
  lemma SegmentationLosesNothing(c: Aes, key: Key, ivIndex: u32, m: Message)
    requires Lawful(c)
    ensures var segs := Segments(c, key, ivIndex, m);
      var upper := UpperTransport(c, key, ivIndex, m);
      && |segs| == SegmentCount(|m.payload| + TransMicLen(m.szmic)) > 0
      && (forall i :: 0 <= i < |segs| ==> segs[i].seqNo == m.seqStart + i)
      && (forall i :: 0 <= i < |segs| ==> 4 < |segs[i].pdu| <= 4 + SEG_DATA_SIZE)
      && Concat(seq(|segs|, i requires 0 <= i < |segs| => segs[i].pdu[4..])) == upper
  {
    hide BitOr;
    hide U24;
    hide AppNonce;
    hide Concat;
    var segs := Segments(c, key, ivIndex, m);
    var upper := UpperTransport(c, key, ivIndex, m);
    FirstChunks(upper, |segs|);
    forall i | 0 <= i < |segs| ensures segs[i].pdu[4..] == Chunk(upper, i) {
    }
    assert seq(|segs|, i requires 0 <= i < |segs| => segs[i].pdu[4..])
        == seq(|segs|, i requires 0 <= i < |segs| => Chunk(upper, i));
  }

  /** The sender's nonce holds the whole sequence number, the receiver's only SeqZero: they are
      the same exactly when the number fits 13 bits. */
  lemma NoncesAgreeExactlyWhen(m: Message, ivIndex: u32)
    requires m.seqStart < SEQ_LIMIT
    ensures AppNonce(m.akf, m.szmic, m.seqStart % SEQ_ZERO_LIMIT, m.src, m.dst, ivIndex)
      == AppNonce(m.akf, m.szmic, m.seqStart, m.src, m.dst, ivIndex)
      <==> m.seqStart < SEQ_ZERO_LIMIT
  {
    hide U16;
    hide U24;
    hide U32;
    var theirs := AppNonce(m.akf, m.szmic, m.seqStart, m.src, m.dst, ivIndex);
    var ours := AppNonce(m.akf, m.szmic, m.seqStart % SEQ_ZERO_LIMIT, m.src, m.dst, ivIndex);
    assert theirs[2..5] == U24(m.seqStart) && ours[2..5] == U24(m.seqStart % SEQ_ZERO_LIMIT);
    U24Injective(m.seqStart, m.seqStart % SEQ_ZERO_LIMIT);
  }

  /** Where sections 3.8.5.2 and 3.8.5.3 of the Mesh Profile put the fields of the application and
      device nonces: type, ASZMIC in the top bit, sequence number, source, destination, IV index. */
  lemma AppNonceLayout(akf: bit, szmic: bit, seqNo: nat, src: u16, dst: u16, ivIndex: u32)
    requires seqNo < SEQ_LIMIT
    ensures var n := AppNonce(akf, szmic, seqNo, src, dst, ivIndex);
      (n[0] == 1 <==> akf == 1) && (n[0] == 2 <==> akf == 0) && n[1] / 128 == szmic && n[1] % 128 == 0 &&
      FromU24(n[2..5]) == seqNo && FromU16(n[5..7]) == src && FromU16(n[7..9]) == dst &&
      FromU32(n[9..13]) == ivIndex
  {
    hide U16;
    hide U24;
    hide U32;
    hide FromU16;
    hide FromU24;
    hide FromU32;
    var n := AppNonce(akf, szmic, seqNo, src, dst, ivIndex);
    assert n[2..5] == U24(seqNo) && n[5..7] == U16(src) && n[7..9] == U16(dst) && n[9..13] == U32(ivIndex);
    U24RoundTrip(seqNo);
    U16RoundTrip(src);
    U16RoundTrip(dst);
    U32RoundTrip(ivIndex);
  }

  lemma SequenceInAppNonce(akf: bit, szmic: bit, seqNo: nat, src: nat, dst: nat, ivIndex: nat)
    ensures AppNonce(akf, szmic, seqNo, src, dst, ivIndex)[2..5] == U24(seqNo)
  {
    hide U16;
    hide U24;
    hide U32;
  }

  /** Messages sealed under different sequence numbers never share an application or device nonce. */
  lemma AppNonceDeterminesSequence(a: Message, iv1: u32, b: Message, iv2: u32)
    requires a.seqStart < SEQ_LIMIT && b.seqStart < SEQ_LIMIT
    requires AppNonce(a.akf, a.szmic, a.seqStart, a.src, a.dst, iv1)
      == AppNonce(b.akf, b.szmic, b.seqStart, b.src, b.dst, iv2)
    ensures a.seqStart == b.seqStart
  {
    hide AppNonce;
    SequenceInAppNonce(a.akf, a.szmic, a.seqStart, a.src, a.dst, iv1);
    SequenceInAppNonce(b.akf, b.szmic, b.seqStart, b.src, b.dst, iv2);
    U24Injective(a.seqStart, b.seqStart);
  }

  /** The nonce of sections 3.8.5.2 and 3.8.5.3, field by field. */
  predicate IsAppNonce(n: bytes, akf: bit, szmic: bit, seqNo: nat, src: u16, dst: u16, ivIndex: u32) {
    && |n| == 13 && n[0] == (if akf == 1 then 1 else 2) && n[1] == szmic * 128
    && FromU24(n[2..5]) == seqNo % 0x100_0000
    && FromU16(n[5..7]) == src && FromU16(n[7..9]) == dst && FromU32(n[9..]) == ivIndex
  }

  lemma AppNonceIs(n: bytes, akf: bit, szmic: bit, seqNo: nat, src: u16, dst: u16, ivIndex: u32)
    requires IsAppNonce(n, akf, szmic, seqNo, src, dst, ivIndex)
    ensures n == AppNonce(akf, szmic, seqNo, src, dst, ivIndex)
  {
    hide U16;
    hide U24;
    hide U32;
    hide FromU16;
    hide FromU24;
    hide FromU32;
    U24RoundTrip(seqNo);
    U16RoundTrip(src);
    U16RoundTrip(dst);
    U32RoundTrip(ivIndex);
    FieldsDetermineBytes(n[2..5], U24(seqNo));
    FieldsDetermineBytes(n[5..7], U16(src));
    FieldsDetermineBytes(n[7..9], U16(dst));
    FieldsDetermineBytes(n[9..], U32(ivIndex));
    assert n == [n[0], n[1]] + n[2..5] + n[5..7] + n[7..9] + n[9..];
  }

  /** Every byte of a segment: SEG bit, AKF and AID; SZMIC, SeqZero, SegO and SegN in 24 bits; and
      twelve bytes of the payload sealed with a MIC of four bytes, or eight with SZMIC. */
  lemma SegmentLayout(c: Aes, key: Key, ivIndex: u32, m: Message, i: nat, nonce: bytes)
    requires IsAppNonce(nonce, m.akf, m.szmic, m.seqStart, m.src, m.dst, ivIndex)
    requires i < |Segments(c, key, ivIndex, m)| <= 32
    ensures var segs := Segments(c, key, ivIndex, m);
      var pdu := segs[i].pdu;
      var upper := c.seal(key, nonce, m.payload, if m.szmic == 1 then 8 else 4);
      && |segs| == (|upper| + 11) / 12 && segs[i].seqNo == m.seqStart + i && |pdu| >= 4
      && pdu[0] == 128 + m.akf * 64 + m.aid % 64
      && FromU24(pdu[1..4]) == m.szmic * 0x80_0000 + m.seqStart % 0x2000 * 0x400 + i * 0x20 + (|segs| - 1)
      && pdu[4..] == upper[12 * i..Min(12 * (i + 1), |upper|)]
  {
    hide AppNonce;
    hide IsAppNonce;
    hide FromU24;
    hide U24;
    hide BitOr;
    AppNonceIs(nonce, m.akf, m.szmic, m.seqStart, m.src, m.dst, ivIndex);
    var segs := Segments(c, key, ivIndex, m);
    var pdu := segs[i].pdu;
    InfoOfFields(m.szmic, m.seqStart % SEQ_ZERO_LIMIT, i, |segs| - 1);
    var info := Info(m.szmic, m.seqStart % SEQ_ZERO_LIMIT, i, |segs| - 1);
    assert pdu[1..4] == U24(info);
    U24RoundTrip(info);
    hide U24;
    hide Info;
  }

  /** What a segment header is read as: the only fields that add up to its 24 bits. */
  lemma ParsedHeaderLayout(pdu: bytes)
    ensures ParseSegmentHeader(pdu).Ok? <==> |pdu| >= 4 && pdu[0] >= 128
    ensures ParseSegmentHeader(pdu).Raised? ==> ParseSegmentHeader(pdu).error == MalformedPacketError
    ensures ParseSegmentHeader(pdu).Ok? ==>
      var h := ParseSegmentHeader(pdu).value;
      && pdu[0] == 128 + h.akf * 64 + h.aid && h.aid < 64
      && FromU24(pdu[1..4]) == h.szmic * 0x80_0000 + h.seqZero * 0x400 + h.segO * 0x20 + h.segN
      && h.seqZero < 0x2000 && h.segO < 32 && h.segN < 32 && h.data == pdu[4..]
  {
    if |pdu| >= 4 && pdu[0] >= 128 {
      var first: int := pdu[0];
      InfoAddsUp(FromU24(pdu[1..4]));
      assert first == 128 + first / 64 % 2 * 64 + first % 64;
      hide FromU24;
    }
  }

  lemma SplitAt(n: nat, low: nat, high: nat)
    requires (low, high) in {(0x20, 32), (0x400, 0x2000), (0x80_0000, 2)}
    ensures n == n / low * low + n % low && n / low == n / low / high * high + n / low % high
    ensures n / low / high == n / (low * high)
  {
  }

  lemma InfoAddsUp(info: nat)
    requires info < SEQ_LIMIT
    ensures var (szmic, seqZero, segO, segN) := InfoFields(info);
      info == szmic * 0x80_0000 + seqZero * 0x400 + segO * 0x20 + segN
      && szmic < 2 && seqZero < 0x2000 && segO < 32 && segN < 32
  {
    SplitAt(info, 0x20, 32);
    SplitAt(info, 0x400, 0x2000);
    SplitAt(info, 0x80_0000, 2);
  }

  // ---- Unsegmented messages

  function MakeAccessUnsegmented(c: Aes, key: Key, ivIndex: u32, m: Message): Result<bytes>
    requires m.szmic == 0
  {
    if |m.payload| > MAX_UNSEG_ACCESS_PAYLOAD then Raised(ProtocolError)
    else Ok([m.akf * 64 + m.aid % 64] + UpperTransport(c, key, ivIndex, m))
  }

  /** `decrypt_access_payload`: a segment is only recognised, an unsegmented PDU is decrypted. */
  datatype AccessMessage = SegmentedAccess | UnsegmentedAccess(payload: bytes)

  function DecryptAccessPayload(c: Aes, keys: MeshKeys, src: u16, dst: u16, seqNo: nat, pdu: bytes):
    Option<AccessMessage>
  {
    if pdu == [] then None
    else if pdu[0] >= 128 then Some(SegmentedAccess)
    else
      var akf: bit := pdu[0] / 64 % 2;
      match SelectKey(keys, akf)
      case None => None
      case Some(key) =>
        match c.open(key, AppNonce(akf, 0, seqNo, src, dst, keys.net.ivIndex), pdu[1..], MIC_LEN_ACCESS)
        case None => None
        case Some(payload) => Some(UnsegmentedAccess(payload))
  }

  /** Every byte of an unsegmented PDU: AKF and AID, then the payload sealed with a MIC of four bytes. */
  lemma UnsegmentedLayout(c: Aes, key: Key, ivIndex: u32, m: Message, nonce: bytes)
    requires m.szmic == 0 && IsAppNonce(nonce, m.akf, 0, m.seqStart, m.src, m.dst, ivIndex)
    ensures MakeAccessUnsegmented(c, key, ivIndex, m) ==
      if |m.payload| > 11 then Raised(ProtocolError)
      else Ok([m.akf * 64 + m.aid % 64] + c.seal(key, nonce, m.payload, 4))
  {
    AppNonceIs(nonce, m.akf, 0, m.seqStart, m.src, m.dst, ivIndex);
    hide AppNonce;
  }

  /** What decryption makes of a lower transport PDU: nothing else is accepted than a segment, and
      the sealing of the payload under the key that the AKF bit names. */
  lemma AccessAcceptedExactlyWhen(c: Aes, keys: MeshKeys, src: u16, dst: u16, seqNo: nat, pdu: bytes, nonce: bytes,
    payload: bytes)
    requires Lawful(c) && pdu != []
    requires IsAppNonce(nonce, if pdu[0] / 64 % 2 == 1 then 1 else 0, 0, seqNo, src, dst, keys.net.ivIndex)
    ensures DecryptAccessPayload(c, keys, src, dst, seqNo, pdu) == Some(SegmentedAccess) <==> pdu[0] >= 128
    ensures DecryptAccessPayload(c, keys, src, dst, seqNo, pdu) == Some(UnsegmentedAccess(payload)) <==>
      pdu[0] < 128 &&
      exists key :: pdu[1..] == c.seal(key, nonce, payload, 4)
        && (if pdu[0] >= 64 then keys.appKey == Some(key) else keys.devKey == key)
  {
    AppNonceIs(nonce, if pdu[0] / 64 % 2 == 1 then 1 else 0, 0, seqNo, src, dst, keys.net.ivIndex);
    hide AppNonce;
    hide IsAppNonce;
    if pdu[0] < 128 {
      if pdu[0] >= 64 {
        if keys.appKey.Some? {
          var key := keys.appKey.value;
          assert c.open(key, nonce, c.seal(key, nonce, payload, 4), 4) == Some(payload);
          if c.open(key, nonce, pdu[1..], 4) == Some(payload) { assert pdu[1..] == c.seal(key, nonce, payload, 4); }
        }
      } else {
        var key := keys.devKey;
        assert c.open(key, nonce, c.seal(key, nonce, payload, 4), 4) == Some(payload);
        if c.open(key, nonce, pdu[1..], 4) == Some(payload) { assert pdu[1..] == c.seal(key, nonce, payload, 4); }
      }
    }
  }

  /** An unsegmented message comes back whole: its nonce holds all 24 sequence bits on both sides. */
  lemma UnsegmentedRoundTrip(c: Aes, keys: MeshKeys, key: Key, m: Message)
    requires Lawful(c) && m.szmic == 0 && |m.payload| <= MAX_UNSEG_ACCESS_PAYLOAD
    requires UsesKey(keys, m.akf, key)
    ensures var pdu := MakeAccessUnsegmented(c, key, keys.net.ivIndex, m);
      pdu.Ok? && DecryptAccessPayload(c, keys, m.src, m.dst, m.seqStart % SEQ_LIMIT, pdu.value)
        == Some(UnsegmentedAccess(m.payload))
  {
    var upper := UpperTransport(c, key, keys.net.ivIndex, m);
    var pdu := MakeAccessUnsegmented(c, key, keys.net.ivIndex, m).value;
    assert pdu[1..] == upper;
    U24Wraps(m.seqStart);
  }
}
