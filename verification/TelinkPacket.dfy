/** The 20-byte Telink command packet: sequence, truncated MAC, encrypted payload. */
module TelinkPacket {
  import opened Bytes
  import opened Cipher
  import opened TelinkCrypto

  const COMMAND_PACKET_SIZE: nat := 20
  const PAYLOAD_SIZE: nat := 15
  const CHECKSUM_SIZE: nat := 2
  const MAX_PARAM_LEN: nat := 10

  datatype CommandPacket = CommandPacket(sequence: int, destId: int, opcode: int, vendorId: bytes, params: bytes)

  /** Three bytes, least significant first. */
  function SequenceBytes(sequence: nat): (b: bytes)
    ensures |b| == 3
  {
    Reverse(U24(sequence))
  }

  function BuildNonce(mac: bytes, sequence: nat): (n: bytes)
    requires |mac| == 6
    ensures |n| == 8
  {
    Reverse(mac)[..4] + [1] + SequenceBytes(sequence)
  }

  function EncodePayload(p: CommandPacket): (r: Result<bytes>)
    ensures r.Ok? ==> |r.value| == PAYLOAD_SIZE
    ensures r.Ok? <==> |p.vendorId| == 2 && 0 <= p.destId <= 0xFFFF && 0 <= p.opcode <= 0xFF
                       && |p.params| <= MAX_PARAM_LEN
  {
    if |p.vendorId| != 2 || !(0 <= p.destId <= 0xFFFF) || !(0 <= p.opcode <= 0xFF) || |p.params| > MAX_PARAM_LEN
    then Raised(ProtocolError)
    else Ok(Reverse(U16(p.destId)) + [p.opcode] + p.vendorId + p.params + Zeros(10 - |p.params|))
  }

  function EncodeCommandPacket(e: BlockCipher, key: Key, mac: bytes, p: CommandPacket): Result<bytes> {
    if p.sequence < 0 || p.sequence > 0xFF_FFFF then Raised(OverflowError)
    else if |mac| != 6 then Raised(ProtocolError)
    else
      match EncodePayload(p)
      case Raised(err) => Raised(err)
      case Ok(payload) => Ok(Seal(e, key, mac, p.sequence, payload))
  }

  function Seal(e: BlockCipher, key: Key, mac: bytes, sequence: nat, payload: bytes): (r: bytes)
    requires |mac| == 6 && |payload| == PAYLOAD_SIZE
    ensures |r| == COMMAND_PACKET_SIZE
  {
    var nonce := BuildNonce(mac, sequence);
    SequenceBytes(sequence) + Checksum(e, key, nonce, payload)[..CHECKSUM_SIZE] + Crypt(e, key, nonce, payload)
  }

  /** Python's rstrip of zero bytes. */
  function StripZeros(b: bytes): (r: bytes)
    ensures |r| <= |b| && r == b[..|r|] && (r != [] ==> r[|r| - 1] != 0)
    ensures forall i :: |r| <= i < |b| ==> b[i] == 0
  {
    if b != [] && b[|b| - 1] == 0 then StripZeros(b[..|b| - 1]) else b
  }

  function ParsePayload(sequence: nat, payload: bytes): CommandPacket
    requires |payload| == PAYLOAD_SIZE
  {
    CommandPacket(sequence, FromU16(Reverse(payload[..2])), payload[2], payload[3..5], StripZeros(payload[5..]))
  }

  function DecodeCommandPacket(e: BlockCipher, key: Key, mac: bytes, data: bytes): Result<CommandPacket> {
    if |data| != COMMAND_PACKET_SIZE then Raised(MalformedPacketError)
    else if |mac| != 6 then Raised(ProtocolError)
    else
      var sequence := FromU24(Reverse(data[..3]));
      var nonce := BuildNonce(mac, sequence);
      var payload := Crypt(e, key, nonce, data[5..]);
      if Checksum(e, key, nonce, payload)[..CHECKSUM_SIZE] != data[3..5] then Raised(AuthenticationError)
      else Ok(ParsePayload(sequence, payload))
  }

  lemma ReverseTwice(b: bytes)
    ensures Reverse(Reverse(b)) == b
  {
  }

  lemma SequenceBytesRoundTrip(n: nat)
    requires n < SEQ_LIMIT
    ensures FromU24(Reverse(SequenceBytes(n))) == n
  {
    ReverseTwice(U24(n));
    U24RoundTrip(n);
  }

  lemma SealParts(e: BlockCipher, key: Key, mac: bytes, sequence: nat, payload: bytes)
    requires |mac| == 6 && |payload| == PAYLOAD_SIZE
    ensures var data := Seal(e, key, mac, sequence, payload);
      var nonce := BuildNonce(mac, sequence);
      data[..3] == SequenceBytes(sequence) &&
      data[3..5] == Checksum(e, key, nonce, payload)[..CHECKSUM_SIZE] &&
      data[5..] == Crypt(e, key, nonce, payload)
  {
  }

  lemma StripOfPadded(params: bytes, n: nat)
    ensures StripZeros(params + Zeros(n)) == StripZeros(params)
  {
    var a, b := StripZeros(params + Zeros(n)), StripZeros(params);
    var all := params + Zeros(n);
    assert forall i :: |params| <= i < |all| ==> all[i] == 0;
    assert forall i :: |b| <= i < |params| ==> all[i] == params[i];
    assert a != [] ==> all[|a| - 1] != 0;
    assert b != [] ==> all[|b| - 1] == b[|b| - 1];
    assert b == all[..|b|];
  }

  lemma ParseUndoesPayload(p: CommandPacket)
    requires EncodePayload(p).Ok? && 0 <= p.sequence
    ensures ParsePayload(p.sequence, EncodePayload(p).value) == p.(params := StripZeros(p.params))
  {
    hide FromU16;
    hide U16;
    hide StripZeros;
    var payload := EncodePayload(p).value;
    PayloadParts(Reverse(U16(p.destId)), p.opcode, p.vendorId, p.params + Zeros(10 - |p.params|));
    assert payload == Reverse(U16(p.destId)) + [p.opcode] + p.vendorId + (p.params + Zeros(10 - |p.params|));
    ReverseTwice(U16(p.destId));
    U16RoundTrip(p.destId);
    StripOfPadded(p.params, 10 - |p.params|);
  }

  lemma PayloadParts(dest: bytes, opcode: byte, vendorId: bytes, params: bytes)
    requires |dest| == 2 && |vendorId| == 2 && |params| == 10
    ensures var payload := dest + [opcode] + vendorId + params;
      |payload| == PAYLOAD_SIZE && payload[..2] == dest && payload[2] == opcode &&
      payload[3..5] == vendorId && payload[5..] == params
  {
  }

  lemma PayloadUndoesParse(sequence: nat, payload: bytes)
    requires |payload| == PAYLOAD_SIZE
    ensures EncodePayload(ParsePayload(sequence, payload)) == Ok(payload)
  {
    hide U16;
    hide FromU16;
    hide Reverse;
    hide StripZeros;
    var p := ParsePayload(sequence, payload);
    FieldsFromBytes(Reverse(payload[..2]));
    ReverseTwice(payload[..2]);
    assert p.params + Zeros(10 - |p.params|) == payload[5..];
    assert payload[..2] + [payload[2]] + payload[3..5] + payload[5..] == payload;
    assert payload[..2] + [payload[2]] + payload[3..5] + p.params + Zeros(10 - |p.params|)
        == payload[..2] + [payload[2]] + payload[3..5] + payload[5..];
  }

  /** Every packet that can be encoded verifies and decodes to the command it was made from, with
      the zero bytes at the end of the parameters gone. */
  lemma DecodeUndoesEncode(e: BlockCipher, key: Key, mac: bytes, p: CommandPacket)
    requires EncodeCommandPacket(e, key, mac, p).Ok?
    ensures DecodeCommandPacket(e, key, mac, EncodeCommandPacket(e, key, mac, p).value)
      == Ok(p.(params := StripZeros(p.params)))
  {
    var payload := EncodePayload(p).value;
    SealParts(e, key, mac, p.sequence, payload);
    SequenceBytesRoundTrip(p.sequence);
    CryptTwice(e, key, BuildNonce(mac, p.sequence), payload);
    ParseUndoesPayload(p);
    hide ParsePayload;
    hide EncodePayload;
    hide Checksum;
    hide BuildNonce;
    hide SequenceBytes;
  }

  /** The converse: encoding what was decoded gives back the packet, byte for byte. */
  lemma EncodeUndoesDecode(e: BlockCipher, key: Key, mac: bytes, data: bytes)
    requires DecodeCommandPacket(e, key, mac, data).Ok?
    ensures EncodeCommandPacket(e, key, mac, DecodeCommandPacket(e, key, mac, data).value) == Ok(data)
  {
    hide Checksum;
    hide EncodePayload;
    hide ParsePayload;
    hide FromU24;
    var sequence := FromU24(Reverse(data[..3]));
    var payload := Crypt(e, key, BuildNonce(mac, sequence), data[5..]);
    PayloadUndoesParse(sequence, payload);
    ParsedSequence(sequence, payload);
    SealAgain(e, key, mac, data, sequence, payload);
  }

  lemma ParsedSequence(sequence: nat, payload: bytes)
    requires |payload| == PAYLOAD_SIZE
    ensures ParsePayload(sequence, payload).sequence == sequence
  {
  }

  lemma SealAgain(e: BlockCipher, key: Key, mac: bytes, data: bytes, sequence: nat, payload: bytes)
    requires |mac| == 6 && |data| == COMMAND_PACKET_SIZE && sequence == FromU24(Reverse(data[..3]))
    requires payload == Crypt(e, key, BuildNonce(mac, sequence), data[5..])
    requires Checksum(e, key, BuildNonce(mac, sequence), payload)[..CHECKSUM_SIZE] == data[3..5]
    ensures Seal(e, key, mac, sequence, payload) == data
  {
    hide BuildNonce;
    hide Checksum;
    hide Crypt;
    hide FromU24;
    hide SequenceBytes;
    SequenceBytesFromBytes(data[..3]);
    CryptTwice(e, key, BuildNonce(mac, sequence), data[5..]);
    assert data[..3] + data[3..5] + data[5..] == data;
  }

  lemma SequenceBytesFromBytes(b: bytes)
    requires |b| == 3
    ensures SequenceBytes(FromU24(Reverse(b))) == b
  {
    FieldsFromBytes(Reverse(b));
    ReverseTwice(b);
  }

  /** With one MAC address, different sequence numbers give different nonces. */
  lemma NoncesDiffer(mac: bytes, s1: nat, s2: nat)
    requires |mac| == 6 && s1 < SEQ_LIMIT && s2 < SEQ_LIMIT && s1 != s2
    ensures BuildNonce(mac, s1) != BuildNonce(mac, s2)
  {
    assert BuildNonce(mac, s1)[5..] == SequenceBytes(s1) && BuildNonce(mac, s2)[5..] == SequenceBytes(s2);
    SequenceBytesRoundTrip(s1);
    SequenceBytesRoundTrip(s2);
    hide BuildNonce;
    hide FromU24;
    hide SequenceBytes;
  }

  // ---- The packet, byte by byte

  /** Three bytes, least significant first. */
  predicate IsLittle24(b: bytes, n: int) {
    |b| == 3 && ThreeDigits(b[2], b[1], b[0]) == n
  }

  /** The last four bytes of the MAC address turned round, a one, the sequence number. */
  predicate IsNonce(n: bytes, mac: bytes, sequence: int) {
    && |mac| == 6 && |n| == 8
    && n[0] == mac[5] && n[1] == mac[4] && n[2] == mac[3] && n[3] == mac[2] && n[4] == 1
    && IsLittle24(n[5..], sequence)
  }

  /** Destination, opcode, vendor, and parameters filled up with zeros. */
  predicate IsPayload(b: bytes, p: CommandPacket) {
    && |b| == 15 && TwoDigits(b[1], b[0]) == p.destId && b[2] == p.opcode && b[3..5] == p.vendorId
    && |p.params| <= 10 && b[5..] == p.params + Zeros(10 - |p.params|)
  }

  lemma FromReversed(b: bytes)
    requires |b| == 3
    ensures FromU24(Reverse(b)) == ThreeDigits(b[2], b[1], b[0])
  {
  }

  lemma Little24Is(b: bytes, n: nat)
    requires n < SEQ_LIMIT
    ensures IsLittle24(b, n) <==> b == SequenceBytes(n)
  {
    hide U24;
    hide FromU24;
    hide Reverse;
    hide ThreeDigits;
    U24RoundTrip(n);
    ReverseTwice(U24(n));
    if |b| == 3 {
      FromReversed(b);
      FieldsDetermineBytes(Reverse(b), U24(n));
      ReverseTwice(b);
    }
  }

  lemma NonceIs(n: bytes, mac: bytes, sequence: nat)
    requires IsNonce(n, mac, sequence) && sequence < SEQ_LIMIT
    ensures n == BuildNonce(mac, sequence)
  {
    Little24Is(n[5..], sequence);
    hide SequenceBytes;
    hide IsLittle24;
    assert n == n[..4] + [n[4]] + n[5..];
  }

  lemma PayloadIs(b: bytes, p: CommandPacket)
    requires IsPayload(b, p)
    ensures EncodePayload(p) == Ok(b)
  {
    U16RoundTrip(p.destId);
    hide U16;
    FieldsDetermineBytes(Reverse(b[..2]), U16(p.destId));
    ReverseTwice(b[..2]);
    assert b[..2] + [b[2]] + b[3..5] + b[5..] == b;
    assert b[..2] + [b[2]] + b[3..5] + p.params + Zeros(10 - |p.params|) == b[..2] + [b[2]] + b[3..5] + b[5..];
    hide Reverse;
  }

  /** Every byte of an encoded packet: the sequence number, two bytes of the checksum of the payload,
      and the payload encrypted, both under the nonce. */
  lemma PacketLayout(e: BlockCipher, key: Key, mac: bytes, p: CommandPacket, nonce: bytes, payload: bytes)
    requires 0 <= p.sequence <= 0xFF_FFFF && IsNonce(nonce, mac, p.sequence) && IsPayload(payload, p)
    ensures var r := EncodeCommandPacket(e, key, mac, p);
      && r.Ok? && |r.value| == 20 && IsLittle24(r.value[..3], p.sequence)
      && r.value[3..5] == Checksum(e, key, nonce, payload)[..2]
      && r.value[5..] == Crypt(e, key, nonce, payload)
  {
    hide Checksum;
    hide Crypt;
    NonceIs(nonce, mac, p.sequence);
    PayloadIs(payload, p);
    hide EncodePayload;
    hide BuildNonce;
    SealParts(e, key, mac, p.sequence, payload);
    Little24Is(SequenceBytes(p.sequence), p.sequence);
    hide SequenceBytes;
    hide IsLittle24;
  }

  predicate IsCommand(p: CommandPacket) {
    |p.vendorId| == 2 && 0 <= p.destId <= 0xFFFF && 0 <= p.opcode <= 0xFF && |p.params| <= 10
  }

  /** What cannot be encoded, and how it is refused. */
  lemma EncodeRaisesExactlyWhen(e: BlockCipher, key: Key, mac: bytes, p: CommandPacket)
    ensures var r := EncodeCommandPacket(e, key, mac, p);
      && (r == Raised(OverflowError) <==> !(0 <= p.sequence <= 0xFF_FFFF))
      && (r == Raised(ProtocolError) <==> 0 <= p.sequence <= 0xFF_FFFF && !(|mac| == 6 && IsCommand(p)))
      && (r.Raised? ==> r.error in {OverflowError, ProtocolError})
  {
    hide Seal;
  }

  /** A packet is accepted if and only if it is the encoding of some command; any other of 20 bytes is
      refused as not authentic. */
  lemma DecodeAcceptsExactlyEncodings(e: BlockCipher, key: Key, mac: bytes, data: bytes)
    ensures var r := DecodeCommandPacket(e, key, mac, data);
      && (r.Ok? <==> exists p :: EncodeCommandPacket(e, key, mac, p) == Ok(data))
      && (r == Raised(MalformedPacketError) <==> |data| != 20)
      && (r == Raised(ProtocolError) <==> |data| == 20 && |mac| != 6)
      && (r.Raised? ==> r.error in {MalformedPacketError, ProtocolError, AuthenticationError})
  {
    hide Checksum;
    hide Crypt;
    hide ParsePayload;
    hide BuildNonce;
    if DecodeCommandPacket(e, key, mac, data).Ok? { EncodeUndoesDecode(e, key, mac, data); }
    forall p | EncodeCommandPacket(e, key, mac, p) == Ok(data) ensures DecodeCommandPacket(e, key, mac, data).Ok? {
      DecodeUndoesEncode(e, key, mac, p);
    }
    hide EncodeCommandPacket;
  }
}
