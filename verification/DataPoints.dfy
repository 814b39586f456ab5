/** Tuya data points: the four-byte-header TLVs of `protocol.py` and the compact three-byte-header
    form that SIG Mesh vendor messages carry. */
module DataPoints {
  import opened Bytes

  const DP_TYPE_RAW: byte := 0
  const DP_TYPE_BOOLEAN: byte := 1
  const DP_TYPE_VALUE: byte := 2
  const DP_TYPE_STRING: byte := 3
  const DP_TYPE_ENUM: byte := 4

  datatype DpValue = Bool(on: bool) | Int(n: int) | Text(s: string) | Raw(data: bytes)

  /** The text encoding, known by its inverse law only. */
  datatype Utf8 = Utf8(encode: string -> bytes, decode: bytes -> string)

  ghost predicate Lawful(u: Utf8) { forall s :: u.decode(u.encode(s)) == s }

  function Signed32(n: u32): int { if n < 0x8000_0000 then n else n - 0x1_0000_0000 }

  function Unsigned32(n: int): u32
    requires -0x8000_0000 <= n < 0x8000_0000
  {
    if n >= 0 then n else n + 0x1_0000_0000
  }

  // ---- One data point

  function EncodeValue(u: Utf8, v: DpValue): Result<(byte, bytes)> {
    match v
    case Bool(on) => Ok((DP_TYPE_BOOLEAN, [if on then 1 else 0]))
    case Int(n) =>
      if -0x8000_0000 <= n < 0x8000_0000 then Ok((DP_TYPE_VALUE, U32(Unsigned32(n)))) else Raised(ProtocolError)
    case Text(s) => Ok((DP_TYPE_STRING, u.encode(s)))
    case Raw(data) => Ok((DP_TYPE_RAW, data))
  }

  /** `encode_dp_value`: the length field of two bytes limits the value to 65535 bytes. */
  function EncodeDp(u: Utf8, id: nat, v: DpValue): Result<bytes> {
    if !(1 <= id <= 255) then Raised(ProtocolError)
    else
      match EncodeValue(u, v)
      case Raised(e) => Raised(e)
      case Ok((kind, encoded)) =>
        if |encoded| > 0xFFFF then Raised(StructError) else Ok([id, kind] + U16(|encoded|) + encoded)
  }

  function DecodeValue(u: Utf8, kind: byte, raw: bytes): Result<DpValue> {
    if kind == DP_TYPE_BOOLEAN then
      if |raw| != 1 then Raised(MalformedPacketError) else Ok(Bool(raw[0] != 0))
    else if kind == DP_TYPE_VALUE then
      if |raw| != 4 then Raised(MalformedPacketError) else Ok(Int(Signed32(FromU32(raw))))
    else if kind == DP_TYPE_STRING then Ok(Text(u.decode(raw)))
    else if kind == DP_TYPE_ENUM then
      if |raw| != 1 then Raised(MalformedPacketError) else Ok(Int(raw[0]))
    else Ok(Raw(raw))
  }

  /** Size of the data point at the head of the data, when the data holds all of it. */
  function TlvSize(data: bytes): Option<nat> {
    if |data| < 4 || |data| < 4 + FromU16(data[2..4]) then None else Some(4 + FromU16(data[2..4]))
  }

  function DecodeDp(u: Utf8, data: bytes): Result<(byte, DpValue)> {
    match TlvSize(data)
    case None => Raised(MalformedPacketError)
    case Some(size) =>
      match DecodeValue(u, data[1], data[4..size])
      case Raised(e) => Raised(e)
      case Ok(v) => Ok((data[0], v))
  }

  lemma ValueRoundTrip(u: Utf8, v: DpValue)
    requires Lawful(u) && EncodeValue(u, v).Ok?
    ensures DecodeValue(u, EncodeValue(u, v).value.0, EncodeValue(u, v).value.1) == Ok(v)
  {
    if v.Int? { U32RoundTrip(Unsigned32(v.n)); }
  }

  lemma TlvParts(id: byte, kind: byte, encoded: bytes, tail: bytes)
    requires |encoded| <= 0xFFFF
    ensures var tlv := [id, kind] + U16(|encoded|) + encoded;
      TlvSize(tlv + tail) == Some(|tlv|) && (tlv + tail)[..|tlv|] == tlv && (tlv + tail)[|tlv|..] == tail &&
      tlv[0] == id && tlv[1] == kind && tlv[4..|tlv|] == encoded && TlvSize(tlv) == Some(|tlv|)
  {
    var tlv := [id, kind] + U16(|encoded|) + encoded;
    U16RoundTrip(|encoded|);
    assert (tlv + tail)[2..4] == U16(|encoded|) == tlv[2..4];
  }

  lemma DpRoundTrip(u: Utf8, id: nat, v: DpValue, tail: bytes)
    requires Lawful(u) && EncodeDp(u, id, v).Ok?
    ensures var tlv := EncodeDp(u, id, v).value;
      TlvSize(tlv + tail) == Some(|tlv|) && DecodeDp(u, tlv) == Ok((id, v)) &&
      (tlv + tail)[..|tlv|] == tlv && (tlv + tail)[|tlv|..] == tail && |tlv| >= 4
  {
    var tlv := EncodeDp(u, id, v).value;
    var (kind, encoded) := EncodeValue(u, v).value;
    TlvParts(id, kind, encoded, tail);
    ValueRoundTrip(u, v);
    hide DecodeValue;
    hide EncodeValue;
    hide TlvSize;
    assert tlv == [id, kind] + U16(|encoded|) + encoded;
    assert tlv[..|tlv|] == tlv;
  }

  // ---- A whole dictionary

  predicate IsLeast(keys: set<nat>, k: nat) { k in keys && forall j :: j in keys ==> k <= j }

  lemma {:induction false} HasLeast(keys: set<nat>) returns (k: nat)
    requires keys != {}
    ensures IsLeast(keys, k)
    decreases |keys|
  {
    var x :| x in keys;
    var rest := keys - {x};
    assert forall j :: j in keys ==> j == x || j in rest;
    if rest == {} {
      k := x;
    } else {
      var m := HasLeast(rest);
      k := if x < m then x else m;
    }
  }

  function Least(keys: set<nat>): (k: nat)
    requires keys != {}
    ensures IsLeast(keys, k)
  {
    assert exists k :: IsLeast(keys, k) by { var k := HasLeast(keys); }
    var k :| k in keys && IsLeast(keys, k);
    k
  }

  predicate Ascending(s: seq<nat>) { forall i, j :: 0 <= i < j < |s| ==> s[i] < s[j] }

  lemma LeastFirst(keys: set<nat>, k: nat, rest: seq<nat>)
    requires IsLeast(keys, k) && Ascending(rest)
    requires forall j :: j in rest <==> j in keys - {k}
    ensures Ascending([k] + rest)
    ensures forall j :: j in [k] + rest <==> j in keys
  {
    forall i | 0 <= i < |rest| ensures k < rest[i] {
      assert rest[i] in rest;
    }
  }

  /** The order in which the dictionary is written out. */
  function Sorted(keys: set<nat>): (s: seq<nat>)
    ensures forall k :: k in s <==> k in keys
    ensures Ascending(s)
    decreases |keys|
  {
    if keys == {} then []
    else
      var k := Least(keys);
      var rest := Sorted(keys - {k});
      LeastFirst(keys, k, rest);
      [k] + rest
  }

  function EncodeAll(u: Utf8, dps: map<nat, DpValue>, order: seq<nat>): Result<bytes>
    requires forall k :: k in order ==> k in dps
  {
    if order == [] then Ok([])
    else
      var last := |order| - 1;
      match EncodeAll(u, dps, order[..last])
      case Raised(e) => Raised(e)
      case Ok(before) =>
        match EncodeDp(u, order[last], dps[order[last]])
        case Raised(e) => Raised(e)
        case Ok(tlv) => Ok(before + tlv)
  }

  /** `encode_dps_command`. */
  method EncodeDpsCommand(u: Utf8, dps: map<nat, DpValue>) returns (r: Result<bytes>)
    ensures r == EncodeAll(u, dps, Sorted(dps.Keys))
  {
    hide EncodeDp;
    hide Sorted;
    var order := Sorted(dps.Keys);
    var result: bytes := [];
    for i := 0 to |order|
      invariant EncodeAll(u, dps, order[..i]) == Ok(result)
    {
      assert order[..i + 1][..i] == order[..i];
      var tlv := EncodeDp(u, order[i], dps[order[i]]);
      if tlv.Raised? {
        FirstFailure(u, dps, order, i + 1);
        return Raised(tlv.error);
      }
      result := result + tlv.value;
    }
    assert order[..|order|] == order;
    r := Ok(result);
  }

  lemma {:induction false} FirstFailure(u: Utf8, dps: map<nat, DpValue>, order: seq<nat>, n: nat)
    requires n <= |order| && forall k :: k in order ==> k in dps
    requires EncodeAll(u, dps, order[..n]).Raised?
    ensures EncodeAll(u, dps, order) == EncodeAll(u, dps, order[..n])
    decreases |order|
  {
    if n < |order| {
      var last := |order| - 1;
      assert order[..last][..n] == order[..n];
      FirstFailure(u, dps, order[..last], n);
    } else {
      assert order[..n] == order;
    }
  }

  function DecodeAll(u: Utf8, data: bytes, found: map<nat, DpValue>): Result<map<nat, DpValue>>
    decreases |data|
  {
    if data == [] then Ok(found)
    else
      match TlvSize(data)
      case None => Raised(MalformedPacketError)
      case Some(size) =>
        match DecodeDp(u, data[..size])
        case Raised(e) => Raised(e)
        case Ok((id, v)) => DecodeAll(u, data[size..], found[id as nat := v])
  }

  /** `decode_dps_response`. */
  method DecodeDpsResponse(u: Utf8, data: bytes) returns (r: Result<map<nat, DpValue>>)
    ensures r == DecodeAll(u, data, map[])
  {
    hide DecodeDp;
    var result: map<nat, DpValue> := map[];
    var offset := 0;
    assert data[0..] == data;
    while offset < |data|
      invariant offset <= |data|
      invariant DecodeAll(u, data[offset..], result) == DecodeAll(u, data, map[])
    {
      var remaining := data[offset..];
      if |remaining| < 4 { return Raised(MalformedPacketError); }
      var tlvSize := 4 + FromU16(remaining[2..4]);
      if |remaining| < tlvSize { return Raised(MalformedPacketError); }
      var dp := DecodeDp(u, remaining[..tlvSize]);
      if dp.Raised? { return Raised(dp.error); }
      assert remaining[tlvSize..] == data[offset + tlvSize..];
      result := result[dp.value.0 as nat := dp.value.1];
      offset := offset + tlvSize;
    }
    r := Ok(result);
  }

  function Picked(dps: map<nat, DpValue>, order: seq<nat>): map<nat, DpValue>
    requires forall k :: k in order ==> k in dps
  {
    map k | k in order :: dps[k]
  }

  lemma PickedOneMore(dps: map<nat, DpValue>, order: seq<nat>, found: map<nat, DpValue>)
    requires order != [] && (forall k :: k in order ==> k in dps)
    ensures var last := |order| - 1;
      (found + Picked(dps, order[..last]))[order[last] := dps[order[last]]] == found + Picked(dps, order)
  {
    var last := |order| - 1;
    assert order == order[..last] + [order[last]];
  }

  lemma PickedAll(dps: map<nat, DpValue>, order: seq<nat>)
    requires forall k :: k in order <==> k in dps
    ensures map[] + Picked(dps, order) == dps
  {
    assert Picked(dps, order).Keys == dps.Keys;
  }

  lemma {:induction false} DecodeOfEncoded(u: Utf8, dps: map<nat, DpValue>, order: seq<nat>, tail: bytes,
    found: map<nat, DpValue>)
    requires Lawful(u) && (forall k :: k in order ==> k in dps)
    requires EncodeAll(u, dps, order).Ok?
    ensures DecodeAll(u, EncodeAll(u, dps, order).value + tail, found)
      == DecodeAll(u, tail, found + Picked(dps, order))
    decreases |order|
  {
    if order == [] {
      assert EncodeAll(u, dps, order).value + tail == tail;
      assert found + Picked(dps, order) == found;
    } else {
      var last := |order| - 1;
      var front, k := order[..last], order[last];
      var before, tlv := EncodeAll(u, dps, front).value, EncodeDp(u, k, dps[k]).value;
      DpRoundTrip(u, k, dps[k], tail);
      hide EncodeDp;
      hide DecodeDp;
      hide TlvSize;
      assert before + tlv + tail == before + (tlv + tail);
      DecodeOfEncoded(u, dps, front, tlv + tail, found);
      PickedOneMore(dps, order, found);
    }
  }

  lemma {:induction false} EncodesUnlessOneFails(u: Utf8, dps: map<nat, DpValue>, order: seq<nat>)
    requires forall k :: k in order ==> k in dps
    ensures EncodeAll(u, dps, order).Ok? <==> forall k :: k in order ==> EncodeDp(u, k, dps[k]).Ok?
    decreases |order|
  {
    hide EncodeDp;
    if order == [] {
    } else {
      var last := |order| - 1;
      assert order == order[..last] + [order[last]];
      EncodesUnlessOneFails(u, dps, order[..last]);
    }
  }

  /** Whatever the dictionary, when it can be encoded at all decoding gives it back. */
  lemma DictionaryRoundTrip(u: Utf8, dps: map<nat, DpValue>)
    requires Lawful(u)
    ensures EncodeAll(u, dps, Sorted(dps.Keys)).Ok? <==> forall k :: k in dps ==> EncodeDp(u, k, dps[k]).Ok?
    ensures EncodeAll(u, dps, Sorted(dps.Keys)).Ok? ==>
      DecodeAll(u, EncodeAll(u, dps, Sorted(dps.Keys)).value, map[]) == Ok(dps)
  {
    hide EncodeDp;
    hide DecodeDp;
    hide TlvSize;
    var order := Sorted(dps.Keys);
    assert DecodeAll(u, [], dps) == Ok(dps);
    EncodesUnlessOneFails(u, dps, order);
    hide EncodeAll;
    hide DecodeAll;
    hide Sorted;
    if EncodeAll(u, dps, order).Ok? {
      var data := EncodeAll(u, dps, order).value;
      DecodeOfEncoded(u, dps, order, [], map[]);
      assert data + [] == data;
      PickedAll(dps, order);
    }
  }

  // ---- Compact data points

  datatype CompactDp = CompactDp(id: byte, kind: byte, value: bytes)

  /** What the format can carry: values of up to 255 bytes. */
  predicate Encodable(dps: seq<CompactDp>) { forall i :: 0 <= i < |dps| ==> |dps[i].value| < 256 }

  function EncodeCompact(dp: CompactDp): bytes
    requires |dp.value| < 256
  {
    [dp.id, dp.kind, |dp.value|] + dp.value
  }

  function EncodeCompacts(dps: seq<CompactDp>): bytes
    requires Encodable(dps)
  {
    if dps == [] then [] else EncodeCompact(dps[0]) + EncodeCompacts(dps[1..])
  }

  function CompactSize(data: bytes): (size: nat)
    requires |data| >= 3
    ensures size >= 3
  {
    var length: int := data[2];
    3 + length
  }

  /** Nothing, or the beginning of a data point without its end. */
  predicate Incomplete(data: bytes) { |data| < 3 || |data| < CompactSize(data) }

  function ParseCompacts(data: bytes): (dps: seq<CompactDp>)
    ensures Encodable(dps)
    decreases |data|
  {
    if Incomplete(data) then []
    else
      var size := CompactSize(data);
      [CompactDp(data[0], data[1], data[3..size])] + ParseCompacts(data[size..])
  }

  lemma ParseAt(data: bytes, offset: nat)
    requires offset + 3 <= |data|
    ensures var size := CompactSize(data[offset..]);
      ParseCompacts(data[offset..]) ==
        if offset + size > |data| then []
        else [CompactDp(data[offset], data[offset + 1], data[offset + 3..offset + size])]
             + ParseCompacts(data[offset + size..])
  {
    var rest := data[offset..];
    var size := CompactSize(rest);
    if offset + size <= |data| {
      assert rest[3..size] == data[offset + 3..offset + size] && rest[size..] == data[offset + size..];
    }
  }

  /** `_parse_dp_bytes`. */
  method ParseDpBytes(data: bytes) returns (dps: seq<CompactDp>)
    ensures dps == ParseCompacts(data)
  {
    hide ParseCompacts;
    dps := [];
    var offset := 0;
    assert data[0..] == data;
    while offset < |data|
      invariant offset <= |data|
      invariant dps + ParseCompacts(data[offset..]) == ParseCompacts(data)
    {
      if offset + 3 > |data| {
        ParseShort(data[offset..]);
        assert dps + [] == dps;
        return;
      }
      ParseAt(data, offset);
      var id, kind := data[offset], data[offset + 1];
      var dpLen: int := data[offset + 2];
      offset := offset + 3;
      if offset + dpLen > |data| {
        assert dps + [] == dps;
        return;
      }
      dps := dps + [CompactDp(id, kind, data[offset..offset + dpLen])];
      offset := offset + dpLen;
    }
    ParseShort(data[|data|..]);
    assert dps + [] == dps;
  }

  lemma ParseShort(data: bytes)
    requires |data| < 3
    ensures ParseCompacts(data) == []
  {
  }

  lemma ParseFirst(data: bytes)
    requires !Incomplete(data)
    ensures var size := CompactSize(data);
      ParseCompacts(data) == [CompactDp(data[0], data[1], data[3..size])] + ParseCompacts(data[size..])
  {
  }

  lemma EncodeFirst(data: bytes, dps: seq<CompactDp>)
    requires !Incomplete(data) && Encodable(dps)
    ensures var size := CompactSize(data);
      var all := [CompactDp(data[0], data[1], data[3..size])] + dps;
      Encodable(all) && EncodeCompacts(all) == data[..size] + EncodeCompacts(dps)
  {
    var size := CompactSize(data);
    var dp := CompactDp(data[0], data[1], data[3..size]);
    assert EncodeCompact(dp) == data[..size];
    assert ([dp] + dps)[0] == dp && ([dp] + dps)[1..] == dps;
  }

  lemma PrefixAfter(data: bytes, size: nat, written: bytes)
    requires size <= |data| && written <= data[size..]
    ensures data[..size] + written <= data
    ensures data[|data[..size] + written|..] == data[size..][|written|..]
  {
    assert data == data[..size] + data[size..];
  }

  /** Of any bytes at all, parsing keeps the longest run of complete data points: written out again
      they are a prefix of the input, and what follows is incomplete. */
  lemma {:induction false} ParseKeepsLongestPrefix(data: bytes)
    ensures EncodeCompacts(ParseCompacts(data)) <= data
    ensures Incomplete(data[|EncodeCompacts(ParseCompacts(data))|..])
    decreases |data|
  {
    if Incomplete(data) {
      assert data[0..] == data;
    } else {
      hide ParseCompacts;
      hide EncodeCompacts;
      hide Encodable;
      var size := CompactSize(data);
      var dps := ParseCompacts(data[size..]);
      ParseKeepsLongestPrefix(data[size..]);
      ParseFirst(data);
      EncodeFirst(data, dps);
      PrefixAfter(data, size, EncodeCompacts(dps));
    }
  }

  lemma ParseEncoded(dp: CompactDp, rest: bytes)
    requires |dp.value| < 256
    ensures ParseCompacts(EncodeCompact(dp) + rest) == [dp] + ParseCompacts(rest)
  {
    var data := EncodeCompact(dp) + rest;
    assert data[3..3 + |dp.value|] == dp.value && data[3 + |dp.value|..] == rest;
    ParseFirst(data);
    hide ParseCompacts;
  }

  lemma {:induction false} ParseUndoesEncode(dps: seq<CompactDp>, tail: bytes)
    requires Encodable(dps) && Incomplete(tail)
    ensures ParseCompacts(EncodeCompacts(dps) + tail) == dps
  {
    if dps == [] {
      assert EncodeCompacts(dps) + tail == tail;
    } else {
      var rest := EncodeCompacts(dps[1..]) + tail;
      assert EncodeCompacts(dps) + tail == EncodeCompact(dps[0]) + rest;
      ParseUndoesEncode(dps[1..], tail);
      hide EncodeCompacts;
      hide EncodeCompact;
      hide ParseCompacts;
      ParseEncoded(dps[0], rest);
    }
  }

  /** `encode_compact_dp`, the sender's side of the compact form. */
  function EncodeCompactDp(id: int, kind: int, value: int): Result<bytes> {
    if !(1 <= id <= 255) || !(0 <= kind <= 255) then Raised(ProtocolError)
    else if kind == DP_TYPE_BOOLEAN then Ok([id, kind, 1, if value != 0 then 1 else 0])
    else if kind == DP_TYPE_VALUE then
      if 0 <= value <= 0xFFFF_FFFF then Ok([id, kind, 4] + U32(value)) else Raised(ProtocolError)
    else Raised(ProtocolError)
  }

  /** What the sender writes, the parser reads back: the id, the type and the value. */
  lemma CompactDpRoundTrip(id: int, kind: int, value: int)
    requires EncodeCompactDp(id, kind, value).Ok?
    ensures var dps := ParseCompacts(EncodeCompactDp(id, kind, value).value);
      |dps| == 1 && dps[0].id == id && dps[0].kind == kind &&
      (kind == DP_TYPE_VALUE ==> |dps[0].value| == 4 && FromU32(dps[0].value) == value) &&
      (kind == DP_TYPE_BOOLEAN ==> dps[0].value == [if value != 0 then 1 else 0])
  {
    var data := EncodeCompactDp(id, kind, value).value;
    var dp := CompactDp(id, kind, data[3..]);
    assert EncodeCompact(dp) == data;
    assert EncodeCompacts([dp]) == data + [] == data;
    assert data + [] == data;
    ParseUndoesEncode([dp], []);
    if kind == DP_TYPE_VALUE {
      assert data[3..] == U32(value);
      U32RoundTrip(value);
    }
  }

  // ---- The formats, byte by byte

  /** A 32-bit number in two's complement. */
  predicate IsInt(r: Result<bytes>, id: nat, n: int)
    requires id < 256
  {
    if n < -0x8000_0000 || 0x7FFF_FFFF < n then r == Raised(ProtocolError)
    else
      && r.Ok? && |r.value| == 8 && r.value[..4] == [id, 2, 0, 4]
      && FromU32(r.value[4..]) == (if n < 0 then n + 0x1_0000_0000 else n)
  }

  lemma LongLayout(id: nat, kind: byte, value: bytes)
    requires id < 256
    ensures |value| <= 0xFFFF ==>
      [id, kind] + U16(|value|) + value == [id, kind, |value| / 256, |value| % 256] + value
  {
  }

  /** How each kind of value is written, and what is refused. */
  lemma DpLayout(u: Utf8, id: nat, v: DpValue)
    ensures var r := EncodeDp(u, id, v);
      if !(1 <= id <= 255) then r == Raised(ProtocolError)
      else match v
        case Bool(on) => r == Ok([id, 1, 0, 1, if on then 1 else 0])
        case Int(n) => IsInt(r, id, n)
        case Text(s) => IsLong(r, id, 3, u.encode(s))
        case Raw(data) => IsLong(r, id, 0, data)
  {
    assert U16(1) == [0, 1] && U16(4) == [0, 4];
    if 1 <= id <= 255 {
      match v
      case Bool(on) => assert [id, 1] + [0, 1] + [if on then 1 else 0] == [id, 1, 0, 1, if on then 1 else 0];
      case Text(s) => LongLayout(id, 3, u.encode(s));
      case Raw(data) => LongLayout(id, 0, data);
      case _ =>
    }
    if v.Int? && -0x8000_0000 <= v.n < 0x8000_0000 {
      U32RoundTrip(Unsigned32(v.n));
      hide U32;
      hide FromU32;
      if 1 <= id <= 255 {
        var r := EncodeDp(u, id, v).value;
        assert r[..4] == [id, 2] + U16(4) && r[4..] == U32(Unsigned32(v.n));
      }
    }
    hide U32;
    hide U16;
  }

  /** A value with its length in two bytes, most significant first. */
  predicate IsLong(r: Result<bytes>, id: nat, kind: byte, value: bytes)
    requires id < 256
  {
    if |value| > 65535 then r == Raised(StructError)
    else r == Ok([id, kind, |value| / 256, |value| % 256] + value)
  }

  /** How a data point is read, by its type byte: boolean, signed number, text, one-byte enumeration;
      anything else stays as it is. */
  lemma DecodedLayout(u: Utf8, id: byte, kind: byte, hi: byte, lo: byte, raw: bytes)
    requires |raw| == TwoDigits(hi, lo)
    ensures var r := DecodeDp(u, [id, kind, hi, lo] + raw);
      if kind == 1 then r == if |raw| == 1 then Ok((id, Bool(raw[0] != 0))) else Raised(MalformedPacketError)
      else if kind == 2 then
        if |raw| != 4 then r == Raised(MalformedPacketError)
        else
          var n := FromU32(raw);
          r == Ok((id, Int(if n < 0x8000_0000 then n else n - 0x1_0000_0000)))
      else if kind == 3 then r == Ok((id, Text(u.decode(raw))))
      else if kind == 4 then r == if |raw| == 1 then Ok((id, Int(raw[0]))) else Raised(MalformedPacketError)
      else r == Ok((id, Raw(raw)))
  {
    var data := [id, kind, hi, lo] + raw;
    assert data[2..4] == [hi, lo] && data[4..|data|] == raw;
  }

  /** Too short for its header, or for the length that the header announces. */
  predicate IsCutOff(data: bytes) { |data| < 4 || |data| < 4 + TwoDigits(data[2], data[3]) }

  lemma CutOffIsRefused(u: Utf8, data: bytes)
    ensures TlvSize(data) == None <==> IsCutOff(data)
    ensures IsCutOff(data) ==> DecodeDp(u, data) == Raised(MalformedPacketError)
  {
  }

  lemma NothingIn(s: seq<nat>)
    ensures s == [] || exists k :: k in s
  {
    if s != [] { assert s[0] in s; }
  }

  lemma {:induction false} AscendingIsUnique(a: seq<nat>, b: seq<nat>)
    requires Ascending(a) && Ascending(b) && forall k :: k in a <==> k in b
    ensures a == b
    decreases |a|
  {
    if a == [] {
      NothingIn(b);
    } else {
      assert a[|a| - 1] in a;
      var m, n := |a| - 1, |b| - 1;
      assert a[m] in b && b[n] in a;
      forall k ensures k in a[..m] <==> k in b[..n] {
        assert k in a <==> k in a[..m] || k == a[m];
        assert k in b <==> k in b[..n] || k == b[n];
        assert forall i :: 0 <= i < m ==> a[i] < a[m];
        assert forall i :: 0 <= i < n ==> b[i] < b[n];
      }
      AscendingIsUnique(a[..m], b[..n]);
      assert a == a[..m] + [a[m]] && b == b[..n] + [b[n]];
    }
  }

  lemma SortedWithGreatest(keys: set<nat>, k: nat)
    requires forall j :: j in keys ==> j < k
    ensures Sorted(keys + {k}) == Sorted(keys) + [k]
  {
    hide Sorted;
    var a, b := Sorted(keys + {k}), Sorted(keys) + [k];
    forall i | 0 <= i < |Sorted(keys)| ensures b[i] < k { assert b[i] in Sorted(keys); }
    AscendingIsUnique(a, b);
  }

  /** Adding the greatest id appends its data point, and fails where that fails: the dictionary is
      written in ascending order, up to the first id that cannot be encoded. */
  lemma GreatestIsLast(u: Utf8, dps: map<nat, DpValue>, k: nat, v: DpValue)
    requires forall j :: j in dps ==> j < k
    ensures var more := dps[k := v];
      EncodeAll(u, more, Sorted(more.Keys)) ==
        match EncodeAll(u, dps, Sorted(dps.Keys))
        case Raised(e) => Raised(e)
        case Ok(before) =>
          match EncodeDp(u, k, v)
          case Raised(e) => Raised(e)
          case Ok(tlv) => Ok(before + tlv)
    ensures EncodeAll(u, map[], Sorted({})) == Ok([])
  {
    NothingToWrite(u);
    hide Sorted;
    hide EncodeDp;
    hide EncodeAll;
    var more := dps[k := v];
    assert more.Keys == dps.Keys + {k};
    SortedWithGreatest(dps.Keys, k);
    var order := Sorted(dps.Keys);
    SameValues(u, dps, more, order);
    EncodeLast(u, more, order, k);
  }

  lemma NothingToWrite(u: Utf8)
    ensures EncodeAll(u, map[], Sorted({})) == Ok([])
  {
  }

  lemma EncodeLast(u: Utf8, dps: map<nat, DpValue>, order: seq<nat>, k: nat)
    requires k in dps && forall j :: j in order ==> j in dps
    ensures EncodeAll(u, dps, order + [k]) ==
      match EncodeAll(u, dps, order)
      case Raised(e) => Raised(e)
      case Ok(before) =>
        match EncodeDp(u, k, dps[k])
        case Raised(e) => Raised(e)
        case Ok(tlv) => Ok(before + tlv)
  {
    hide EncodeDp;
    assert (order + [k])[..|order|] == order;
  }

  lemma {:induction false} SameValues(u: Utf8, dps: map<nat, DpValue>, more: map<nat, DpValue>, order: seq<nat>)
    requires forall j :: j in order ==> j in dps && j in more && dps[j] == more[j]
    ensures EncodeAll(u, dps, order) == EncodeAll(u, more, order)
    decreases |order|
  {
    hide EncodeDp;
    if order == [] {
    } else {
      SameValues(u, dps, more, order[..|order| - 1]);
    }
  }

  lemma {:induction false} DecodeGoesOn(u: Utf8, data: bytes, more: bytes, found: map<nat, DpValue>)
    requires DecodeAll(u, data, found).Ok?
    ensures DecodeAll(u, data + more, found) == DecodeAll(u, more, DecodeAll(u, data, found).value)
    decreases |data|
  {
    hide DecodeDp;
    if data == [] {
      assert data + more == more;
    } else {
      var size := TlvSize(data).value;
      SizeOfLonger(data, more);
      hide TlvSize;
      assert (data + more)[..size] == data[..size] && (data + more)[size..] == data[size..] + more;
      var dp := DecodeDp(u, data[..size]).value;
      DecodeGoesOn(u, data[size..], more, found[dp.0 as nat := dp.1]);
    }
  }

  lemma SizeOfLonger(data: bytes, more: bytes)
    requires TlvSize(data).Some?
    ensures TlvSize(data + more) == TlvSize(data) && 4 <= TlvSize(data).value <= |data|
  {
    assert (data + more)[2..4] == data[2..4];
  }

  /** One more data point adds its id, or replaces what the id had; one that is cut off or that does
      not fit its type makes the whole response malformed. */
  lemma OneMoreDataPoint(u: Utf8, data: bytes, tlv: bytes)
    requires DecodeAll(u, data, map[]).Ok? && tlv != []
    requires IsCutOff(tlv) || |tlv| == 4 + TwoDigits(tlv[2], tlv[3])
    ensures DecodeAll(u, [], map[]) == Ok(map[])
    ensures DecodeAll(u, data + tlv, map[]) ==
      match DecodeDp(u, tlv)
      case Raised(e) => Raised(e)
      case Ok((id, v)) => Ok(DecodeAll(u, data, map[]).value[id as nat := v])
  {
    DecodeGoesOn(u, data, tlv, map[]);
    CutOffIsRefused(u, tlv);
    hide DecodeDp;
    var found := DecodeAll(u, data, map[]).value;
    if !IsCutOff(tlv) {
      assert TlvSize(tlv) == Some(|tlv|);
      assert tlv[..|tlv|] == tlv && tlv[|tlv|..] == [];
    }
  }

  /** The compact form: id, type and length in a byte each, then the value. */
  lemma CompactLayout(id: byte, kind: byte, value: bytes, rest: bytes)
    requires |value| < 256
    ensures ParseCompacts([id, kind, |value|] + value + rest) == [CompactDp(id, kind, value)] + ParseCompacts(rest)
    ensures ParseCompacts([]) == [] && ParseCompacts([id]) == [] && ParseCompacts([id, kind]) == []
    ensures forall n: nat :: n < |value| ==> ParseCompacts([id, kind, |value|] + value[..n]) == []
  {
    ParseEncoded(CompactDp(id, kind, value), rest);
  }

  /** The sender's compact form, and what it refuses. */
  lemma CompactDpLayout(id: int, kind: int, value: int)
    ensures var r := EncodeCompactDp(id, kind, value);
      if !(1 <= id <= 255) || kind !in {1, 2} || (kind == 2 && !(0 <= value <= 0xFFFF_FFFF)) then
        r == Raised(ProtocolError)
      else if kind == 1 then r == Ok([id, 1, 1, if value != 0 then 1 else 0])
      else r.Ok? && |r.value| == 7 && r.value[..3] == [id, 2, 4] && FromU32(r.value[3..]) == value
  {
    if kind == 2 && 0 <= value <= 0xFFFF_FFFF {
      U32RoundTrip(value);
      hide U32;
      hide FromU32;
    }
  }
}
