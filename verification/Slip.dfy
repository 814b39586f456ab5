/** SLIP framing (RFC 1055) and the reader that cuts a serial stream into packets while carrying
    an unfinished frame from one read to the next. */
module Slip {
  import opened Bytes

  const END: byte := 0xC0
  const ESC: byte := 0xDB
  const ESC_END: byte := 0xDC
  const ESC_ESC: byte := 0xDD

  function Escape(b: byte): (e: bytes)
    ensures END !in e && |e| > 0
  {
    if b == END then [ESC, ESC_END] else if b == ESC then [ESC, ESC_ESC] else [b]
  }

  function Body(data: bytes): bytes {
    if data == [] then [] else Body(data[..|data| - 1]) + Escape(data[|data| - 1])
  }

  function Encode(data: bytes): bytes { [END] + Body(data) + [END] }

  lemma BodyTurn(data: bytes, i: nat)
    requires i < |data|
    ensures [END] + Body(data[..i + 1]) == [END] + Body(data[..i]) + Escape(data[i])
  {
    assert data[..i + 1][..i] == data[..i];
    hide Escape;
  }

  method SlipEncode(data: bytes) returns (encoded: bytes)
    ensures encoded == Encode(data)
  {
    encoded := [END];
    assert [END] + Body(data[..0]) == [END];
    hide Body;
    for i := 0 to |data|
      invariant encoded == [END] + Body(data[..i])
    {
      BodyTurn(data, i);
      if data[i] == END {
        encoded := encoded + [ESC, ESC_END];
      } else if data[i] == ESC {
        encoded := encoded + [ESC, ESC_ESC];
      } else {
        encoded := encoded + [data[i]];
      }
    }
    assert data[..|data|] == data;
    encoded := encoded + [END];
  }

  /** The byte an escape stands for; an unknown escape stands for its second byte. */
  function Unescape(b: byte): byte { if b == ESC_END then END else if b == ESC_ESC then ESC else b }

  function Decode(data: bytes): bytes {
    if data == [] then []
    else if data[0] == ESC then (if |data| == 1 then [] else [Unescape(data[1])] + Decode(data[2..]))
    else if data[0] == END then Decode(data[1..])
    else [data[0]] + Decode(data[1..])
  }

  lemma DecodeFrom(data: bytes, i: nat)
    requires i < |data|
    ensures Decode(data[i..]) ==
      if data[i] != ESC then (if data[i] == END then [] else [data[i]]) + Decode(data[i + 1..])
      else if i + 1 == |data| then []
      else [Unescape(data[i + 1])] + Decode(data[i + 2..])
  {
    assert data[i..][1..] == data[i + 1..];
    if i + 1 < |data| { assert data[i..][2..] == data[i + 2..]; }
  }

  lemma DecodeAll(data: bytes)
    ensures [] + Decode(data[0..]) == Decode(data)
  {
    hide Decode;
    assert data[0..] == data;
  }

  lemma DecodeLast(data: bytes, decoded: bytes)
    requires decoded + Decode(data[|data|..]) == Decode(data)
    ensures decoded == Decode(data)
  {
    assert data[|data|..] == [] && decoded + [] == decoded;
  }

  /** One turn of the decoding loop, from what was decoded before to what is decoded after. */
  lemma DecodeTurn(data: bytes, i: nat, decoded: bytes)
    requires i < |data| && decoded + Decode(data[i..]) == Decode(data)
    ensures data[i] == END ==> decoded + Decode(data[i + 1..]) == Decode(data)
    ensures data[i] != END && data[i] != ESC ==> decoded + [data[i]] + Decode(data[i + 1..]) == Decode(data)
    ensures data[i] == ESC && i + 1 == |data| ==> decoded == Decode(data)
    ensures data[i] == ESC && i + 1 < |data| ==>
      decoded + [Unescape(data[i + 1])] + Decode(data[i + 2..]) == Decode(data)
  {
    hide Decode;
    DecodeFrom(data, i);
    if data[i] == ESC {
      if i + 1 == |data| {
        assert decoded + [] == decoded;
      } else {
        Regroup(decoded, [Unescape(data[i + 1])], Decode(data[i + 2..]));
      }
    } else if data[i] == END {
      assert [] + Decode(data[i + 1..]) == Decode(data[i + 1..]);
    } else {
      Regroup(decoded, [data[i]], Decode(data[i + 1..]));
    }
  }

  lemma Regroup(a: bytes, b: bytes, c: bytes)
    ensures a + (b + c) == a + b + c
  {
  }

  method SlipDecode(data: bytes) returns (decoded: bytes)
    ensures decoded == Decode(data)
  {
    hide Decode;
    DecodeAll(data);
    decoded := [];
    var i := 0;
    while i < |data|
      invariant i <= |data|
      invariant decoded + Decode(data[i..]) == Decode(data)
    {
      DecodeTurn(data, i, decoded);
      if data[i] == ESC {
        i := i + 1;
        if i >= |data| { return; }
        if data[i] == ESC_END {
          decoded := decoded + [END];
        } else if data[i] == ESC_ESC {
          decoded := decoded + [ESC];
        } else {
          decoded := decoded + [data[i]];
        }
      } else if data[i] != END {
        decoded := decoded + [data[i]];
      }
      i := i + 1;
    }
    DecodeLast(data, decoded);
  }

  // ---- Decoding undoes encoding

  lemma {:induction false} BodyCons(b: byte, data: bytes)
    ensures Body([b] + data) == Escape(b) + Body(data)
  {
    hide Escape;
    var all := [b] + data;
    if data == [] {
      assert all == [b] && [b][..0] == [];
    } else {
      var k := |data| - 1;
      assert all[..k + 1] == [b] + data[..k] && all[k + 1] == data[k];
      BodyCons(b, data[..k]);
      assert Escape(b) + Body(data[..k]) + Escape(data[k]) == Escape(b) + (Body(data[..k]) + Escape(data[k]));
    }
  }

  lemma {:induction false} DecodeBody(data: bytes)
    ensures Decode(Body(data)) == data && END !in Body(data) && (Body(data) == [] <==> data == [])
  {
    if data == [] {
    } else {
      var b, rest := data[0], data[1..];
      assert data == [b] + rest;
      BodyCons(b, rest);
      DecodeBody(rest);
      assert Body(data)[|Escape(b)|..] == Body(rest);
    }
  }

  /** The delimiters do not disturb decoding either. */
  lemma DecodeUndoesEncode(data: bytes)
    ensures Decode(Encode(data)) == data
  {
    DecodeBody(data);
    assert Encode(data)[1..] == Body(data) + [END];
    DecodeIgnoresFinalEnd(Body(data));
  }

  lemma {:induction false} DecodeIgnoresFinalEnd(data: bytes)
    ensures Decode(data + [END]) == Decode(data)
      || (data != [] && data[|data| - 1] == ESC)
  {
    if data == [] {
    } else {
      assert (data + [END])[1..] == data[1..] + [END];
      if data[0] == ESC && |data| > 1 {
        assert (data + [END])[2..] == data[2..] + [END];
        DecodeIgnoresFinalEnd(data[2..]);
      } else if data[0] != ESC {
        DecodeIgnoresFinalEnd(data[1..]);
      }
    }
  }

  // ---- The reader

  /** Position of the first END from k on; |s| when there is none. */
  function EndFrom(s: bytes, k: nat): (i: nat)
    requires k <= |s|
    ensures k <= i <= |s| && (i < |s| ==> s[i] == END)
    ensures forall j :: k <= j < i ==> s[j] != END
    decreases |s| - k
  {
    if k == |s| || s[k] == END then k else EndFrom(s, k + 1)
  }

  function EndIndex(s: bytes): (i: nat)
    ensures i <= |s| && (i < |s| ==> s[i] == END)
    ensures forall j :: 0 <= j < i ==> s[j] != END
  {
    EndFrom(s, 0)
  }

  /** The packets in a stream, each a non-empty piece before an END, decoded; and what is left. */
  function Packets(stream: bytes): seq<bytes>
    decreases |stream|
  {
    var i := EndIndex(stream);
    if i == |stream| then []
    else (if i == 0 then [] else [Decode(stream[..i])]) + Packets(stream[i + 1..])
  }

  function Rest(stream: bytes): (r: bytes)
    ensures END !in r
    decreases |stream|
  {
    var i := EndIndex(stream);
    if i == |stream| then stream else Rest(stream[i + 1..])
  }

  lemma FirstFrame(s: bytes)
    requires EndIndex(s) < |s|
    ensures var i := EndIndex(s);
      Packets(s) == (if i == 0 then [] else [Decode(s[..i])]) + Packets(s[i + 1..]) &&
      Rest(s) == Rest(s[i + 1..])
  {
  }

  /** The inner loop of `read_packets`: take every complete frame out of the buffer. */
  method TakeFrames(buffered: bytes) returns (packets: seq<bytes>, buf: bytes)
    ensures packets == Packets(buffered) && buf == Rest(buffered)
  {
    hide Packets;
    hide Rest;
    hide Decode;
    buf := buffered;
    packets := [];
    while EndIndex(buf) < |buf|
      invariant packets + Packets(buf) == Packets(buffered) && Rest(buf) == Rest(buffered)
      decreases |buf|
    {
      FirstFrame(buf);
      var idx := EndIndex(buf);
      var frame := buf[..idx];
      buf := buf[idx + 1..];
      if frame != [] {
        var decoded := SlipDecode(frame);
        packets := packets + [decoded];
      }
    }
    LastPiece(buf);
  }

  /** `read_packets`: the chunks are whatever the serial port happens to return, the buffer is
      carried from one read to the next. */
  method ReadPackets(chunks: seq<bytes>) returns (packets: seq<bytes>, buf: bytes)
    ensures packets == Packets(Concat(chunks)) && buf == Rest(Concat(chunks)) && END !in buf
  {
    packets, buf := [], [];
    for i := 0 to |chunks|
      invariant packets == Packets(Concat(chunks[..i]))
      invariant buf == Rest(Concat(chunks[..i]))
    {
      hide Packets;
      hide Rest;
      var more;
      CutAnywhere(Concat(chunks[..i]), chunks[i]);
      more, buf := TakeFrames(buf + chunks[i]);
      packets := packets + more;
      assert chunks[..i + 1] == chunks[..i] + [chunks[i]];
      ConcatAppend(chunks[..i], chunks[i]);
    }
    assert chunks[..|chunks|] == chunks;
  }

  lemma LastPiece(s: bytes)
    requires EndIndex(s) == |s|
    ensures Packets(s) == [] && Rest(s) == s
  {
  }

  lemma EndIndexIsFirst(s: bytes, i: nat)
    requires i < |s| && s[i] == END && END !in s[..i]
    ensures EndIndex(s) == i
  {
    assert forall k :: 0 <= k < i ==> s[..i][k] == s[k];
  }

  lemma NoPackets(s: bytes, b: bytes)
    requires EndIndex(s) == |s|
    ensures Packets(s) + Packets(s + b) == Packets(s + b) && Rest(s) == s
  {
    LastPiece(s);
    hide Packets;
    hide Rest;
  }

  lemma FirstFrameOfBoth(a: bytes, b: bytes)
    requires EndIndex(a) < |a|
    ensures var i := EndIndex(a);
      EndIndex(a + b) == i && (a + b)[..i] == a[..i] && (a + b)[i + 1..] == a[i + 1..] + b
  {
    var i := EndIndex(a);
    assert (a + b)[..i] == a[..i];
    EndIndexIsFirst(a + b, i);
  }

  /** Where a read happens to end makes no difference to the packets or to what is carried on. */
  lemma {:induction false} CutAnywhere(a: bytes, b: bytes)
    ensures Packets(a + b) == Packets(a) + Packets(Rest(a) + b)
    ensures Rest(a + b) == Rest(Rest(a) + b)
    decreases |a|
  {
    hide Packets;
    hide Rest;
    hide Decode;
    hide EndIndex;
    var i := EndIndex(a);
    if i == |a| {
      NoPackets(a, b);
    } else {
      FirstFrame(a);
      FirstFrameOfBoth(a, b);
      FirstFrame(a + b);
      CutAnywhere(a[i + 1..], b);
    }
  }

  function Stream(packets: seq<bytes>): bytes {
    if packets == [] then [] else Encode(packets[0]) + Stream(packets[1..])
  }

  function NonEmpty(packets: seq<bytes>): seq<bytes> {
    if packets == [] then []
    else (if packets[0] == [] then [] else [packets[0]]) + NonEmpty(packets[1..])
  }

  lemma PacketsOfOne(data: bytes, tail: bytes)
    ensures Packets(Encode(data) + tail) == (if data == [] then [] else [data]) + Packets(tail)
    ensures Rest(Encode(data) + tail) == Rest(tail)
  {
    var s, body := Encode(data) + tail, Body(data);
    var s1 := body + [END] + tail;
    DecodeBody(data);
    assert s[0] == END && s[1..] == s1;
    assert s1[..|body|] == body && s1[|body| + 1..] == tail;
    EndIndexIsFirst(s1, |body|);
  }

  lemma {:induction false} PacketsOfStream(packets: seq<bytes>)
    ensures Packets(Stream(packets)) == NonEmpty(packets) && Rest(Stream(packets)) == []
  {
    if packets == [] {
    } else {
      PacketsOfOne(packets[0], Stream(packets[1..]));
      PacketsOfStream(packets[1..]);
    }
  }

  /** However the encodings of a list of packets are cut into reads, what `ReadPackets` returns is
      exactly the non-empty packets, in order, with nothing carried over. */
  lemma CuttingIsInvisible(packets: seq<bytes>, chunks: seq<bytes>)
    requires Concat(chunks) == Stream(packets)
    ensures Packets(Concat(chunks)) == NonEmpty(packets) && Rest(Concat(chunks)) == []
  {
    PacketsOfStream(packets);
  }

  // ---- The format, byte by byte

  /** The encoding of one byte more: 0xC0 and 0xDB are written as 0xDB 0xDC and 0xDB 0xDD. */
  lemma EncodeLayout(data: bytes, x: byte)
    ensures Encode([]) == [0xC0, 0xC0]
    ensures var before := Encode(data);
      Encode(data + [x]) == before[..|before| - 1]
        + (if x == 0xC0 then [0xDB, 0xDC] else if x == 0xDB then [0xDB, 0xDD] else [x]) + [0xC0]
  {
    assert (data + [x])[..|data|] == data;
    assert Encode(data)[..|Encode(data)| - 1] == [END] + Body(data);
    assert [END] + (Body(data) + Escape(x)) + [END] == [END] + Body(data) + Escape(x) + [END];
  }

  /** How each byte is read: an escape stands for the byte after it, translated back if it is one of
      the two codes; a last escape and all 0xC0 stand for nothing. */
  lemma DecodeLayout(x: byte, rest: bytes)
    ensures Decode([]) == [] && Decode([0xDB]) == [] && Decode([0xC0] + rest) == Decode(rest)
    ensures x != 0xDB && x != 0xC0 ==> Decode([x] + rest) == [x] + Decode(rest)
    ensures Decode([0xDB, x] + rest) == [if x == 0xDC then 0xC0 else if x == 0xDD then 0xDB else x] + Decode(rest)
  {
    assert ([0xC0] + rest)[1..] == rest && ([x] + rest)[1..] == rest && ([0xDB, x] + rest)[2..] == rest;
    assert [0xDB][1..] == [];
  }

  /** How a stream is cut: at every 0xC0, skipping what is empty. */
  lemma FrameLayout(piece: bytes, rest: bytes)
    requires 0xC0 !in piece
    ensures Packets(piece) == [] && Rest(piece) == piece
    ensures Packets(piece + [0xC0] + rest) == (if piece == [] then [] else [Decode(piece)]) + Packets(rest)
    ensures Rest(piece + [0xC0] + rest) == Rest(rest)
  {
    hide Decode;
    var s := piece + [0xC0] + rest;
    assert s[..|piece|] == piece && s[|piece| + 1..] == rest;
    EndIndexIsFirst(s, |piece|);
    FirstFrame(s);
    assert forall k :: 0 <= k < |piece| ==> piece[k] != END;
    LastPiece(piece);
    hide Packets;
    hide Rest;
  }
}
