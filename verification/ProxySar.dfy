/** Provisioning PDUs over GATT: cutting into proxy PDUs and putting them together again
    (Mesh Profile section 6.3). */
module ProxySar {
  import opened Bytes

  type pduType = n: nat | n < 64

  const MAX_PAYLOAD: nat := 19

  const SAR_COMPLETE: nat := 0
  const SAR_FIRST: nat := 1
  const SAR_CONTINUATION: nat := 2
  const SAR_LAST: nat := 3

  /** All PDUs after the first. */
  function Tail(kind: pduType, rest: bytes): (pdus: seq<bytes>)
    requires rest != []
    ensures pdus != []
  {
    if |rest| <= MAX_PAYLOAD then [[SAR_LAST * 64 + kind] + rest]
    else [[SAR_CONTINUATION * 64 + kind] + rest[..MAX_PAYLOAD]] + Tail(kind, rest[MAX_PAYLOAD..])
  }

  function Pdus(kind: pduType, payload: bytes): (pdus: seq<bytes>)
    ensures pdus != []
  {
    if |payload| <= MAX_PAYLOAD then [[SAR_COMPLETE * 64 + kind] + payload]
    else [[SAR_FIRST * 64 + kind] + payload[..MAX_PAYLOAD]] + Tail(kind, payload[MAX_PAYLOAD..])
  }

  /** The PDUs still to come when `offset` bytes of a long payload are sent. */
  ghost function Left(kind: pduType, payload: bytes, offset: nat): seq<bytes>
    requires offset <= |payload|
  {
    if offset == 0 then Pdus(kind, payload)
    else if offset < |payload| then Tail(kind, payload[offset..]) else []
  }

  function SarAt(offset: nat, length: nat): nat {
    if offset == 0 then SAR_FIRST else if length - offset <= MAX_PAYLOAD then SAR_LAST else SAR_CONTINUATION
  }

  lemma NextPdu(kind: pduType, payload: bytes, offset: nat, segments: seq<bytes>)
    requires offset < |payload| && MAX_PAYLOAD < |payload|
    ensures var next := Min(offset + MAX_PAYLOAD, |payload|);
      segments + Left(kind, payload, offset)
        == segments + [[SarAt(offset, |payload|) * 64 + kind] + payload[offset..next]] + Left(kind, payload, next)
  {
    var next := Min(offset + MAX_PAYLOAD, |payload|);
    var pdu := [SarAt(offset, |payload|) * 64 + kind] + payload[offset..next];
    assert payload[offset..][..next - offset] == payload[offset..next];
    assert payload[..MAX_PAYLOAD] == payload[0..MAX_PAYLOAD] && payload[offset..] == payload[offset..|payload|];
    assert payload[offset..][next - offset..] == payload[next..];
    assert Left(kind, payload, offset) == [pdu] + Left(kind, payload, next);
    assert segments + ([pdu] + Left(kind, payload, next)) == segments + [pdu] + Left(kind, payload, next);
  }

  lemma LeftEnds(kind: pduType, payload: bytes)
    ensures |payload| <= MAX_PAYLOAD ==> Pdus(kind, payload) == [[SAR_COMPLETE * 64 + kind] + payload]
    ensures [] + Left(kind, payload, 0) == Pdus(kind, payload)
    ensures payload != [] ==> Left(kind, payload, |payload|) == []
  {
    hide Tail;
  }

  /** `_make_proxy_pdu`. */
  method MakeProxyPdus(kind: pduType, payload: bytes) returns (segments: seq<bytes>)
    ensures segments == Pdus(kind, payload)
  {
    hide Pdus;
    hide Tail;
    hide Left;
    LeftEnds(kind, payload);
    if |payload| <= MAX_PAYLOAD { return [[SAR_COMPLETE * 64 + kind] + payload]; }
    segments := [];
    var offset, first := 0, true;
    while offset < |payload|
      invariant offset <= |payload| && (first <==> offset == 0)
      invariant segments + Left(kind, payload, offset) == Pdus(kind, payload)
    {
      NextPdu(kind, payload, offset, segments);
      var remaining := |payload| - offset;
      var chunk, sar;
      if first {
        chunk, sar, first := payload[offset..offset + MAX_PAYLOAD], SAR_FIRST, false;
      } else if remaining <= MAX_PAYLOAD {
        chunk, sar := payload[offset..], SAR_LAST;
      } else {
        chunk, sar := payload[offset..offset + MAX_PAYLOAD], SAR_CONTINUATION;
      }
      assert sar == SarAt(offset, |payload|) && chunk == payload[offset..Min(offset + MAX_PAYLOAD, |payload|)];
      segments := segments + [[sar * 64 + kind] + chunk];
      offset := offset + |chunk|;
    }
    assert segments + [] == segments;
  }

  datatype Rx = Rx(buffer: bytes, sarBuffer: bytes, complete: bool)

  function Notify(rx: Rx, data: bytes): Rx {
    if data == [] then rx
    else
      var sar, payload := data[0] / 64, data[1..];
      if sar == SAR_COMPLETE then Rx(payload, rx.sarBuffer, true)
      else if sar == SAR_FIRST then Rx(rx.buffer, payload, false)
      else if sar == SAR_CONTINUATION then rx.(sarBuffer := rx.sarBuffer + payload)
      else Rx(rx.sarBuffer + payload, [], true)
  }

  function NotifyAll(rx: Rx, pdus: seq<bytes>): Rx
    decreases |pdus|
  {
    if pdus == [] then rx else NotifyAll(Notify(rx, pdus[0]), pdus[1..])
  }

  class Provisioner {
    var rxBuffer: bytes
    var rxSarBuffer: bytes
    var rxComplete: bool

    function View(): Rx
      reads this
    {
      Rx(rxBuffer, rxSarBuffer, rxComplete)
    }

    /** `_on_notify`. */
    method OnNotify(data: bytes)
      modifies this
      ensures View() == Notify(old(View()), data)
    {
      if data == [] { return; }
      var sar, payload := data[0] / 64, data[1..];
      if sar == SAR_COMPLETE {
        rxBuffer, rxComplete := payload, true;
      } else if sar == SAR_FIRST {
        rxSarBuffer, rxComplete := payload, false;
      } else if sar == SAR_CONTINUATION {
        rxSarBuffer := rxSarBuffer + payload;
      } else {
        rxSarBuffer := rxSarBuffer + payload;
        rxBuffer, rxSarBuffer, rxComplete := rxSarBuffer, [], true;
      }
    }
  }

  lemma {:induction false} TailArrives(rx: Rx, kind: pduType, rest: bytes, k: nat)
    requires rest != [] && !rx.complete && k <= |Tail(kind, rest)|
    ensures NotifyAll(rx, Tail(kind, rest)[..k]).complete <==> k == |Tail(kind, rest)|
    ensures k == |Tail(kind, rest)| ==> NotifyAll(rx, Tail(kind, rest)[..k]).buffer == rx.sarBuffer + rest
    decreases |rest|
  {
    var pdus := Tail(kind, rest);
    if k == 0 {
    } else {
      var rx1 := Notify(rx, pdus[0]);
      assert pdus[..k][0] == pdus[0] && pdus[..k][1..] == pdus[1..][..k - 1];
      assert pdus[0][0] / 64 == if |rest| <= MAX_PAYLOAD then SAR_LAST else SAR_CONTINUATION;
      if |rest| > MAX_PAYLOAD {
        var more := rest[MAX_PAYLOAD..];
        assert pdus[0][1..] == rest[..MAX_PAYLOAD] && pdus[1..] == Tail(kind, more);
        TailArrives(rx1, kind, more, k - 1);
        assert rx.sarBuffer + rest[..MAX_PAYLOAD] + more == rx.sarBuffer + rest;
      } else {
        assert pdus[0][1..] == rest && |pdus| == 1;
      }
    }
  }

  /** From any earlier state of the receiver, the flag goes up with the last PDU and with no PDU
      before it, and then the buffer is the payload. */
  lemma PayloadArrivesWithLastPdu(rx: Rx, kind: pduType, payload: bytes, k: nat)
    requires 1 <= k <= |Pdus(kind, payload)|
    ensures NotifyAll(rx, Pdus(kind, payload)[..k]).complete <==> k == |Pdus(kind, payload)|
    ensures k == |Pdus(kind, payload)| ==> NotifyAll(rx, Pdus(kind, payload)[..k]).buffer == payload
  {
    var pdus := Pdus(kind, payload);
    assert pdus[..k][0] == pdus[0];
    if |payload| <= MAX_PAYLOAD {
      assert pdus[0][0] / 64 == SAR_COMPLETE && pdus[0][1..] == payload && |pdus| == 1;
    } else {
      var rest := payload[MAX_PAYLOAD..];
      assert pdus[0][0] / 64 == SAR_FIRST && pdus[0][1..] == payload[..MAX_PAYLOAD];
      assert pdus[..k][1..] == Tail(kind, rest)[..k - 1];
      TailArrives(Notify(rx, pdus[0]), kind, rest, k - 1);
      assert payload[..MAX_PAYLOAD] + rest == payload;
    }
  }

  lemma {:induction false} TailFits(kind: pduType, rest: bytes)
    requires rest != []
    ensures forall i :: 0 <= i < |Tail(kind, rest)| ==> 1 <= |Tail(kind, rest)[i]| <= 20
    decreases |rest|
  {
    if |rest| <= MAX_PAYLOAD {
    } else {
      TailFits(kind, rest[MAX_PAYLOAD..]);
    }
  }

  /** Every PDU fits the 20 bytes that a minimal connection leaves for a write. */
  lemma PdusFit(kind: pduType, payload: bytes)
    ensures forall i :: 0 <= i < |Pdus(kind, payload)| ==> 1 <= |Pdus(kind, payload)[i]| <= 20
  {
    if |payload| > MAX_PAYLOAD { TailFits(kind, payload[MAX_PAYLOAD..]); }
  }

  // ---- The PDUs, byte by byte

  lemma OneCountLess(n: nat)
    requires n > 19
    ensures (n - 19 + 18) / 19 == (n + 18) / 19 - 1 && (n + 18) / 19 >= 2
  {
  }

  lemma SliceOfRest(s: bytes, i: nat)
    requires i > 0 && 19 * i < |s|
    ensures 19 * (i - 1) <= Min(19 * i, |s| - 19)
    ensures s[19..][19 * (i - 1)..Min(19 * i, |s| - 19)] == s[19 * i..Min(19 * (i + 1), |s|)]
  {
    SliceOfDrop(s, 19, 19 * (i - 1), Min(19 * i, |s| - 19));
  }

  lemma SliceOfDrop(s: bytes, d: nat, lo: nat, hi: nat)
    requires lo <= hi && d + hi <= |s|
    ensures s[d..][lo..hi] == s[d + lo..d + hi]
  {
  }

  lemma CountCovers(n: nat, i: nat)
    requires i < (n + 18) / 19
    ensures 19 * i < n
  {
  }

  lemma {:induction false} TailLayout(kind: pduType, rest: bytes, i: nat)
    requires rest != [] && i < |Tail(kind, rest)|
    ensures var n := (|rest| + 18) / 19;
      && |Tail(kind, rest)| == n
      && Tail(kind, rest)[i] == [64 * (if i == n - 1 then 3 else 2) + kind] + rest[19 * i..Min(19 * (i + 1), |rest|)]
    decreases |rest|
  {
    if |rest| <= 19 {
      assert rest[0..|rest|] == rest;
    } else {
      var more := rest[19..];
      OneCountLess(|rest|);
      TailLayout(kind, more, if i == 0 then 0 else i - 1);
      if i > 0 {
        CountCovers(|rest|, i);
        SliceOfRest(rest, i);
      }
    }
  }

  /** Every PDU: the segmentation type in the two top bits, the PDU type, and 19 bytes of the payload.
      One PDU alone is complete (0); of several the first is 1, the last 3, the others 2. */
  lemma PduLayout(kind: pduType, payload: bytes, i: nat)
    requires i < |Pdus(kind, payload)|
    ensures var n := |Pdus(kind, payload)|;
      && n == (if |payload| <= 19 then 1 else (|payload| + 18) / 19)
      && Pdus(kind, payload)[i]
           == [64 * (if n == 1 then 0 else if i == 0 then 1 else if i == n - 1 then 3 else 2) + kind]
              + payload[19 * i..Min(19 * (i + 1), |payload|)]
  {
    if |payload| <= 19 {
      assert payload[0..|payload|] == payload;
    } else {
      var rest := payload[19..];
      OneCountLess(|payload|);
      hide Tail;
      assert |Pdus(kind, payload)| == 1 + |Tail(kind, rest)|;
      if i == 0 {
        TailLayout(kind, rest, 0);
        assert payload[0..19] == payload[..19];
        assert Pdus(kind, payload)[0] == [64 + kind] + payload[..19];
      } else {
        TailLayout(kind, rest, i - 1);
        CountCovers(|payload|, i);
        SliceOfRest(payload, i);
        assert Pdus(kind, payload)[i] == Tail(kind, rest)[i - 1];
      }
    }
  }

  /** What each segmentation type does to the receiver, in any state and any order: only a complete or a
      last PDU raises the flag and fills the buffer, only a complete one leaves what was collected. */
  lemma NotifyLayout(rx: Rx, kind: pduType, payload: bytes)
    ensures Notify(rx, [kind] + payload) == Rx(payload, rx.sarBuffer, true)
    ensures Notify(rx, [64 + kind] + payload) == Rx(rx.buffer, payload, false)
    ensures Notify(rx, [128 + kind] + payload) == Rx(rx.buffer, rx.sarBuffer + payload, rx.complete)
    ensures Notify(rx, [192 + kind] + payload) == Rx(rx.sarBuffer + payload, [], true)
    ensures Notify(rx, []) == rx
  {
    assert ([kind] + payload)[1..] == payload && ([64 + kind] + payload)[1..] == payload;
    assert ([128 + kind] + payload)[1..] == payload && ([192 + kind] + payload)[1..] == payload;
  }
}
