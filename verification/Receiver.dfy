/** The receiving half of a device object: its buffers are objects filled in place, its maps and
    lists are reassigned. Every method is proved to do what the functions of Reassembly say. */
module Receiver {
  import opened Bytes
  import opened Cipher
  import opened NetworkLayer
  import opened LowerTransport
  import opened Reassembly

  class ReassemblyBuffer {
    const src: u16
    const dst: u16
    const akf: bit
    const aid: nat
    const szmic: bit
    const seqZero: nat
    const segN: nat
    const createdAt: real
    var segments: map<nat, bytes>

    constructor (src: u16, dst: u16, h: SegmentHeader, now: real)
      ensures View() == NewBuffer(src, dst, h, now)
    {
      this.src, this.dst, this.seqZero, this.aid := src, dst, h.seqZero, h.aid;
      this.akf, this.szmic, this.segN, this.createdAt := h.akf, h.szmic, h.segN, now;
      this.segments := map[];
    }

    ghost function View(): Buffer
      reads this
    {
      Buffer(src, dst, akf, aid, szmic, seqZero, segN, segments, createdAt)
    }
  }

  class SegmentReceiver {
    const c: Aes
    var keys: Option<MeshKeys>  // None once the device is disconnected
    var segmentBuffers: map<BufferKey, ReassemblyBuffer>
    var pendingResponses: seq<Pending>
    var events: seq<Event>
    ghost var handedUp: seq<HandUp>

    constructor (c: Aes, keys: Option<MeshKeys>)
      ensures Valid() && View() == State(map[], [], [], []) && this.keys == keys && this.c == c
    {
      this.c, this.keys := c, keys;
      segmentBuffers, pendingResponses, events, handedUp := map[], [], [], [];
    }

    /** Every buffer is stored under the key made of its own fields, so no two keys share one. */
    ghost predicate Valid()
      reads this
    {
      forall k :: k in segmentBuffers ==> var b := segmentBuffers[k]; k == BufferKey(b.src, b.dst, b.seqZero, b.aid)
    }

    ghost function Buffers(): (m: map<BufferKey, Buffer>)
      reads this`segmentBuffers, segmentBuffers.Values
      ensures m.Keys == segmentBuffers.Keys
      ensures forall k :: k in segmentBuffers ==> m[k] == segmentBuffers[k].View()
    {
      map k | k in segmentBuffers :: segmentBuffers[k].View()
    }

    ghost function View(): State
      reads this, segmentBuffers.Values
    {
      State(Buffers(), pendingResponses, events, handedUp)
    }

    /** `reassemble_and_decrypt_segments`. */
    method ReassembleAndDecryptSegments(buf: ReassemblyBuffer) returns (payload: Option<bytes>)
      requires keys.Some?
      ensures payload == Reassemble(c, keys.value, buf.View())
    {
      var upper: bytes := [];
      var i := 0;
      while i < buf.segN + 1
        invariant i <= buf.segN + 1
        invariant JoinChunks(buf.segments, i) == Some(upper)
      {
        if i !in buf.segments {
          MissingChunk(buf.segments, i, buf.segN + 1);
          return None;
        }
        upper := upper + buf.segments[i];
        i := i + 1;
      }
      var key := SelectKey(keys.value, buf.akf);
      if key.None? { return None; }
      var nonce := AppNonce(buf.akf, buf.szmic, buf.seqZero, buf.src, buf.dst, keys.value.net.ivIndex);
      payload := c.open(key.value, nonce, upper, TransMicLen(buf.szmic));
    }

    /** `_dispatch_access_payload_unlocked`. */
    method DispatchUnlocked(opcode: nat, params: bytes)
      modifies this`pendingResponses, this`events
      ensures View() == Dispatch(old(View()), opcode, params)
    {
      hide FirstWaiting;
      hide Route;
      hide Buffers;
      var i := 0;
      while i < |pendingResponses| && pendingResponses[i].opcode != opcode
        invariant i <= |pendingResponses|
        invariant forall j :: 0 <= j < i ==> pendingResponses[j].opcode != opcode
      {
        i := i + 1;
      }
      assert i == FirstWaiting(pendingResponses, opcode);
      if i < |pendingResponses| {
        var waiter := pendingResponses[i];
        pendingResponses := pendingResponses[..i] + pendingResponses[i + 1..];
        if waiter.done {
          assert events + [] == events;
        } else {
          events := events + [Resolved(waiter, params)];
        }
      } else {
        events := events + Route(opcode, params);
      }
    }

    /** `_dispatch_access_payload`; `key` only names the buffer in the ghost log. */
    method DispatchAccessPayload(ghost key: Option<BufferKey>, src: u16, payload: bytes)
      modifies this`pendingResponses, this`events, this`handedUp
      ensures View() == HandedUp(old(View()), key, src, payload)
      ensures Answered(old(View()), View(), payload)
    {
      hide Answered;
      hide Buffers;
      HandedUpAnswers(View(), key, src, payload);
      hide ParseAccessOpcode;
      hide Dispatch;
      handedUp := handedUp + [HandUp(key, src, payload)];
      match ParseAccessOpcode(payload)
      case Raised(_) =>
      case Ok((opcode, params)) => DispatchUnlocked(opcode, params);
    }

    /** `_complete_reassembly`: the buffer goes before anything else is tried. */
    method CompleteReassembly(key: BufferKey)
      requires Valid() && keys.Some? && key in segmentBuffers
      modifies this`segmentBuffers, this`pendingResponses, this`events, this`handedUp
      ensures Valid() && segmentBuffers == old(segmentBuffers) - {key}
      ensures View() == Complete(c, keys.value, old(View()), key)
    {
      hide Reassemble;
      hide HandedUp;
      hide Complete;
      hide Buffers;
      var buf := segmentBuffers[key];
      segmentBuffers := segmentBuffers - {key};
      assert Buffers() == old(Buffers()) - {key};
      var payload := ReassembleAndDecryptSegments(buf);
      CompleteIs(c, keys.value, old(View()), key, payload);
      ghost var st1 := View();
      assert st1 == old(View()).(buffers := old(View()).buffers - {key});
      if payload.Some? {
        DispatchAccessPayload(Some(key), buf.src, payload.value);
      }
    }

    /** `_clean_stale_buffers`: list the stale keys, then delete them one by one. */
    method CleanStaleBuffers(now: real)
      requires Valid()
      modifies this`segmentBuffers
      ensures Valid() && segmentBuffers.Keys <= old(segmentBuffers).Keys
      ensures forall k :: k in old(segmentBuffers) ==>
        (k in segmentBuffers <==> now - old(segmentBuffers)[k].createdAt <= 10.0)
      ensures forall k :: k in segmentBuffers ==> segmentBuffers[k] == old(segmentBuffers)[k]
      ensures View() == old(View()).(buffers := Swept(old(View()).buffers, now))
    {
      var stale := set k | k in segmentBuffers && now - segmentBuffers[k].createdAt > REASSEMBLY_TIMEOUT;
      ghost var all := stale;
      while stale != {}
        invariant stale <= all && segmentBuffers == old(segmentBuffers) - (all - stale)
        decreases |stale|
      {
        var k :| k in stale;
        RemoveOneMore(old(segmentBuffers), all, stale, k);
        segmentBuffers := segmentBuffers - {k};
        stale := stale - {k};
      }
      hide Buffers;
      assert Buffers() == Swept(old(Buffers()), now);
    }

    /** The buffer of a segment is found, or made when there is none. */
    method FindBuffer(src: u16, dst: u16, h: SegmentHeader, arrived: real)
      requires Valid()
      modifies this`segmentBuffers
      ensures Valid() && KeyFor(src, dst, h) in segmentBuffers
      ensures forall k :: k in segmentBuffers ==>
        segmentBuffers[k] in old(segmentBuffers.Values) || fresh(segmentBuffers[k])
      ensures var b := BufferFor(old(View()), src, dst, h, arrived);
        View() == old(View()).(buffers := old(View()).buffers[KeyFor(src, dst, h) := b])
    {
      hide Buffers;
      var key := KeyFor(src, dst, h);
      if key in segmentBuffers {
        assert Buffers() == old(Buffers())[key := old(Buffers())[key]];
      } else {
        var buf := new ReassemblyBuffer(src, dst, h, arrived);
        segmentBuffers := segmentBuffers[key := buf];
        assert Buffers() == old(Buffers())[key := NewBuffer(src, dst, h, arrived)];
      }
    }

    /** Filling a stored buffer in place reaches the object through one key only. */
    method PutChunk(key: BufferKey, i: nat, chunk: bytes)
      requires Valid() && key in segmentBuffers
      modifies segmentBuffers[key]
      ensures Valid()
      ensures var b := old(View()).buffers[key];
        View() == old(View()).(buffers := old(View()).buffers[key := b.(segments := b.segments[i := chunk])])
    {
      hide Buffers;
      var buf := segmentBuffers[key];
      ghost var filled := Buffers()[key := buf.View().(segments := buf.segments[i := chunk])];
      assert forall k :: k in segmentBuffers && k != key ==> segmentBuffers[k] != buf;
      buf.segments := buf.segments[i := chunk];
      assert forall k :: k in segmentBuffers ==> segmentBuffers[k].View() == filled[k];
      assert Buffers() == filled;
    }

    /** The first half of `_handle_segment`: find or make the buffer and put the chunk in. */
    method FileChunk(src: u16, dst: u16, h: SegmentHeader, arrived: real)
      requires Valid()
      modifies this`segmentBuffers, segmentBuffers.Values
      ensures Valid() && KeyFor(src, dst, h) in segmentBuffers
      ensures forall k :: k in segmentBuffers ==>
        segmentBuffers[k] in old(segmentBuffers.Values) || fresh(segmentBuffers[k])
      ensures var b := Filed(old(View()), src, dst, h, arrived);
        View() == old(View()).(buffers := old(View()).buffers[KeyFor(src, dst, h) := b])
    {
      hide Buffers;
      hide View;
      hide BufferFor;
      hide Filed;
      var key := KeyFor(src, dst, h);
      FindBuffer(src, dst, h, arrived);
      FiledIs(old(View()), src, dst, h, arrived);
      PutChunk(key, h.segO, h.data);
    }

    /** `_handle_segment`, once the header is parsed: file the chunk, complete when the count is
        full, clean up. */
    method HandleSegment(src: u16, dst: u16, h: SegmentHeader, arrived: real, swept: real)
      requires Valid() && keys.Some?
      modifies this`segmentBuffers, this`pendingResponses, this`events, this`handedUp, segmentBuffers.Values
      ensures Valid()
      ensures forall k :: k in segmentBuffers ==>
        segmentBuffers[k] in old(segmentBuffers.Values) || fresh(segmentBuffers[k])
      ensures View() == Reassembly.HandleSegment(c, keys.value, old(View()), src, dst, h, arrived, swept)
    {
      hide Complete;
      hide Filed;
      FileChunk(src, dst, h, arrived);
      var buf := segmentBuffers[KeyFor(src, dst, h)];
      assert buf.View() == View().buffers[KeyFor(src, dst, h)];
      if |buf.segments| == buf.segN + 1 {
        CompleteReassembly(KeyFor(src, dst, h));
      }
      CleanStaleBuffers(swept);
    }

    /** `_process_notify`. An exception leaves the object as it was. */
    method ProcessNotify(data: bytes, arrived: real, swept: real) returns (outcome: Result<()>)
      requires Valid()
      modifies this`segmentBuffers, this`pendingResponses, this`events, this`handedUp, segmentBuffers.Values
      ensures Valid()
      ensures forall k :: k in segmentBuffers ==>
        segmentBuffers[k] in old(segmentBuffers.Values) || fresh(segmentBuffers[k])
      ensures keys.None? ==> outcome == Ok(()) && View() == old(View())
      ensures keys.Some? ==>
        && View() == Step(c, keys.value, old(View()), Notification(data, arrived, swept))
        && outcome == match Listen(c, keys.value, data) { case Failed(e) => Raised(e) case _ => Ok(()) }
    {
      hide Buffers;
      hide View;
      hide Reassembly.HandleSegment;
      hide HandedUp;
      hide DecryptNetworkPdu;
      hide DecryptAccessPayload;
      hide ParseSegmentHeader;
      outcome := Ok(());
      if keys.None? || data == [] { return; }
      var net := DecryptNetworkPdu(c, keys.value.net, data[1..]);
      if net.Raised? { return Raised(net.error); }
      if net.value.None? { return; }
      var p := net.value.value;
      var access := DecryptAccessPayload(c, keys.value, p.src, p.dst, p.seqNo, p.transportPdu);
      if access.None? { return; }
      match access.value
      case UnsegmentedAccess(payload) => DispatchAccessPayload(None, p.src, payload);
      case SegmentedAccess =>
        var h := ParseSegmentHeader(p.transportPdu);
        if h.Ok? { HandleSegment(p.src, p.dst, h.value, arrived, swept); }
    }
  }

  /** Notifications one after the other: what the runs of `Delivery` say, the object does. */
  method ProcessAll(receiver: SegmentReceiver, ns: seq<Notification>)
    requires receiver.Valid() && receiver.keys.Some?
    modifies receiver`segmentBuffers, receiver`pendingResponses, receiver`events, receiver`handedUp
    modifies receiver.segmentBuffers.Values
    ensures receiver.Valid()
    ensures receiver.View() == Run(receiver.c, receiver.keys.value, old(receiver.View()), ns)
  {
    hide Step;
    hide Listen;
    hide SegmentReceiver.View;
    hide SegmentReceiver.Buffers;
    assert ns[..0] == [];
    for i := 0 to |ns|
      invariant receiver.Valid()
      invariant forall k :: k in receiver.segmentBuffers ==>
        receiver.segmentBuffers[k] in old(receiver.segmentBuffers.Values) || fresh(receiver.segmentBuffers[k])
      invariant receiver.View() == Run(receiver.c, receiver.keys.value, old(receiver.View()), ns[..i])
    {
      assert ns[..i + 1][..i] == ns[..i];
      var outcome := receiver.ProcessNotify(ns[i].data, ns[i].arrived, ns[i].swept);
    }
    assert ns[..|ns|] == ns;
  }

  lemma {:induction false} MissingChunk(segments: map<nat, bytes>, i: nat, n: nat)
    requires i < n && i !in segments
    ensures JoinChunks(segments, n) == None
  {
    if i == n - 1 {
    } else {
      MissingChunk(segments, i, n - 1);
    }
  }

  lemma CompleteIs(c: Aes, keys: MeshKeys, st: State, key: BufferKey, payload: Option<bytes>)
    requires key in st.buffers && payload == Reassemble(c, keys, st.buffers[key])
    ensures var st1 := st.(buffers := st.buffers - {key});
      Complete(c, keys, st, key)
        == if payload.None? then st1 else HandedUp(st1, Some(key), st.buffers[key].src, payload.value)
  {
    hide Reassemble;
    hide HandedUp;
  }

  lemma FiledIs(st: State, src: u16, dst: u16, h: SegmentHeader, now: real)
    ensures var key, b := KeyFor(src, dst, h), BufferFor(st, src, dst, h, now);
      var filed := Filed(st, src, dst, h, now);
      filed == b.(segments := b.segments[h.segO := h.data]) &&
      st.buffers[key := b][key := filed] == st.buffers[key := filed]
  {
    hide BufferFor;
  }

  lemma RemoveOneMore<K, V>(m: map<K, V>, all: set<K>, left: set<K>, k: K)
    requires k in left && left <= all
    ensures m - (all - left) - {k} == m - (all - (left - {k}))
  {
    assert all - (left - {k}) == all - left + {k};
  }
}
