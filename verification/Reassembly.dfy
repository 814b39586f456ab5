/** What a notification does to a receiving device, as functions on values: which layer it is
    meant for, how a segment is filed, when a message is whole, and how it is dispatched. */
module Reassembly {
  import opened Bytes
  import opened Cipher
  import opened NetworkLayer
  import opened LowerTransport

  const REASSEMBLY_TIMEOUT: real := 10.0

  const OPCODE_COMPOSITION_STATUS: nat := 0x02
  const OPCODE_ONOFF_STATUS: nat := 0x8204
  const OPCODE_LEVEL_STATUS: nat := 0x8208
  const OP_LIGHT_LIGHTNESS_STATUS: nat := 0x824E

  datatype BufferKey = BufferKey(src: u16, dst: u16, seqZero: nat, aid: nat)

  datatype Buffer = Buffer(
    src: u16, dst: u16, akf: bit, aid: nat, szmic: bit, seqZero: nat, segN: nat,
    segments: map<nat, bytes>, createdAt: real)

  /** The future of a caller waiting for a status message with this opcode; `done` once the caller
      gave up waiting, which leaves the entry in place until it is taken out. */
  datatype Pending = Pending(opcode: nat, corrId: nat, done: bool)

  /** What the outside sees of a dispatched message. */
  datatype Event =
    | Resolved(waiter: Pending, params: bytes)
    | OnOff(on: bool)
    | Level(level: int)
    | Composition(data: bytes)
    | Vendor(opcode: nat, params: bytes)

  /** An access payload given to the dispatcher; `key` is None for an unsegmented message. */
  datatype HandUp = HandUp(key: Option<BufferKey>, src: u16, payload: bytes)

  datatype State = State(
    buffers: map<BufferKey, Buffer>, pending: seq<Pending>, events: seq<Event>, handedUp: seq<HandUp>)

  // ---- Dispatch

  function ParseAccessOpcode(data: bytes): Result<(nat, bytes)> {
    if data == [] then Raised(MalformedPacketError)
    else if data[0] < 0x80 then Ok((data[0], data[1..]))
    else if data[0] < 0xC0 then
      if |data| < 2 then Raised(MalformedPacketError) else Ok((FromU16(data[..2]), data[2..]))
    else if |data| < 3 then Raised(MalformedPacketError) else Ok((FromU24(data[..3]), data[3..]))
  }

  function LittleEndian16(b: bytes): nat
    requires |b| >= 2
  {
    FromU16([b[1], b[0]])
  }

  function Signed16(n: nat): int { if n < 0x8000 then n else n - 0x1_0000 }

  /** The callbacks run for a message nobody is waiting for. */
  function Route(opcode: nat, params: bytes): seq<Event> {
    if opcode == OPCODE_ONOFF_STATUS && params != [] then [OnOff(params[0] != 0)]
    else if opcode == OPCODE_LEVEL_STATUS && |params| >= 2 then [Level(Signed16(LittleEndian16(params)))]
    else if opcode == OP_LIGHT_LIGHTNESS_STATUS && |params| >= 2 then [Level(LittleEndian16(params) - 32768)]
    else if opcode == OPCODE_COMPOSITION_STATUS then
      if |params| < 11 then [] else [Composition(params[1..])]
    else if opcode > 0xFFFF then [Vendor(opcode, params)]
    else []
  }

  /** Index of the first pending response with this opcode; |pending| when there is none. */
  function FirstWaiting(pending: seq<Pending>, opcode: nat): (i: nat)
    ensures i <= |pending|
    ensures i < |pending| ==> pending[i].opcode == opcode
    ensures forall j :: 0 <= j < i ==> pending[j].opcode != opcode
  {
    if pending == [] then 0
    else if pending[0].opcode == opcode then 0
    else 1 + FirstWaiting(pending[1..], opcode)
  }

  /** What becomes of a waiting caller's entry that was taken out. */
  function Answer(waiter: Pending, params: bytes): seq<Event> {
    if waiter.done then [] else [Resolved(waiter, params)]
  }

  function Dispatch(st: State, opcode: nat, params: bytes): State {
    var i := FirstWaiting(st.pending, opcode);
    if i < |st.pending| then
      st.(pending := st.pending[..i] + st.pending[i + 1..], events := st.events + Answer(st.pending[i], params))
    else st.(events := st.events + Route(opcode, params))
  }

  /** The shared end of the segmented and the unsegmented path. */
  function HandedUp(st: State, key: Option<BufferKey>, src: u16, payload: bytes): State {
    var st1 := st.(handedUp := st.handedUp + [HandUp(key, src, payload)]);
    match ParseAccessOpcode(payload)
    case Raised(_) => st1
    case Ok((opcode, params)) => Dispatch(st1, opcode, params)
  }

  // ---- Reassembly

  /** Chunks 0 to n-1 in order; None when one is missing. */
  function JoinChunks(segments: map<nat, bytes>, n: nat): Option<bytes> {
    if n == 0 then Some([])
    else
      match JoinChunks(segments, n - 1)
      case None => None
      case Some(before) => if n - 1 in segments then Some(before + segments[n - 1]) else None
  }

  function Reassemble(c: Aes, keys: MeshKeys, b: Buffer): Option<bytes> {
    match JoinChunks(b.segments, b.segN + 1)
    case None => None
    case Some(upper) =>
      match SelectKey(keys, b.akf)
      case None => None
      case Some(key) =>
        c.open(key, AppNonce(b.akf, b.szmic, b.seqZero, b.src, b.dst, keys.net.ivIndex), upper,
          TransMicLen(b.szmic))
  }

  function KeyFor(src: u16, dst: u16, h: SegmentHeader): BufferKey { BufferKey(src, dst, h.seqZero, h.aid) }

  function NewBuffer(src: u16, dst: u16, h: SegmentHeader, now: real): Buffer {
    Buffer(src, dst, h.akf, h.aid, h.szmic, h.seqZero, h.segN, map[], now)
  }

  /** The buffer of a segment, a new one when there is none. */
  function BufferFor(st: State, src: u16, dst: u16, h: SegmentHeader, now: real): Buffer {
    var key := KeyFor(src, dst, h);
    if key in st.buffers then st.buffers[key] else NewBuffer(src, dst, h, now)
  }

  /** The buffer of a segment with the segment filed in it. */
  function Filed(st: State, src: u16, dst: u16, h: SegmentHeader, now: real): Buffer {
    var b := BufferFor(st, src, dst, h, now);
    b.(segments := b.segments[h.segO := h.data])
  }

  function Complete(c: Aes, keys: MeshKeys, st: State, key: BufferKey): State
    requires key in st.buffers
  {
    var b := st.buffers[key];
    var st1 := st.(buffers := st.buffers - {key});
    match Reassemble(c, keys, b)
    case None => st1
    case Some(payload) => HandedUp(st1, Some(key), b.src, payload)
  }

  function Swept(buffers: map<BufferKey, Buffer>, now: real): map<BufferKey, Buffer> {
    map k | k in buffers && now - buffers[k].createdAt <= REASSEMBLY_TIMEOUT :: buffers[k]
  }

  /** `arrived` is the clock when a buffer would be made, `swept` the clock of the cleaning. */
  function HandleSegment(c: Aes, keys: MeshKeys, st: State, src: u16, dst: u16, h: SegmentHeader,
    arrived: real, swept: real): State
  {
    var key := KeyFor(src, dst, h);
    var b := Filed(st, src, dst, h, arrived);
    var st1 := st.(buffers := st.buffers[key := b]);
    var st2 := if |b.segments| == b.segN + 1 then Complete(c, keys, st1, key) else st1;
    st2.(buffers := Swept(st2.buffers, swept))
  }

  // ---- Notifications

  /** What a raw proxy PDU turns out to be. */
  datatype Heard =
    | Nothing
    | Failed(error: Error)
    | Whole(src: u16, payload: bytes)
    | Part(src: u16, dst: u16, header: SegmentHeader)

  function Listen(c: Aes, keys: MeshKeys, data: bytes): Heard {
    if data == [] then Nothing
    else
      match DecryptNetworkPdu(c, keys.net, data[1..])
      case Raised(e) => Failed(e)
      case Ok(None) => Nothing
      case Ok(Some(p)) => ListenTransport(c, keys, p)
  }

  function ListenTransport(c: Aes, keys: MeshKeys, p: NetworkPdu): Heard {
    match DecryptAccessPayload(c, keys, p.src, p.dst, p.seqNo, p.transportPdu)
    case None => Nothing
    case Some(UnsegmentedAccess(payload)) => Whole(p.src, payload)
    case Some(SegmentedAccess) =>
      match ParseSegmentHeader(p.transportPdu)
      case Raised(_) => Nothing
      case Ok(h) => Part(p.src, p.dst, h)
  }

  datatype Notification = Notification(data: bytes, arrived: real, swept: real)

  function Step(c: Aes, keys: MeshKeys, st: State, n: Notification): State {
    match Listen(c, keys, n.data)
    case Nothing => st
    case Failed(_) => st
    case Whole(src, payload) => HandedUp(st, None, src, payload)
    case Part(src, dst, h) => HandleSegment(c, keys, st, src, dst, h, n.arrived, n.swept)
  }

  function Run(c: Aes, keys: MeshKeys, st: State, ns: seq<Notification>): State {
    if ns == [] then st
    else Step(c, keys, Run(c, keys, st, ns[..|ns| - 1]), ns[|ns| - 1])
  }

  // ---- What every notification keeps, whoever sent it

  predicate BufferInvariant(key: BufferKey, b: Buffer) {
    && key == BufferKey(b.src, b.dst, b.seqZero, b.aid)
    && 1 <= |b.segments| <= b.segN < MAX_SEGMENTS
    && forall i :: i in b.segments ==> i < MAX_SEGMENTS
  }

  predicate Invariant(st: State) {
    forall key :: key in st.buffers ==> BufferInvariant(key, st.buffers[key])
  }

  lemma AddedKeys(segments: map<nat, bytes>, i: nat, chunk: bytes)
    ensures |segments[i := chunk]| == |segments| + (if i in segments then 0 else 1)
  {
    assert segments[i := chunk].Keys == segments.Keys + {i};
    if i in segments { assert segments[i := chunk].Keys == segments.Keys; }
  }

  lemma FiledInvariant(st: State, src: u16, dst: u16, h: SegmentHeader, now: real)
    requires Invariant(st) && h.segO < MAX_SEGMENTS && h.segN < MAX_SEGMENTS
    ensures var key, b := KeyFor(src, dst, h), Filed(st, src, dst, h, now);
      && key == BufferKey(b.src, b.dst, b.seqZero, b.aid)
      && 1 <= |b.segments| <= b.segN + 1 <= MAX_SEGMENTS
      && (forall i :: i in b.segments ==> i < MAX_SEGMENTS)
  {
    var key := KeyFor(src, dst, h);
    var b := if key in st.buffers then st.buffers[key] else NewBuffer(src, dst, h, now);
    AddedKeys(b.segments, h.segO, h.data);
  }

  lemma HeardHeadersAreInRange(c: Aes, keys: MeshKeys, data: bytes)
    ensures Listen(c, keys, data).Part? ==>
      Listen(c, keys, data).header.segO < MAX_SEGMENTS && Listen(c, keys, data).header.segN < MAX_SEGMENTS
  {
  }

  lemma SegmentKeepsInvariant(c: Aes, keys: MeshKeys, st: State, src: u16, dst: u16, h: SegmentHeader,
    arrived: real, swept: real)
    requires Invariant(st) && h.segO < MAX_SEGMENTS && h.segN < MAX_SEGMENTS
    ensures var st' := HandleSegment(c, keys, st, src, dst, h, arrived, swept);
      Invariant(st') &&
      forall key :: key in st'.buffers ==> swept - st'.buffers[key].createdAt <= REASSEMBLY_TIMEOUT
  {
    hide Reassemble;
    hide HandedUp;
    var key, b := KeyFor(src, dst, h), Filed(st, src, dst, h, arrived);
    FiledInvariant(st, src, dst, h, arrived);
    var st1 := st.(buffers := st.buffers[key := b]);
    if |b.segments| == b.segN + 1 && Reassemble(c, keys, b).Some? {
      HandedUpLogs(st1.(buffers := st1.buffers - {key}), Some(key), b.src, Reassemble(c, keys, b).value);
    }
  }

  /** Well-formed or not, a notification leaves every stored buffer under its own key, holding at
      least one chunk and at most `segN`; after a segment no stored buffer is older than the timeout. */
  lemma StepKeepsInvariant(c: Aes, keys: MeshKeys, st: State, n: Notification)
    requires Invariant(st)
    ensures Invariant(Step(c, keys, st, n))
    ensures Listen(c, keys, n.data).Part? ==>
      forall key :: key in Step(c, keys, st, n).buffers ==>
        n.swept - Step(c, keys, st, n).buffers[key].createdAt <= REASSEMBLY_TIMEOUT
  {
    hide HandleSegment;
    hide HandedUp;
    HeardHeadersAreInRange(c, keys, n.data);
    hide Listen;
    match Listen(c, keys, n.data)
    case Part(src, dst, h) => SegmentKeepsInvariant(c, keys, st, src, dst, h, n.arrived, n.swept);
    case Whole(src, payload) => HandedUpLogs(st, None, src, payload);
    case _ =>
  }

  lemma {:induction false} RunKeepsInvariant(c: Aes, keys: MeshKeys, st: State, ns: seq<Notification>)
    requires Invariant(st)
    ensures Invariant(Run(c, keys, st, ns))
  {
    if ns == [] {
    } else {
      RunKeepsInvariant(c, keys, st, ns[..|ns| - 1]);
      StepKeepsInvariant(c, keys, Run(c, keys, st, ns[..|ns| - 1]), ns[|ns| - 1]);
    }
  }

  // ---- Opcodes and status values

  predicate ValidOpcode(opcode: nat) {
    opcode < 0x80 || 0x8000 <= opcode < 0xC000 || 0xC0_0000 <= opcode < 0x100_0000
  }

  /** An opcode in one, two or three bytes, as a sender writes it. */
  function OpcodeBytes(opcode: nat): bytes
    requires ValidOpcode(opcode)
  {
    if opcode < 0x80 then [opcode] else if opcode < 0xC000 then U16(opcode) else U24(opcode)
  }

  lemma OpcodeRoundTrip(opcode: nat, params: bytes)
    requires ValidOpcode(opcode)
    ensures ParseAccessOpcode(OpcodeBytes(opcode) + params) == Ok((opcode, params))
  {
    var head := OpcodeBytes(opcode);
    var data := head + params;
    assert data[..|head|] == head && data[|head|..] == params;
    U16RoundTrip(opcode);
    U24RoundTrip(opcode);
    OpcodeHead(opcode);
    hide FromU16;
    hide FromU24;
    hide U16;
    hide U24;
  }

  lemma OpcodeHead(opcode: nat)
    ensures 0x8000 <= opcode < 0xC000 ==> 0x80 <= U16(opcode)[0] < 0xC0
    ensures 0xC0_0000 <= opcode < 0x100_0000 ==> 0xC0 <= U24(opcode)[0]
  {
  }

  /** The first byte tells how long the opcode is: below 0x80 one byte, below 0xC0 two, else three, the
      first the most significant. Data without a whole opcode is malformed. */
  lemma OpcodeLayout(data: bytes)
    ensures ParseAccessOpcode(data) ==
      if |data| >= 1 && data[0] < 0x80 then Ok((data[0], data[1..]))
      else if |data| >= 2 && data[0] < 0xC0 then Ok((TwoDigits(data[0], data[1]), data[2..]))
      else if |data| >= 3 && data[0] >= 0xC0 then Ok((ThreeDigits(data[0], data[1], data[2]), data[3..]))
      else Raised(MalformedPacketError)
  {
  }

  /** What is parsed is an opcode in range, and writing it again gives back the data. */
  lemma ParsedOpcodeWritesBack(data: bytes)
    requires ParseAccessOpcode(data).Ok?
    ensures var (opcode, params) := ParseAccessOpcode(data).value;
      ValidOpcode(opcode) && OpcodeBytes(opcode) + params == data
  {
    if 0x80 <= data[0] < 0xC0 {
      var hi: int := data[0];
      FieldsFromBytes(data[..2]);
      assert 0x100 * hi <= FromU16(data[..2]) < 0x100 * (hi + 1);
      assert data == data[..2] + data[2..];
    } else if data[0] >= 0xC0 {
      var hi: int := data[0];
      FieldsFromBytes(data[..3]);
      assert 0x1_0000 * hi <= FromU24(data[..3]) < 0x1_0000 * (hi + 1);
      assert data == data[..3] + data[3..];
    }
    hide U16;
    hide U24;
  }

  /** Level and lightness status values reach the callbacks on one scale: a level as itself, a
      lightness less 32768. */
  lemma StatusValues(level: int, more: bytes)
    requires -0x8000 <= level < 0x8000
    ensures var twos := if level < 0 then level + 0x1_0000 else level;
      Route(OPCODE_LEVEL_STATUS, [twos % 0x100, twos / 0x100] + more) == [Level(level)]
    ensures var lightness := level + 0x8000;
      Route(OP_LIGHT_LIGHTNESS_STATUS, [lightness % 0x100, lightness / 0x100] + more) == [Level(level)]
  {
  }

  /** A status message takes out the longest-waiting entry of its opcode and no other, resolves it
      unless its caller gave up, and is then not passed to the callbacks either way; without such an
      entry no one stops waiting. */
  lemma DispatchIsFirstComeFirstServed(st: State, opcode: nat, params: bytes)
    ensures var st' := Dispatch(st, opcode, params);
      if exists j :: 0 <= j < |st.pending| && st.pending[j].opcode == opcode then
        exists i :: 0 <= i < |st.pending| && st.pending[i].opcode == opcode &&
          (forall j :: 0 <= j < i ==> st.pending[j].opcode != opcode) &&
          st'.pending == st.pending[..i] + st.pending[i + 1..] &&
          (st.pending[i].done ==> st'.events == st.events) &&
          (!st.pending[i].done ==> st'.events == st.events + [Resolved(st.pending[i], params)])
      else st'.pending == st.pending && st'.events == st.events + Route(opcode, params)
  {
    var i := FirstWaiting(st.pending, opcode);
    assert i < |st.pending| ==> st.pending[i].opcode == opcode;
  }

  lemma HandedUpLogs(st: State, key: Option<BufferKey>, src: u16, payload: bytes)
    ensures HandedUp(st, key, src, payload).handedUp == st.handedUp + [HandUp(key, src, payload)]
    ensures HandedUp(st, key, src, payload).buffers == st.buffers
  {
  }

  // ---- What becomes of a payload that is handed up

  ghost predicate IsMessage(payload: bytes, opcode: nat, params: bytes) {
    ValidOpcode(opcode) && payload == OpcodeBytes(opcode) + params
  }

  ghost predicate IsFirst(pending: seq<Pending>, opcode: nat, i: int) {
    0 <= i < |pending| && pending[i].opcode == opcode && forall j :: 0 <= j < i ==> pending[j].opcode != opcode
  }

  /** The first entry with the opcode is taken out and, unless it is done, gets the parameters; when
      there is none the message goes to the callbacks. */
  ghost predicate AnsweredWith(before: State, after: State, opcode: nat, params: bytes) {
    && (forall i :: IsFirst(before.pending, opcode, i) ==>
          && after.pending == before.pending[..i] + before.pending[i + 1..]
          && after.events ==
               before.events + (if before.pending[i].done then [] else [Resolved(before.pending[i], params)]))
    && ((forall i :: 0 <= i < |before.pending| ==> before.pending[i].opcode != opcode) ==>
          after.pending == before.pending && after.events == before.events + Route(opcode, params))
  }

  /** A payload that begins with an opcode is answered with what follows it; any other changes nothing. */
  ghost predicate Answered(before: State, after: State, payload: bytes) {
    && (forall opcode, params :: IsMessage(payload, opcode, params) ==> AnsweredWith(before, after, opcode, params))
    && ((forall opcode, params :: !IsMessage(payload, opcode, params)) ==>
          after.pending == before.pending && after.events == before.events)
  }

  lemma DispatchAnswers(st: State, opcode: nat, params: bytes)
    ensures AnsweredWith(st, Dispatch(st, opcode, params), opcode, params)
  {
    var at := FirstWaiting(st.pending, opcode);
    hide FirstWaiting;
    hide Route;
    forall i | IsFirst(st.pending, opcode, i) ensures i == at {
    }
  }

  /** Handing a payload up logs it, leaves the buffers alone, and answers whoever waits for it. */
  lemma HandedUpAnswers(st: State, key: Option<BufferKey>, src: u16, payload: bytes)
    ensures var st' := HandedUp(st, key, src, payload);
      && st'.handedUp == st.handedUp + [HandUp(key, src, payload)] && st'.buffers == st.buffers
      && Answered(st, st', payload)
  {
    hide Dispatch;
    hide OpcodeBytes;
    var st1 := st.(handedUp := st.handedUp + [HandUp(key, src, payload)]);
    HandedUpLogs(st, key, src, payload);
    forall opcode, params | IsMessage(payload, opcode, params)
      ensures AnsweredWith(st, HandedUp(st, key, src, payload), opcode, params)
    {
      OpcodeRoundTrip(opcode, params);
      hide ParseAccessOpcode;
      DispatchAnswers(st1, opcode, params);
    }
    if ParseAccessOpcode(payload).Ok? {
      ParsedOpcodeWritesBack(payload);
      var (opcode, params) := ParseAccessOpcode(payload).value;
      assert IsMessage(payload, opcode, params);
    }
  }

  /** Only the waiting callers and the events matter to an answer. */
  lemma AnsweredBetween(before: State, after: State, st: State, st': State, payload: bytes)
    requires Answered(before, after, payload)
    requires st.pending == before.pending && st.events == before.events
    requires st'.pending == after.pending && st'.events == after.events
    ensures Answered(st, st', payload)
  {
    hide IsMessage;
    hide Route;
    hide IsFirst;
    forall opcode, params | IsMessage(payload, opcode, params) ensures AnsweredWith(st, st', opcode, params) {
      assert AnsweredWith(before, after, opcode, params);
    }
  }

  /** Which callback a message nobody waits for reaches, by its opcode. */
  lemma RouteTable(opcode: nat, params: bytes)
    ensures Route(0x8204, params) == if params == [] then [] else [OnOff(params[0] != 0)]
    ensures |params| < 2 ==> Route(0x8208, params) == [] && Route(0x824E, params) == []
    ensures Route(0x02, params) == if |params| < 11 then [] else [Composition(params[1..])]
    ensures opcode > 0xFFFF ==> Route(opcode, params) == [Vendor(opcode, params)]
    ensures opcode <= 0xFFFF && opcode !in {0x02, 0x8204, 0x8208, 0x824E} ==> Route(opcode, params) == []
  {
  }

  /** Which notifications make the device raise: the proxy header aside, those that network
      decryption raises on. */
  lemma NotificationRaisesExactlyWhen(c: Aes, keys: MeshKeys, data: bytes)
    requires Lawful(c)
    ensures Listen(c, keys, data) == Failed(CryptoError) <==> 11 <= |data| < 15 && data[1] % 128 == keys.net.nid
    ensures Listen(c, keys, data) == Failed(IndexError) <==>
      |data| > 0 && exists ctlTtl, seqNo, src, plaintext ::
        ShortControl(c, keys.net, data[1..], ctlTtl, seqNo, src, plaintext)
    ensures Listen(c, keys, data).Failed? ==> Listen(c, keys, data).error in {CryptoError, IndexError}
  {
    hide ShortControl;
    hide DecryptNetworkPdu;
    hide ListenTransport;
    if data != [] {
      DecryptRaisesExactlyWhen(c, keys.net, data[1..]);
      hide Lawful;
      match DecryptNetworkPdu(c, keys.net, data[1..])
      case Ok(Some(p)) => TransportNeverFails(c, keys, p);
      case _ =>
    }
  }

  lemma TransportNeverFails(c: Aes, keys: MeshKeys, p: NetworkPdu)
    ensures !ListenTransport(c, keys, p).Failed?
  {
    hide DecryptAccessPayload;
    hide ParseSegmentHeader;
  }

  // ---- A whole buffer

  function Indices(n: nat): (s: set<nat>)
    ensures forall i: nat :: i in s <==> i < n
    ensures |s| == n
  {
    if n == 0 then {} else Indices(n - 1) + {n - 1}
  }

  lemma IndicesWithin(n: nat, keys: set<nat>)
    ensures Indices(0) <= keys
    ensures n > 0 ==> (Indices(n) <= keys <==> Indices(n - 1) <= keys && n - 1 in keys)
  {
    hide Indices;
    if n > 0 {
      assert n - 1 in Indices(n);
      assert forall i: nat :: i in Indices(n) <==> i in Indices(n - 1) || i == n - 1;
    }
  }

  lemma JoinStep(segments: map<nat, bytes>, n: nat)
    ensures JoinChunks(segments, 0).Some?
    ensures n > 0 ==> (JoinChunks(segments, n).Some? <==> JoinChunks(segments, n - 1).Some? && n - 1 in segments)
  {
  }

  lemma {:induction false} JoinedMeansPresent(segments: map<nat, bytes>, n: nat)
    ensures JoinChunks(segments, n).Some? <==> Indices(n) <= segments.Keys
  {
    hide JoinChunks;
    hide Indices;
    JoinStep(segments, n);
    IndicesWithin(n, segments.Keys);
    if n == 0 {
    } else {
      JoinedMeansPresent(segments, n - 1);
    }
  }

  lemma SubsetOfEqualSize(small: set<nat>, big: set<nat>)
    requires small <= big && |small| == |big|
    ensures small == big
  {
    assert |big - small| == |big| - |small|;
  }

  lemma WholeBuffer(c: Aes, keys: MeshKeys, b: Buffer)
    requires Lawful(c)
    requires |b.segments| == b.segN + 1 && Reassemble(c, keys, b).Some?
    ensures b.segments.Keys == Indices(b.segN + 1)
    ensures SelectKey(keys, b.akf).Some?
    ensures JoinChunks(b.segments, b.segN + 1) == Some(c.seal(SelectKey(keys, b.akf).value,
      AppNonce(b.akf, b.szmic, b.seqZero, b.src, b.dst, keys.net.ivIndex),
      Reassemble(c, keys, b).value, TransMicLen(b.szmic)))
  {
    hide JoinChunks;
    hide Indices;
    hide AppNonce;
    JoinedMeansPresent(b.segments, b.segN + 1);
    SubsetOfEqualSize(Indices(b.segN + 1), b.segments.Keys);
  }

  /** A segment hands a payload up in exactly one case: its buffer then holds the index set
      0..segN and nothing else, and the joined chunks are the sealing of that payload under the
      nonce of the buffer. In every other case nothing is handed up or dispatched. */
  lemma HandUpNeedsFullIndexSet(c: Aes, keys: MeshKeys, st: State, src: u16, dst: u16, h: SegmentHeader,
    arrived: real, swept: real)
    requires Lawful(c)
    ensures var st' := HandleSegment(c, keys, st, src, dst, h, arrived, swept);
      var b := Filed(st, src, dst, h, arrived);
      if st'.handedUp == st.handedUp then st'.events == st.events && st'.pending == st.pending
      else
        && b.segments.Keys == Indices(b.segN + 1)
        && SelectKey(keys, b.akf).Some?
        && |st'.handedUp| == |st.handedUp| + 1
        && var last := st'.handedUp[|st.handedUp|];
           st'.handedUp == st.handedUp + [last]
           && JoinChunks(b.segments, b.segN + 1) == Some(c.seal(SelectKey(keys, b.akf).value,
                AppNonce(b.akf, b.szmic, b.seqZero, b.src, b.dst, keys.net.ivIndex),
                last.payload, TransMicLen(b.szmic)))
           && last.key == Some(KeyFor(src, dst, h)) && last.src == b.src
           && Answered(st, st', last.payload)
  {
    hide Answered;
    hide Filed;
    hide AppNonce;
    var key, b := KeyFor(src, dst, h), Filed(st, src, dst, h, arrived);
    var st1 := st.(buffers := st.buffers[key := b]);
    if |b.segments| == b.segN + 1 {
      match Reassemble(c, keys, b)
      case None =>
      case Some(payload) =>
        WholeBuffer(c, keys, b);
        var st2 := st1.(buffers := st1.buffers - {key});
        HandedUpAnswers(st2, Some(key), b.src, payload);
        hide HandedUp;
        var up := HandedUp(st2, Some(key), b.src, payload);
        AnsweredBetween(st2, up, st, HandleSegment(c, keys, st, src, dst, h, arrived, swept), payload);
        hide Answered;
        hide JoinChunks;
        hide Reassemble;
    }
  }
}
