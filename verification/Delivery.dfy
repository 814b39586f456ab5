/** End to end: the segments of one message, sent as encrypted proxy PDUs and received in any
    order, repeated, and among any other traffic. */
module Delivery {
  import opened Bytes
  import opened Cipher
  import opened NetworkLayer
  import opened LowerTransport
  import opened Reassembly

  /** `make_proxy_pdu`: SAR complete, type network. */
  function MakeProxyPdu(networkPdu: bytes): bytes { [0] + networkPdu }

  /** One message on its way from a sender to a receiver that share `keys`. */
  datatype Link = Link(c: Aes, keys: MeshKeys, key: Key, ttl: nat, m: Message) {
    function Upper(): bytes { UpperTransport(c, key, keys.net.ivIndex, m) }

    function Sent(): seq<Segment> { Segments(c, key, keys.net.ivIndex, m) }

    function Count(): nat { |Sent()| }

    function SegN(): nat { if Count() == 0 then 0 else Count() - 1 }

    function BufferKey(): Reassembly.BufferKey {
      Reassembly.BufferKey(m.src, m.dst, m.seqStart % SEQ_ZERO_LIMIT, m.aid % 64)
    }

    /** The sender's and the receiver's key are the same, the standard's 384-byte limit holds, and
        the sequence numbers were reserved by `_next_seqs`, which stops short of 24 bits. */
    ghost predicate Valid() {
      && Lawful(c)
      && UsesKey(keys, m.akf, key)
      && |m.payload| + TransMicLen(m.szmic) <= MAX_SEGMENTS * SEG_DATA_SIZE
      && m.seqStart + SegmentCount(|m.payload| + TransMicLen(m.szmic)) < SEQ_LIMIT
    }

    /** The i-th segment as it leaves `send_config_appkey_add`. */
    function NetworkForm(i: nat): NetworkPdu
      requires i < Count() && m.seqStart + Count() < SEQ_LIMIT
    {
      NetworkPdu(0, ttl, Sent()[i].seqNo, m.src, m.dst, Sent()[i].pdu)
    }

    function Packet(i: nat): bytes
      requires i < Count() && m.seqStart + Count() < SEQ_LIMIT
    {
      match EncryptNetworkPdu(c, keys.net, NetworkForm(i))
      case Ok(pdu) => MakeProxyPdu(pdu)
      case Raised(_) => []
    }

    function HeaderOf(i: nat): SegmentHeader {
      SegmentHeader(m.akf, m.aid % 64, m.szmic, m.seqStart % SEQ_ZERO_LIMIT, i, SegN(), Chunk(Upper(), i))
    }

    /** What the receiver makes of the complete upper transport PDU. */
    function Outcome(): Option<bytes> {
      c.open(key, AppNonce(m.akf, m.szmic, m.seqStart % SEQ_ZERO_LIMIT, m.src, m.dst, keys.net.ivIndex),
        Upper(), TransMicLen(m.szmic))
    }

    function HandUps(): seq<HandUp> {
      match Outcome()
      case None => []
      case Some(payload) => [HandUp(Some(BufferKey()), m.src, payload)]
    }

    /** The buffer of this message holding exactly the chunks in `got`. */
    predicate Holds(b: Buffer, got: set<nat>) {
      && b == Buffer(m.src, m.dst, m.akf, m.aid % 64, m.szmic, m.seqStart % SEQ_ZERO_LIMIT,
                     SegN(), b.segments, b.createdAt)
      && b.segments == map i | i in got :: Chunk(Upper(), i)
    }

    /** The receiver holds `got` of this message, in a buffer made at `since`. */
    predicate Collected(st: State, got: set<nat>, since: real) {
      if got == {} then BufferKey() !in st.buffers
      else BufferKey() in st.buffers && Holds(st.buffers[BufferKey()], got) &&
           st.buffers[BufferKey()].createdAt == since
    }
  }

  // ---- One packet

  lemma LinkCount(l: Link)
    requires l.Valid()
    ensures 0 < l.Count() <= MAX_SEGMENTS && l.m.seqStart + l.Count() < SEQ_LIMIT
    ensures |l.Upper()| <= l.Count() * SEG_DATA_SIZE
  {
    SegmentationLosesNothing(l.c, l.key, l.keys.net.ivIndex, l.m);
  }

  lemma PacketForm(l: Link, i: nat)
    requires l.Valid() && i < l.Count() && l.m.seqStart + l.Count() < SEQ_LIMIT
    ensures l.NetworkForm(i).transportPdu == SegmentPdu(l.m, l.Upper(), i, l.Count() - 1)
    ensures l.NetworkForm(i).transportPdu != [] && l.NetworkForm(i).transportPdu[0] >= 128
    ensures l.NetworkForm(i).ctl == 0 && l.NetworkForm(i).src == l.m.src && l.NetworkForm(i).dst == l.m.dst
  {
    hide UpperTransport;
    hide Info;
  }

  lemma HearPacket(l: Link, i: nat)
    requires l.Valid() && i < l.Count() && l.m.seqStart + l.Count() < SEQ_LIMIT
    requires l.NetworkForm(i).transportPdu != [] && l.NetworkForm(i).ctl == 0
    ensures Listen(l.c, l.keys, l.Packet(i)) == ListenTransport(l.c, l.keys, OnTheWire(l.NetworkForm(i)))
  {
    var p := l.NetworkForm(i);
    DecryptUndoesEncrypt(l.c, l.keys.net, p);
    hide Segments;
    hide EncryptNetworkPdu;
    hide DecryptNetworkPdu;
    hide ListenTransport;
    hide OnTheWire;
    hide Link.NetworkForm;
    hide Lawful;
    var pdu := EncryptNetworkPdu(l.c, l.keys.net, p).value;
    assert MakeProxyPdu(pdu)[1..] == pdu;
  }

  /** The i-th packet is a proxy PDU of one zero byte and the encrypted segment. */
  lemma PacketIs(l: Link, i: nat)
    requires l.Valid() && i < l.Count() && l.m.seqStart + l.Count() < SEQ_LIMIT
    ensures var pdu := EncryptNetworkPdu(l.c, l.keys.net, l.NetworkForm(i)); pdu.Ok? && l.Packet(i) == [0] + pdu.value
  {
    PacketForm(l, i);
    EncryptFailsOnlyWhenTooShort(l.c, l.keys.net, l.NetworkForm(i));
    hide EncryptNetworkPdu;
    hide Link.NetworkForm;
  }

  /** Every segment that leaves the sender as an encrypted proxy PDU is recognised as that segment. */
  lemma ListenToPacket(l: Link, i: nat)
    requires l.Valid() && i < l.Count() && l.m.seqStart + l.Count() < SEQ_LIMIT
    ensures Listen(l.c, l.keys, l.Packet(i)) == Part(l.m.src, l.m.dst, l.HeaderOf(i))
  {
    hide Segments;
    hide Listen;
    hide ListenTransport;
    hide ParseSegmentHeader;
    hide SegmentPdu;
    hide Chunk;
    hide Link.NetworkForm;
    hide Link.Packet;
    LinkCount(l);
    PacketForm(l, i);
    HearPacket(l, i);
    HeaderRoundTrip(l.m, l.Upper(), i, l.Count() - 1);
    ListenToTransport(l, i, OnTheWire(l.NetworkForm(i)));
  }

  lemma ListenToTransport(l: Link, i: nat, p: NetworkPdu)
    requires p.src == l.m.src && p.dst == l.m.dst && p.transportPdu != [] && p.transportPdu[0] >= 128
    requires ParseSegmentHeader(p.transportPdu) == Ok(l.HeaderOf(i))
    ensures ListenTransport(l.c, l.keys, p) == Part(l.m.src, l.m.dst, l.HeaderOf(i))
  {
  }

  lemma HearUnsegmented(c: Aes, keys: MeshKeys, key: Key, ttl: nat, m: Message, data: bytes)
    requires Lawful(c) && m.szmic == 0 && UsesKey(keys, m.akf, key) && |m.payload| <= 11
    requires var transport := MakeAccessUnsegmented(c, key, keys.net.ivIndex, m);
      transport.Ok? && |data| > 0 && transport.value != [] &&
      var p := NetworkPdu(0, ttl, m.seqStart, m.src, m.dst, transport.value);
      EncryptNetworkPdu(c, keys.net, p) == Ok(data[1..])
    ensures Listen(c, keys, data) == Whole(m.src, m.payload)
  {
    UnsegmentedRoundTrip(c, keys, key, m);
    var p := NetworkPdu(0, ttl, m.seqStart, m.src, m.dst, MakeAccessUnsegmented(c, key, keys.net.ivIndex, m).value);
    DecryptUndoesEncrypt(c, keys.net, p);
    hide EncryptNetworkPdu;
    hide DecryptNetworkPdu;
    hide DecryptAccessPayload;
    hide MakeAccessUnsegmented;
    hide Lawful;
  }

  lemma UnsegmentedIsSent(c: Aes, keys: MeshKeys, key: Key, ttl: nat, m: Message)
    requires Lawful(c) && m.szmic == 0 && |m.payload| <= 11
    ensures var transport := MakeAccessUnsegmented(c, key, keys.net.ivIndex, m);
      transport.Ok? && transport.value != [] &&
      EncryptNetworkPdu(c, keys.net, NetworkPdu(0, ttl, m.seqStart, m.src, m.dst, transport.value)).Ok?
  {
    hide UpperTransport;
    var p := NetworkPdu(0, ttl, m.seqStart, m.src, m.dst, MakeAccessUnsegmented(c, key, keys.net.ivIndex, m).value);
    EncryptFailsOnlyWhenTooShort(c, keys.net, p);
    hide EncryptNetworkPdu;
  }

  /** An unsegmented message of up to 11 bytes is delivered as soon as its one proxy PDU is heard, for
      every sequence number and in every state of the receiver: it is handed up, whoever waits for it
      is answered, and no buffer changes. A longer one is refused before it is encrypted. */
  lemma UnsegmentedDelivered(c: Aes, keys: MeshKeys, key: Key, ttl: nat, m: Message, st: State, arrived: real,
    swept: real)
    requires Lawful(c) && m.szmic == 0 && UsesKey(keys, m.akf, key)
    ensures var transport := MakeAccessUnsegmented(c, key, keys.net.ivIndex, m);
      if |m.payload| > 11 then transport == Raised(ProtocolError)
      else
        transport.Ok? &&
        var pdu := EncryptNetworkPdu(c, keys.net, NetworkPdu(0, ttl, m.seqStart, m.src, m.dst, transport.value));
        pdu.Ok? &&
        var st' := Step(c, keys, st, Notification([0] + pdu.value, arrived, swept));
        && st'.handedUp == st.handedUp + [HandUp(None, m.src, m.payload)]
        && st'.buffers == st.buffers && Answered(st, st', m.payload)
  {
    if |m.payload| <= 11 {
      UnsegmentedIsSent(c, keys, key, ttl, m);
      hide EncryptNetworkPdu;
      hide MakeAccessUnsegmented;
      hide Listen;
      hide HandedUp;
      hide Answered;
      hide Lawful;
      var p := NetworkPdu(0, ttl, m.seqStart, m.src, m.dst, MakeAccessUnsegmented(c, key, keys.net.ivIndex, m).value);
      var data := [0] + EncryptNetworkPdu(c, keys.net, p).value;
      assert data[1..] == EncryptNetworkPdu(c, keys.net, p).value;
      HearUnsegmented(c, keys, key, ttl, m, data);
      HandedUpAnswers(st, None, m.src, m.payload);
    }
  }

  // ---- Reassembly of this message

  lemma {:induction false} JoinFirstChunks(upper: bytes, segments: map<nat, bytes>, n: nat)
    requires forall i: nat :: i < n ==> i in segments && segments[i] == Chunk(upper, i)
    ensures JoinChunks(segments, n) == Some(Take(upper, n * SEG_DATA_SIZE))
  {
    if n == 0 {
    } else {
      JoinFirstChunks(upper, segments, n - 1);
      assert Take(upper, n * SEG_DATA_SIZE) == Take(upper, (n - 1) * SEG_DATA_SIZE) + Chunk(upper, n - 1);
    }
  }

  lemma ChunkKeys(l: Link, b: Buffer, got: set<nat>)
    requires l.Holds(b, got)
    ensures b.segments.Keys == got && |b.segments| == |got|
    ensures forall i: nat :: i in got ==> b.segments[i] == Chunk(l.Upper(), i)
  {
    assert b.segments.Keys == got;
  }

  lemma WholeMessage(l: Link, b: Buffer)
    requires l.Valid() && l.Holds(b, Indices(l.Count()))
    ensures |b.segments| == b.segN + 1
    ensures Reassemble(l.c, l.keys, b) == l.Outcome()
  {
    LinkCount(l);
    ChunkKeys(l, b, Indices(l.Count()));
    JoinFirstChunks(l.Upper(), b.segments, l.Count());
    assert Take(l.Upper(), l.Count() * SEG_DATA_SIZE) == l.Upper();
  }

  lemma PartialMessage(l: Link, b: Buffer, got: set<nat>)
    requires l.Valid() && l.Holds(b, got) && got < Indices(l.Count())
    ensures |b.segments| != b.segN + 1
  {
    LinkCount(l);
    ChunkKeys(l, b, got);
    if |got| == l.Count() { SubsetOfEqualSize(got, Indices(l.Count())); }
  }

  /** When the buffer that takes the next segment was made. */
  function Since(got: set<nat>, since: real, arrived: real): real { if got == {} then arrived else since }

  lemma FiledOwn(l: Link, st: State, got: set<nat>, i: nat, arrived: real, since: real)
    requires l.Collected(st, got, since)
    ensures var b := Filed(st, l.m.src, l.m.dst, l.HeaderOf(i), arrived);
      l.Holds(b, got + {i}) && b.createdAt == Since(got, since, arrived)
  {
    hide Segments;
    hide Chunk;
    var b := Filed(st, l.m.src, l.m.dst, l.HeaderOf(i), arrived);
    assert b.segments == map j | j in got + {i} :: Chunk(l.Upper(), j);
  }

  predicate Stale(since: real, swept: real) { swept - since > REASSEMBLY_TIMEOUT }

  lemma SweptAt(buffers: map<Reassembly.BufferKey, Buffer>, swept: real, key: Reassembly.BufferKey)
    ensures key in Swept(buffers, swept) <==> key in buffers && !Stale(buffers[key].createdAt, swept)
    ensures key in Swept(buffers, swept) ==> Swept(buffers, swept)[key] == buffers[key]
  {
  }

  /** An own segment that leaves an index missing is only stored, and thrown away with its buffer if
      that is stale by now. */
  lemma OwnSegmentStored(l: Link, st: State, got: set<nat>, i: nat, arrived: real, swept: real, since: real)
    requires l.Valid() && l.Collected(st, got, since) && got + {i} < Indices(l.Count())
    ensures var st' := HandleSegment(l.c, l.keys, st, l.m.src, l.m.dst, l.HeaderOf(i), arrived, swept);
      var since' := Since(got, since, arrived);
      l.Collected(st', if Stale(since', swept) then {} else got + {i}, since') && st'.(buffers := st.buffers) == st
  {
    hide Filed;
    hide Swept;
    hide Segments;
    hide Stale;
    var b := Filed(st, l.m.src, l.m.dst, l.HeaderOf(i), arrived);
    FiledOwn(l, st, got, i, arrived, since);
    PartialMessage(l, b, got + {i});
    SweptAt(st.buffers[l.BufferKey() := b], swept, l.BufferKey());
  }

  /** An own segment that makes the index set full hands up what the buffer decrypts to. */
  lemma OwnSegmentCompletes(l: Link, st: State, got: set<nat>, i: nat, arrived: real, swept: real, since: real)
    requires l.Valid() && l.Collected(st, got, since) && got + {i} == Indices(l.Count())
    ensures var st' := HandleSegment(l.c, l.keys, st, l.m.src, l.m.dst, l.HeaderOf(i), arrived, swept);
      && l.BufferKey() !in st'.buffers
      && st'.handedUp == st.handedUp + l.HandUps()
      && match l.Outcome()
         case None => st'.events == st.events && st'.pending == st.pending
         case Some(payload) =>
           var up := HandedUp(st, Some(l.BufferKey()), l.m.src, payload);
           st'.events == up.events && st'.pending == up.pending
  {
    var b := Filed(st, l.m.src, l.m.dst, l.HeaderOf(i), arrived);
    FiledOwn(l, st, got, i, arrived, since);
    WholeMessage(l, b);
    OwnCompletion(l, st, st.(buffers := st.buffers[l.BufferKey() := b]), b);
    hide Complete;
    hide HandedUp;
    hide Reassemble;
    hide Filed;
  }

  lemma OwnCompletion(l: Link, st: State, st1: State, b: Buffer)
    requires st1 == st.(buffers := st.buffers[l.BufferKey() := b])
    requires b.src == l.m.src && Reassemble(l.c, l.keys, b) == l.Outcome()
    ensures var st' := Complete(l.c, l.keys, st1, l.BufferKey());
      && l.BufferKey() !in st'.buffers
      && st'.handedUp == st.handedUp + l.HandUps()
      && match l.Outcome()
         case None => st'.events == st.events && st'.pending == st.pending
         case Some(payload) =>
           var up := HandedUp(st, Some(l.BufferKey()), l.m.src, payload);
           st'.events == up.events && st'.pending == up.pending
  {
  }

  // ---- Other traffic

  predicate Foreign(l: Link, n: Notification) {
    var heard := Listen(l.c, l.keys, n.data);
    heard.Part? ==> KeyFor(heard.src, heard.dst, heard.header) != l.BufferKey()
  }

  /** The hand-ups of one buffer key, in order. */
  function Mine(log: seq<HandUp>, key: Reassembly.BufferKey): seq<HandUp> {
    if log == [] then []
    else
      var last := log[|log| - 1];
      Mine(log[..|log| - 1], key) + (if last.key == Some(key) then [last] else [])
  }

  lemma MineAppend(log: seq<HandUp>, entry: HandUp, key: Reassembly.BufferKey)
    ensures Mine(log + [entry], key) == Mine(log, key) + (if entry.key == Some(key) then [entry] else [])
  {
    assert (log + [entry])[..|log|] == log;
  }

  /** The indices held, how often the message was whole, and when the first of the held ones came. */
  datatype Progress = Progress(got: set<nat>, rounds: nat, since: real)

  /** What a sweep leaves. */
  function Kept(p: Progress, swept: real): Progress {
    if Stale(p.since, swept) then p.(got := {}) else p
  }

  /** A notification that is no segment of our key leaves what is held of it, except that any
      segment sweeps away a buffer that has gone stale. */
  lemma ForeignStep(l: Link, st: State, n: Notification, p: Progress)
    requires Foreign(l, n) && l.Collected(st, p.got, p.since)
    ensures var st' := Step(l.c, l.keys, st, n);
      var p' := if Listen(l.c, l.keys, n.data).Part? then Kept(p, n.swept) else p;
      l.Collected(st', p'.got, p'.since) && Mine(st'.handedUp, l.BufferKey()) == Mine(st.handedUp, l.BufferKey())
  {
    hide HandleSegment;
    hide HandedUp;
    hide Listen;
    match Listen(l.c, l.keys, n.data)
    case Whole(src, payload) =>
      HandedUpLogs(st, None, src, payload);
      MineAppend(st.handedUp, HandUp(None, src, payload), l.BufferKey());
    case Part(src, dst, h) =>
      ForeignSegment(l, st, src, dst, h, n.arrived, n.swept, p);
    case _ =>
  }

  lemma ForeignSegment(l: Link, st: State, src: u16, dst: u16, h: SegmentHeader, arrived: real, swept: real,
    p: Progress)
    requires KeyFor(src, dst, h) != l.BufferKey() && l.Collected(st, p.got, p.since)
    ensures var st' := HandleSegment(l.c, l.keys, st, src, dst, h, arrived, swept);
      var p' := Kept(p, swept);
      l.Collected(st', p'.got, p'.since) && Mine(st'.handedUp, l.BufferKey()) == Mine(st.handedUp, l.BufferKey())
  {
    hide Complete;
    hide Filed;
    hide Mine;
    hide Swept;
    hide Segments;
    hide Stale;
    var key, b := KeyFor(src, dst, h), Filed(st, src, dst, h, arrived);
    var st1 := st.(buffers := st.buffers[key := b]);
    if |b.segments| == b.segN + 1 {
      ForeignCompletion(l, st1, key);
      SweptAt(st1.buffers - {key}, swept, l.BufferKey());
    } else {
      SweptAt(st1.buffers, swept, l.BufferKey());
    }
  }

  lemma ForeignCompletion(l: Link, st: State, key: Reassembly.BufferKey)
    requires key in st.buffers && key != l.BufferKey()
    ensures var st' := Complete(l.c, l.keys, st, key);
      st'.buffers == st.buffers - {key} && Mine(st'.handedUp, l.BufferKey()) == Mine(st.handedUp, l.BufferKey())
  {
    var b := st.buffers[key];
    match Reassemble(l.c, l.keys, b)
    case None =>
    case Some(payload) =>
      HandedUpLogs(st.(buffers := st.buffers - {key}), Some(key), b.src, payload);
      MineAppend(st.handedUp, HandUp(Some(key), b.src, payload), l.BufferKey());
      hide Mine;
      hide HandedUp;
      hide Reassemble;
  }

  // ---- Whole runs

  /** A received notification: our i-th packet, or anything that is not a segment of our key. */
  datatype Arrival = Ours(index: nat, arrived: real, swept: real) | Other(n: Notification)

  ghost predicate Plausible(l: Link, a: Arrival) {
    match a
    case Ours(i, _, _) => i < l.Count()
    case Other(n) => Foreign(l, n)
  }

  ghost predicate Schedule(l: Link, arrivals: seq<Arrival>) {
    forall a :: a in arrivals ==> Plausible(l, a)
  }

  function Received(l: Link, a: Arrival): Notification
    requires l.m.seqStart + l.Count() < SEQ_LIMIT && (a.Ours? ==> a.index < l.Count())
  {
    match a
    case Ours(i, arrived, swept) => Notification(l.Packet(i), arrived, swept)
    case Other(n) => n
  }

  ghost function After(l: Link, st: State, arrivals: seq<Arrival>): State
    requires l.Valid() && Schedule(l, arrivals)
  {
    LinkCount(l);
    Run(l.c, l.keys, st, seq(|arrivals|, i requires 0 <= i < |arrivals| =>
      assert arrivals[i] in arrivals && Plausible(l, arrivals[i]); Received(l, arrivals[i])))
  }

  function Advance(l: Link, p: Progress, a: Arrival): Progress {
    match a
    case Other(n) => if Listen(l.c, l.keys, n.data).Part? then Kept(p, n.swept) else p
    case Ours(i, arrived, swept) =>
      if p.got + {i} == Indices(l.Count()) then Progress({}, p.rounds + 1, arrived)
      else Kept(Progress(p.got + {i}, p.rounds, Since(p.got, p.since, arrived)), swept)
  }

  function Got(l: Link, arrivals: seq<Arrival>): Progress {
    if arrivals == [] then Progress({}, 0, 0.0)
    else Advance(l, Got(l, arrivals[..|arrivals| - 1]), arrivals[|arrivals| - 1])
  }

  function Times<T>(s: seq<T>, n: nat): seq<T> { if n == 0 then [] else Times(s, n - 1) + s }

  lemma AfterLast(l: Link, st: State, arrivals: seq<Arrival>)
    requires l.Valid() && Schedule(l, arrivals) && arrivals != []
    ensures Schedule(l, arrivals[..|arrivals| - 1])
    ensures l.m.seqStart + l.Count() < SEQ_LIMIT
    ensures var last := arrivals[|arrivals| - 1];
      Plausible(l, last) &&
      After(l, st, arrivals) == Step(l.c, l.keys, After(l, st, arrivals[..|arrivals| - 1]), Received(l, last))
  {
    hide Step;
    LinkCount(l);
    var n := |arrivals|;
    assert arrivals[n - 1] in arrivals;
    forall a | a in arrivals[..n - 1] ensures Plausible(l, a) { assert a in arrivals; }
    var all := seq(n, i requires 0 <= i < n =>
      assert arrivals[i] in arrivals && Plausible(l, arrivals[i]); Received(l, arrivals[i]));
    var front := arrivals[..n - 1];
    var some := seq(n - 1, i requires 0 <= i < n - 1 =>
      assert front[i] in front && Plausible(l, front[i]); Received(l, front[i]));
    assert all[..n - 1] == some;
  }

  /** The receiver is where `p` says, having started with `log`. */
  predicate InStep(l: Link, st: State, p: Progress, log: seq<HandUp>) {
    && p.got < Indices(l.Count())
    && l.Collected(st, p.got, p.since)
    && Mine(st.handedUp, l.BufferKey()) == log + Times(l.HandUps(), p.rounds)
  }

  lemma OwnHandUps(l: Link, log: seq<HandUp>)
    ensures Mine(log + l.HandUps(), l.BufferKey()) == Mine(log, l.BufferKey()) + l.HandUps()
  {
    match l.Outcome()
    case None => assert log + [] == log;
    case Some(payload) => MineAppend(log, HandUp(Some(l.BufferKey()), l.m.src, payload), l.BufferKey());
  }

  lemma StepOfPacket(l: Link, st: State, a: Arrival)
    requires l.Valid() && a.Ours? && Plausible(l, a) && l.m.seqStart + l.Count() < SEQ_LIMIT
    ensures Step(l.c, l.keys, st, Received(l, a))
      == HandleSegment(l.c, l.keys, st, l.m.src, l.m.dst, l.HeaderOf(a.index), a.arrived, a.swept)
  {
    hide HandleSegment;
    hide Segments;
    hide Listen;
    hide Link.Packet;
    hide Link.HeaderOf;
    ListenToPacket(l, a.index);
  }

  lemma IndicesGrow(got: set<nat>, i: nat, n: nat)
    requires got < Indices(n) && i < n
    ensures {} < Indices(n) && got + {i} <= Indices(n)
  {
    assert i in Indices(n);
  }

  lemma OwnSegment(l: Link, st: State, p: Progress, i: nat, arrived: real, swept: real)
    requires l.Valid() && i < l.Count() && p.got < Indices(l.Count()) && l.Collected(st, p.got, p.since)
    ensures var st' := HandleSegment(l.c, l.keys, st, l.m.src, l.m.dst, l.HeaderOf(i), arrived, swept);
      var p' := Advance(l, p, Ours(i, arrived, swept));
      && l.Collected(st', p'.got, p'.since) && p'.got < Indices(l.Count())
      && st'.handedUp == st.handedUp + (if p'.rounds == p.rounds then [] else l.HandUps())
  {
    hide HandleSegment;
    hide Segments;
    hide Indices;
    hide Stale;
    hide Link.HandUps;
    hide Link.HeaderOf;
    IndicesGrow(p.got, i, l.Count());
    if p.got + {i} == Indices(l.Count()) {
      OwnSegmentCompletes(l, st, p.got, i, arrived, swept, p.since);
    } else {
      OwnSegmentStored(l, st, p.got, i, arrived, swept, p.since);
      hide Link.Collected;
    }
  }

  lemma OneMore(log: seq<HandUp>, s: seq<HandUp>, n: nat)
    ensures log + Times(s, n + 1) == log + Times(s, n) + s
  {
  }

  lemma MineAfterOwn(l: Link, log: seq<HandUp>, before: seq<HandUp>, rounds: nat, whole: bool)
    requires Mine(before, l.BufferKey()) == log + Times(l.HandUps(), rounds)
    ensures Mine(before + (if whole then l.HandUps() else []), l.BufferKey())
      == log + Times(l.HandUps(), if whole then rounds + 1 else rounds)
  {
    if whole {
      OwnHandUps(l, before);
      OneMore(log, l.HandUps(), rounds);
    } else {
      assert before + [] == before;
    }
  }

  lemma RoundsGrowByOne(l: Link, p: Progress, a: Arrival)
    ensures Advance(l, p, a).rounds == p.rounds || Advance(l, p, a).rounds == p.rounds + 1
  {
    hide Listen;
    hide Segments;
  }

  lemma OwnStep(l: Link, st: State, p: Progress, a: Arrival, log: seq<HandUp>)
    requires l.Valid() && a.Ours? && Plausible(l, a) && l.m.seqStart + l.Count() < SEQ_LIMIT
    requires InStep(l, st, p, log)
    ensures InStep(l, Step(l.c, l.keys, st, Received(l, a)), Advance(l, p, a), log)
  {
    hide Step;
    hide Mine;
    hide Times;
    hide Segments;
    hide Advance;
    hide Received;
    hide Indices;
    hide Link.Collected;
    hide Link.HandUps;
    StepOfPacket(l, st, a);
    OwnSegment(l, st, p, a.index, a.arrived, a.swept);
    RoundsGrowByOne(l, p, a);
    MineAfterOwn(l, log, st.handedUp, p.rounds, Advance(l, p, a).rounds != p.rounds);
  }

  /** At every point of every schedule, whatever its timing, the receiver holds exactly the chunks
      that arrived since the message was last whole or thrown away as stale, and has handed it up once
      for every time it became whole. */
  lemma {:induction false} RunCollects(l: Link, st: State, arrivals: seq<Arrival>)
    requires l.Valid() && Schedule(l, arrivals) && l.BufferKey() !in st.buffers
    ensures InStep(l, After(l, st, arrivals), Got(l, arrivals), Mine(st.handedUp, l.BufferKey()))
  {
    LinkCount(l);
    if arrivals == [] {
      assert 0 in Indices(l.Count());
    } else {
      hide Step;
      AfterLast(l, st, arrivals);
      var before, last := arrivals[..|arrivals| - 1], arrivals[|arrivals| - 1];
      RunCollects(l, st, before);
      hide After;
      var st0, p := After(l, st, before), Got(l, before);
      match last
      case Other(n) => ForeignStep(l, st0, n, p);
      case Ours(_, _, _) => OwnStep(l, st0, p, last, Mine(st.handedUp, l.BufferKey()));
    }
  }

  // ---- The delivery theorem

  lemma OutcomeIsPayload(l: Link)
    requires l.Valid() && l.m.seqStart < SEQ_ZERO_LIMIT
    ensures l.Outcome() == Some(l.m.payload)
  {
    NoncesAgreeExactlyWhen(l.m, l.keys.net.ivIndex);
  }

  /** The indices that have arrived at all. */
  function Covered(arrivals: seq<Arrival>): set<nat> {
    set a | a in arrivals && a.Ours? :: a.index
  }

  /** No own segment before `t0`, and no sweep more than ten seconds after it. */
  predicate InTime(l: Link, a: Arrival, t0: real) {
    match a
    case Ours(_, arrived, swept) => t0 <= arrived && swept <= t0 + REASSEMBLY_TIMEOUT
    case Other(n) => Listen(l.c, l.keys, n.data).Part? ==> n.swept <= t0 + REASSEMBLY_TIMEOUT
  }

  predicate Prompt(l: Link, arrivals: seq<Arrival>, t0: real) {
    forall a :: a in arrivals ==> InTime(l, a, t0)
  }

  function IndexOf(a: Arrival): set<nat> { if a.Ours? then {a.index} else {} }

  lemma LastArrival(l: Link, before: seq<Arrival>, last: Arrival, t0: real)
    requires Prompt(l, before + [last], t0)
    ensures Prompt(l, before, t0) && InTime(l, last, t0)
    ensures Covered(before + [last]) == Covered(before) + IndexOf(last)
  {
    hide InTime;
    assert (before + [last])[|before|] == last;
  }

  lemma AdvanceLosesNothing(l: Link, p: Progress, a: Arrival, t0: real)
    requires InTime(l, a, t0) && p.got + IndexOf(a) < Indices(l.Count()) && (p.got != {} ==> t0 <= p.since)
    ensures var p' := Advance(l, p, a);
      p'.got == p.got + IndexOf(a) && p'.rounds == p.rounds && (p'.got != {} ==> t0 <= p'.since)
  {
    hide Listen;
    hide Indices;
    hide Segments;
  }

  lemma {:induction false} NothingLostBeforeWhole(l: Link, arrivals: seq<Arrival>, t0: real)
    requires Prompt(l, arrivals, t0) && Covered(arrivals) < Indices(l.Count())
    ensures var p := Got(l, arrivals);
      p.got == Covered(arrivals) && p.rounds == 0 && (p.got != {} ==> t0 <= p.since)
  {
    if arrivals == [] {
      assert Covered(arrivals) == {};
    } else {
      hide Covered;
      hide Prompt;
      hide Advance;
      hide IndexOf;
      hide Indices;
      hide Segments;
      var k := |arrivals| - 1;
      assert arrivals == arrivals[..k] + [arrivals[k]];
      LastArrival(l, arrivals[..k], arrivals[k], t0);
      NothingLostBeforeWhole(l, arrivals[..k], t0);
      AdvanceLosesNothing(l, Got(l, arrivals[..k]), arrivals[k], t0);
    }
  }

  /** Any order, any repetition, any other traffic: while an index is missing nothing of the message
      is handed up, and when the last missing one arrives exactly the sent payload is handed up
      and dispatched, once. Only the segments before the last have to come within ten seconds. */
  lemma DeliveredWhenLastMissingArrives(l: Link, st: State, arrivals: seq<Arrival>, last: Arrival, t0: real)
    requires l.Valid() && l.m.seqStart < SEQ_ZERO_LIMIT && l.BufferKey() !in st.buffers
    requires Schedule(l, arrivals + [last]) && last.Ours? && Prompt(l, arrivals, t0)
    requires Covered(arrivals) < Indices(l.Count()) == Covered(arrivals) + {last.index}
    ensures Schedule(l, arrivals)
    ensures var before := After(l, st, arrivals);
      var after := After(l, st, arrivals + [last]);
      var key := l.BufferKey();
      var whole := HandUp(Some(key), l.m.src, l.m.payload);
      && Mine(before.handedUp, key) == Mine(st.handedUp, key)
      && after.handedUp == before.handedUp + [whole]
      && Answered(before, after, l.m.payload)
      && key !in after.buffers
  {
    hide Answered;
    hide HandleSegment;
    hide HandedUp;
    hide Step;
    hide Received;
    hide Mine;
    hide Prompt;
    hide Covered;
    hide Got;
    hide Indices;
    hide Segments;
    hide Link.HeaderOf;
    hide Link.Collected;
    var all := arrivals + [last];
    assert all[..|all| - 1] == arrivals && all[|all| - 1] == last;
    AfterLast(l, st, all);
    NothingLostBeforeWhole(l, arrivals, t0);
    RunCollects(l, st, arrivals);
    hide After;
    OutcomeIsPayload(l);
    StepOfPacket(l, After(l, st, arrivals), last);
    assert Mine(st.handedUp, l.BufferKey()) + [] == Mine(st.handedUp, l.BufferKey());
    var before := After(l, st, arrivals);
    OwnSegmentCompletes(l, before, Covered(arrivals), last.index, last.arrived, last.swept, Got(l, arrivals).since);
    var up := HandedUp(before, Some(l.BufferKey()), l.m.src, l.m.payload);
    HandedUpAnswers(before, Some(l.BufferKey()), l.m.src, l.m.payload);
    AnsweredBetween(before, up, before, After(l, st, all), l.m.payload);
  }

  /** Over a whole schedule, whatever its timing, the payload is handed up once for every time its
      index set filled up: a second full set of duplicates delivers the message a second time. */
  lemma DeliveredOncePerFullSet(l: Link, st: State, arrivals: seq<Arrival>)
    requires l.Valid() && l.m.seqStart < SEQ_ZERO_LIMIT && l.BufferKey() !in st.buffers
    requires Schedule(l, arrivals)
    ensures Mine(After(l, st, arrivals).handedUp, l.BufferKey())
      == Mine(st.handedUp, l.BufferKey())
         + Times([HandUp(Some(l.BufferKey()), l.m.src, l.m.payload)], Got(l, arrivals).rounds)
  {
    OutcomeIsPayload(l);
    RunCollects(l, st, arrivals);
  }

  // ---- The bound on the sequence number is exact

  function InOrder(n: nat): (a: seq<Arrival>)
    ensures |a| == n
    ensures forall i :: 0 <= i < n ==> a[i] == Ours(i, 0.0, 0.0)
  {
    seq(n, i requires 0 <= i < n => Ours(i, 0.0, 0.0))
  }

  lemma NextIndex(k: nat, n: nat)
    requires k < n
    ensures Indices(k) + {k} == Indices(k + 1) && (Indices(k + 1) == Indices(n) <==> k + 1 == n)
  {
    assert |Indices(k + 1)| == k + 1 && |Indices(n)| == n;
    hide Indices;
  }

  lemma AdvanceInOrder(l: Link, k: nat)
    requires k < l.Count()
    ensures Advance(l, Progress(Indices(k), 0, 0.0), Ours(k, 0.0, 0.0))
      == if k + 1 == l.Count() then Progress({}, 1, 0.0) else Progress(Indices(k + 1), 0, 0.0)
  {
    hide Segments;
    NextIndex(k, l.Count());
    NothingBelowZero(k);
    hide Indices;
  }

  lemma NothingBelowZero(k: nat)
    ensures Indices(0) == {} && (k > 0 ==> Indices(k) != {})
  {
    assert k > 0 ==> 0 in Indices(k);
  }

  lemma {:induction false} InOrderCovers(l: Link, k: nat)
    requires k <= l.Count() && l.Count() > 0
    ensures Got(l, InOrder(k)) == (if k == l.Count() then Progress({}, 1, 0.0) else Progress(Indices(k), 0, 0.0))
  {
    if k == 0 {
    } else {
      hide Segments;
      hide Advance;
      assert InOrder(k)[..k - 1] == InOrder(k - 1);
      InOrderCovers(l, k - 1);
      AdvanceInOrder(l, k - 1);
      hide Indices;
      hide InOrder;
    }
  }

  /** The message reaches an idle receiver when its segments arrive promptly and in order. */
  ghost predicate Arrives(l: Link)
    requires l.Valid()
  {
    var arrivals := InOrder(l.Count());
    Schedule(l, arrivals) &&
    Mine(After(l, State(map[], [], [], []), arrivals).handedUp, l.BufferKey())
      == [HandUp(Some(l.BufferKey()), l.m.src, l.m.payload)]
  }

  lemma ArrivesWhenOutcome(l: Link)
    requires l.Valid()
    ensures Arrives(l) <==> l.Outcome() == Some(l.m.payload)
  {
    var arrivals := InOrder(l.Count());
    LinkCount(l);
    RunCollects(l, State(map[], [], [], []), arrivals);
    InOrderCovers(l, l.Count());
    assert Times(l.HandUps(), 1) == l.HandUps();
  }

  lemma TagHoldsSequence(akf: bit, szmic: bit, seqNo: nat, src: nat, dst: nat, ivIndex: nat, m: nat)
    requires m >= 3
    ensures SequenceTag(AppNonce(akf, szmic, seqNo, src, dst, ivIndex), m)[..3] == U24(seqNo)
  {
    assert AppNonce(akf, szmic, seqNo, src, dst, ivIndex)[2..5] == U24(seqNo);
    assert SequenceTag(AppNonce(akf, szmic, seqNo, src, dst, ivIndex), m)[..3]
        == AppNonce(akf, szmic, seqNo, src, dst, ivIndex)[2..5];
  }

  lemma TagOpenChecks(sealedUnder: bytes, openedUnder: bytes, p: bytes, m: nat)
    requires SequenceTag(sealedUnder, m) != SequenceTag(openedUnder, m)
    ensures TagOpen(openedUnder, TagSeal(sealedUnder, p, m), m) == None
  {
    var d := TagSeal(sealedUnder, p, m);
    assert d[|d| - m..] == SequenceTag(sealedUnder, m);
  }

  lemma TagsDiffer(l: Link)
    requires l.Valid() && l.c == TagCipher() && l.m.seqStart >= SEQ_ZERO_LIMIT
    ensures l.Outcome() == None
  {
    hide U24;
    hide Segments;
    var m, iv, micLen := l.m, l.keys.net.ivIndex, TransMicLen(l.m.szmic);
    var theirs := AppNonce(m.akf, m.szmic, m.seqStart, m.src, m.dst, iv);
    var ours := AppNonce(m.akf, m.szmic, m.seqStart % SEQ_ZERO_LIMIT, m.src, m.dst, iv);
    TagHoldsSequence(m.akf, m.szmic, m.seqStart, m.src, m.dst, iv, micLen);
    TagHoldsSequence(m.akf, m.szmic, m.seqStart % SEQ_ZERO_LIMIT, m.src, m.dst, iv, micLen);
    U24Injective(m.seqStart, m.seqStart % SEQ_ZERO_LIMIT);
    TagOpenChecks(theirs, ours, m.payload, micLen);
  }

  /** A segmented message gets through whatever the cipher exactly when its first sequence number
      fits the 13 bits of SeqZero. */
  lemma DeliversExactlyWhen(l: Link)
    requires l.Valid()
    ensures (forall c: Aes :: Lawful(c) ==> Arrives(l.(c := c))) <==> l.m.seqStart < SEQ_ZERO_LIMIT
  {
    if l.m.seqStart < SEQ_ZERO_LIMIT {
      forall c: Aes | Lawful(c) ensures Arrives(l.(c := c)) {
        OutcomeIsPayload(l.(c := c));
        ArrivesWhenOutcome(l.(c := c));
      }
    } else {
      TagCipherIsLawful();
      var bad := l.(c := TagCipher());
      TagsDiffer(bad);
      ArrivesWhenOutcome(bad);
    }
  }
}
