/** Everything that leaves the devices: network PDUs made from allocated numbers, written out in
    any order, over any number of senders, retries, failed writes and crashes. */
module SendHistory {
  import opened Bytes
  import opened Cipher
  import opened NetworkLayer
  import opened LowerTransport
  import Reassembly
  import opened Delivery
  import opened SequenceSafety

  /** `waiting` are the PDUs made and not yet written, of all senders together; `sealed` are the access
      messages encrypted for sending, with the sequence number that went into the nonce. */
  datatype Network = Network(
    system: System, waiting: seq<NetworkPdu>, sent: seq<NetworkPdu>, sealed: seq<Message>)

  datatype Action =
    | SendOne(c: Aes, key: Key, ivIndex: u32, ttl: nat, m: Message)  // one attempt; a retry is another
    | SendSegments(c: Aes, key: Key, ivIndex: u32, ttl: nat, m: Message)
    | Write(i: nat)                               // some sender writes its next PDU
    | Abandon(i: nat)                             // a sender gives up before writing it
    | Store(e: Event)                             // anything else that happens to the counter

  function Without<T>(s: seq<T>, i: nat): seq<T>
    requires i < |s|
  {
    s[..i] + s[i + 1..]
  }

  /** The count that `send_config_appkey_add` reserves before it encrypts. */
  function Reserved(m: Message): nat { SegmentCount(|m.payload| + TransMicLen(m.szmic)) }

  /** The network PDUs of a segmented message that starts at `first`. */
  function SegmentPdus(c: Aes, key: Key, ivIndex: u32, ttl: nat, m: Message, first: nat): (pdus: seq<NetworkPdu>)
    requires Lawful(c) && first + Reserved(m) < SEQ_LIMIT
    ensures |pdus| == Reserved(m)
    ensures forall i :: 0 <= i < |pdus| ==> pdus[i].seqNo == first + i
  {
    var m1 := m.(seqStart := first);
    var segments := Segments(c, key, ivIndex, m1);
    SegmentationLosesNothing(c, key, ivIndex, m1);
    seq(|segments|, i requires 0 <= i < |segments| =>
      NetworkPdu(0, ttl, segments[i].seqNo, m.src, m.dst, segments[i].pdu))
  }

  /** The network PDU of an unsegmented message sealed under `first`; none when it is too long. */
  function OnePdu(c: Aes, key: Key, ivIndex: u32, ttl: nat, m: Message, first: u32): (pdus: seq<NetworkPdu>)
    requires m.szmic == 0
    ensures |pdus| == if |m.payload| <= MAX_UNSEG_ACCESS_PAYLOAD then 1 else 0
    ensures forall i :: 0 <= i < |pdus| ==> pdus[i].seqNo == first + i
  {
    match MakeAccessUnsegmented(c, key, ivIndex, m.(seqStart := first))
    case Raised(_) => []
    case Ok(transportPdu) => [NetworkPdu(0, ttl, first, m.src, m.dst, transportPdu)]
  }

  /** The rules for the counter; what is sent and when is up to the senders. */
  ghost predicate Follows(n: Network, a: Action, saved: map<string, nat>) {
    match a
    case SendOne(_, _, _, _, m) => m.szmic == 0 && SequenceSafety.Follows(n.system, NextSeq, saved)
    case SendSegments(c, _, _, _, m) => Lawful(c) && SequenceSafety.Follows(n.system, NextSeqs(Reserved(m)), saved)
    case Store(e) => SequenceSafety.Follows(n.system, e, saved)
    case _ => true
  }

  ghost function Perform(n: Network, a: Action): Network
    requires a.SendOne? ==> a.m.szmic == 0
    requires a.SendSegments? ==> Lawful(a.c)
  {
    var first := n.system.counter.next;
    match a
    case SendOne(c, key, ivIndex, ttl, m) =>
      if !CanAllocate(n.system.counter, 1, true) then n
      else
        var pdus := OnePdu(c, key, ivIndex, ttl, m, first);
        n.(system := Apply(n.system, NextSeq), waiting := n.waiting + pdus,
           sealed := n.sealed + (if pdus == [] then [] else [m.(seqStart := first)]))
    case SendSegments(c, key, ivIndex, ttl, m) =>
      if !CanAllocate(n.system.counter, Reserved(m), false) then n
      else n.(system := Apply(n.system, NextSeqs(Reserved(m))),
              waiting := n.waiting + SegmentPdus(c, key, ivIndex, ttl, m, first),
              sealed := n.sealed + [m.(seqStart := first)])
    case Write(i) =>
      if i >= |n.waiting| then n
      else n.(waiting := Without(n.waiting, i), sent := n.sent + [n.waiting[i]])
    case Abandon(i) => if i >= |n.waiting| then n else n.(waiting := Without(n.waiting, i))
    case Store(e) => n.(system := Apply(n.system, e), waiting := if e.Crash? then [] else n.waiting)
  }

  ghost predicate FollowsAll(n: Network, actions: seq<Action>, saved: map<string, nat>)
    decreases |actions|
  {
    actions == [] ||
    (Follows(n, actions[0], saved) && FollowsAll(Perform(n, actions[0]), actions[1..], saved))
  }

  ghost function PerformAll(n: Network, actions: seq<Action>, saved: map<string, nat>): Network
    requires FollowsAll(n, actions, saved)
    decreases |actions|
  {
    if actions == [] then n else PerformAll(Perform(n, actions[0]), actions[1..], saved)
  }

  // ---- Each number is in at most one PDU

  predicate DistinctNumbers(pdus: seq<NetworkPdu>) {
    forall i, j :: 0 <= i < j < |pdus| ==> pdus[i].seqNo != pdus[j].seqNo
  }

  predicate Apart(a: seq<NetworkPdu>, b: seq<NetworkPdu>) {
    forall i, j :: 0 <= i < |a| && 0 <= j < |b| ==> a[i].seqNo != b[j].seqNo
  }

  predicate AllIssued(s: System, pdus: seq<NetworkPdu>) {
    forall i :: 0 <= i < |pdus| ==> pdus[i].seqNo in s.issued
  }

  predicate DistinctStarts(ms: seq<Message>) {
    forall i, j :: 0 <= i < j < |ms| ==> ms[i].seqStart != ms[j].seqStart
  }

  predicate AllStartsIssued(s: System, ms: seq<Message>) {
    forall i :: 0 <= i < |ms| ==> ms[i].seqStart in s.issued
  }

  /** Every number in a PDU or in the nonce of a message was issued, and is there only once. */
  ghost predicate Accounted(n: Network) {
    && AllIssued(n.system, n.waiting) && AllIssued(n.system, n.sent) && AllStartsIssued(n.system, n.sealed)
    && DistinctNumbers(n.waiting) && DistinctNumbers(n.sent) && Apart(n.waiting, n.sent)
    && DistinctStarts(n.sealed)
  }

  ghost predicate Sound(n: Network, saved: map<string, nat>) {
    SequenceSafety.Sound(n.system, saved) && Accounted(n)
  }

  /** New numbers are above every issued one. */
  lemma AllocateIsNew(s: System, k: nat, single: bool, saved: map<string, nat>)
    requires SequenceSafety.Sound(s, saved) && MayAllocate(s) && CanAllocate(s.counter, k, single)
    ensures var t := Allocate(s, k, single);
      && (forall x :: x in s.issued ==> x in t.issued && x < s.counter.next)
      && (forall x: nat :: s.counter.next <= x < s.counter.next + k ==> x in t.issued)
  {
    var t := Allocate(s, k, single);
    forall x | x in s.issued ensures x < s.counter.next {
      var i :| 0 <= i < |s.issued| && s.issued[i] == x;
      assert i < |s.issued| - 1 ==> s.issued[i] < s.issued[|s.issued| - 1];
    }
    forall x: nat | s.counter.next <= x < s.counter.next + k ensures x in t.issued {
      assert t.issued[|s.issued| + (x - s.counter.next)] == x;
    }
  }

  lemma AddPdus(n: Network, t: System, pdus: seq<NetworkPdu>)
    requires Accounted(n)
    requires forall x :: x in n.system.issued ==> x in t.issued && x < n.system.counter.next
    requires forall i :: 0 <= i < |pdus| ==> pdus[i].seqNo == n.system.counter.next + i && pdus[i].seqNo in t.issued
    ensures Accounted(n.(system := t, waiting := n.waiting + pdus))
  {
    var waiting := n.waiting + pdus;
    forall i | 0 <= i < |waiting| ensures waiting[i].seqNo in t.issued
      && (i >= |n.waiting| ==> waiting[i].seqNo == n.system.counter.next + (i - |n.waiting|))
      && (i < |n.waiting| ==> waiting[i] == n.waiting[i] && waiting[i].seqNo < n.system.counter.next)
    {
      if i >= |n.waiting| { assert waiting[i] == pdus[i - |n.waiting|]; }
    }
  }

  lemma AddSealed(n: Network, below: nat, m: Message)
    requires Accounted(n) && m.seqStart in n.system.issued && m.seqStart >= below
    requires forall i :: 0 <= i < |n.sealed| ==> n.sealed[i].seqStart < below
    ensures Accounted(n.(sealed := n.sealed + [m]))
  {
    hide DistinctNumbers;
    hide Apart;
    hide AllIssued;
  }

  lemma WithoutKeepsAccounted(n: Network, i: nat)
    requires Accounted(n) && i < |n.waiting|
    ensures Accounted(n.(waiting := Without(n.waiting, i)))
    ensures Accounted(n.(waiting := Without(n.waiting, i), sent := n.sent + [n.waiting[i]]))
  {
    hide AllStartsIssued;
    hide DistinctStarts;
    var rest := Without(n.waiting, i);
    forall j | 0 <= j < |rest| ensures rest[j] == n.waiting[if j < i then j else j + 1] {
    }
    hide Without;
  }

  lemma SendOneKeepsSound(n: Network, c: Aes, key: Key, ivIndex: u32, ttl: nat, m: Message, saved: map<string, nat>)
    requires Sound(n, saved) && Follows(n, SendOne(c, key, ivIndex, ttl, m), saved)
    ensures Sound(Perform(n, SendOne(c, key, ivIndex, ttl, m)), saved)
  {
    FollowingKeepsSound(n.system, NextSeq, saved);
    if CanAllocate(n.system.counter, 1, true) {
      AllocateIsNew(n.system, 1, true, saved);
      hide SequenceSafety.Sound;
      hide Allocate;
      hide OnePdu;
      var first, t := n.system.counter.next, Apply(n.system, NextSeq);
      var pdus := OnePdu(c, key, ivIndex, ttl, m, first);
      AddPdus(n, t, pdus);
      assert n.sealed + [] == n.sealed;
      SealedIsBelow(n);
      if pdus != [] { AddSealed(n.(system := t, waiting := n.waiting + pdus), first, m.(seqStart := first)); }
      hide Accounted;
    }
  }

  lemma SealedIsBelow(n: Network)
    requires Accounted(n) && forall x :: x in n.system.issued ==> x < n.system.counter.next
    ensures forall i :: 0 <= i < |n.sealed| ==> n.sealed[i].seqStart < n.system.counter.next
  {
  }

  lemma SendSegmentsKeepsSound(n: Network, c: Aes, key: Key, ivIndex: u32, ttl: nat, m: Message,
    saved: map<string, nat>)
    requires Sound(n, saved) && Follows(n, SendSegments(c, key, ivIndex, ttl, m), saved)
    ensures Sound(Perform(n, SendSegments(c, key, ivIndex, ttl, m)), saved)
  {
    assert Reserved(m) > 0;
    hide Reserved;
    FollowingKeepsSound(n.system, NextSeqs(Reserved(m)), saved);
    if CanAllocate(n.system.counter, Reserved(m), false) {
      AllocateIsNew(n.system, Reserved(m), false, saved);
      hide SequenceSafety.Sound;
      hide Allocate;
      hide SegmentPdus;
      var first, t := n.system.counter.next, Apply(n.system, NextSeqs(Reserved(m)));
      var pdus := SegmentPdus(c, key, ivIndex, ttl, m, first);
      AddPdus(n, t, pdus);
      SealedIsBelow(n);
      AddSealed(n.(system := t, waiting := n.waiting + pdus), first, m.(seqStart := first));
      hide Accounted;
    }
  }

  lemma StoreKeepsSound(n: Network, e: Event, saved: map<string, nat>)
    requires Sound(n, saved) && Follows(n, Store(e), saved)
    ensures Sound(Perform(n, Store(e)), saved)
  {
    hide SequenceSafety.Sound;
    hide SequenceSafety.Follows;
    hide Apply;
    FollowingKeepsSound(n.system, e, saved);
    IssuedStays(n.system, e);
  }

  /** One attempt, write, failed write or store event. */
  lemma PerformKeepsSound(n: Network, a: Action, saved: map<string, nat>)
    requires Sound(n, saved) && Follows(n, a, saved)
    ensures Sound(Perform(n, a), saved)
  {
    match a
    case SendOne(c, key, ivIndex, ttl, m) => SendOneKeepsSound(n, c, key, ivIndex, ttl, m, saved);
    case SendSegments(c, key, ivIndex, ttl, m) => SendSegmentsKeepsSound(n, c, key, ivIndex, ttl, m, saved);
    case Write(i) => if i < |n.waiting| { WithoutKeepsAccounted(n, i); }
    case Abandon(i) => if i < |n.waiting| { WithoutKeepsAccounted(n, i); }
    case Store(e) => StoreKeepsSound(n, e, saved);
    hide Accounted;
    hide SequenceSafety.Sound;
    hide SequenceSafety.Follows;
  }

  lemma IssuedStays(s: System, e: Event)
    ensures forall x :: x in s.issued ==> x in Apply(s, e).issued
  {
  }

  lemma {:induction false} RunKeepsSound(n: Network, actions: seq<Action>, saved: map<string, nat>)
    requires Sound(n, saved) && FollowsAll(n, actions, saved)
    ensures Sound(PerformAll(n, actions, saved), saved)
    decreases |actions|
  {
    if actions == [] {
    } else {
      PerformKeepsSound(n, actions[0], saved);
      RunKeepsSound(Perform(n, actions[0]), actions[1..], saved);
    }
  }

  lemma IssuedFits(s: System, x: nat)
    requires Ordered(s) && x in s.issued
    ensures x < SEQ_LIMIT && !InPrior(s, x)
  {
    OrderedIsUnrepeated(s);
    var i :| 0 <= i < |s.issued| && s.issued[i] == x;
    assert i < |s.issued| - 1 ==> s.issued[i] < s.issued[|s.issued| - 1];
    hide InPrior;
  }

  // ---- The PDUs are those that the delivery theorems speak about

  /** What is queued for an unsegmented message is heard as its source and payload. */
  lemma OnePduIsHeard(c: Aes, keys: MeshKeys, key: Key, ttl: nat, m: Message, first: u32)
    requires Lawful(c) && m.szmic == 0 && UsesKey(keys, m.akf, key) && |m.payload| <= 11
    ensures var pdus := OnePdu(c, key, keys.net.ivIndex, ttl, m, first);
      && |pdus| == 1 && EncryptNetworkPdu(c, keys.net, pdus[0]).Ok?
      && Reassembly.Listen(c, keys, [0] + EncryptNetworkPdu(c, keys.net, pdus[0]).value)
           == Reassembly.Whole(m.src, m.payload)
  {
    var m1 := m.(seqStart := first);
    UnsegmentedIsSent(c, keys, key, ttl, m1);
    var pdu := OnePdu(c, key, keys.net.ivIndex, ttl, m, first)[0];
    hide EncryptNetworkPdu;
    hide Reassembly.Listen;
    hide Lawful;
    var data := [0] + EncryptNetworkPdu(c, keys.net, pdu).value;
    assert data[1..] == EncryptNetworkPdu(c, keys.net, pdu).value;
    HearUnsegmented(c, keys, key, ttl, m1, data);
  }

  /** What is queued for a segmented message are the packets of the link that carries it. */
  lemma SegmentPdusAreTheLinks(l: Link, i: nat)
    requires l.Valid() && i < l.Count() && l.m.seqStart + l.Count() < SEQ_LIMIT
    ensures l.Count() == Reserved(l.m) && l.m.seqStart + Reserved(l.m) < SEQ_LIMIT
    ensures SegmentPdus(l.c, l.key, l.keys.net.ivIndex, l.ttl, l.m, l.m.seqStart)[i] == l.NetworkForm(i)
  {
    SegmentationLosesNothing(l.c, l.key, l.keys.net.ivIndex, l.m);
    assert l.m.(seqStart := l.m.seqStart) == l.m;
    hide Segments;
  }

  ghost function Start(s: System): Network { Network(s, [], [], []) }

  /** In every run that follows the rules no two PDUs that were sent share a network nonce, whatever
      their other fields and IV indices, and none carries a number that an entry had used before. */
  lemma NoNonceIsUsedTwice(s: System, actions: seq<Action>, saved: map<string, nat>,
    i: nat, j: nat, iv1: nat, iv2: nat)
    requires Fresh(s) && WithinMargin(s, saved) && FollowsAll(Start(s), actions, saved)
    requires i < j < |PerformAll(Start(s), actions, saved).sent|
    ensures var n := PerformAll(Start(s), actions, saved);
      var p, q := n.sent[i], n.sent[j];
      NetworkNonce(CtlTtl(p.ctl, p.ttl), p.seqNo, p.src, iv1) != NetworkNonce(CtlTtl(q.ctl, q.ttl), q.seqNo, q.src, iv2)
      && !InPrior(n.system, p.seqNo)
  {
    RunKeepsSound(Start(s), actions, saved);
    var n := PerformAll(Start(s), actions, saved);
    var p, q := n.sent[i], n.sent[j];
    IssuedFits(n.system, p.seqNo);
    IssuedFits(n.system, q.seqNo);
    var a := NetworkNonce(CtlTtl(p.ctl, p.ttl), p.seqNo, p.src, iv1);
    var b := NetworkNonce(CtlTtl(q.ctl, q.ttl), q.seqNo, q.src, iv2);
    if a == b {
      NonceDeterminesSequence(CtlTtl(p.ctl, p.ttl), p.seqNo, p.src, iv1, CtlTtl(q.ctl, q.ttl), q.seqNo, q.src, iv2);
    }
  }

  /** Nor do any two access messages that were encrypted share an application or device nonce. */
  lemma NoMessageNonceIsUsedTwice(s: System, actions: seq<Action>, saved: map<string, nat>,
    i: nat, j: nat, iv1: u32, iv2: u32)
    requires Fresh(s) && WithinMargin(s, saved) && FollowsAll(Start(s), actions, saved)
    requires i < j < |PerformAll(Start(s), actions, saved).sealed|
    ensures var n := PerformAll(Start(s), actions, saved);
      var a, b := n.sealed[i], n.sealed[j];
      AppNonce(a.akf, a.szmic, a.seqStart, a.src, a.dst, iv1) != AppNonce(b.akf, b.szmic, b.seqStart, b.src, b.dst, iv2)
      && !InPrior(n.system, a.seqStart)
  {
    RunKeepsSound(Start(s), actions, saved);
    var n := PerformAll(Start(s), actions, saved);
    var a, b := n.sealed[i], n.sealed[j];
    IssuedFits(n.system, a.seqStart);
    IssuedFits(n.system, b.seqStart);
    var nonce1 := AppNonce(a.akf, a.szmic, a.seqStart, a.src, a.dst, iv1);
    var nonce2 := AppNonce(b.akf, b.szmic, b.seqStart, b.src, b.dst, iv2);
    if nonce1 == nonce2 {
      AppNonceDeterminesSequence(a, iv1, b, iv2);
    }
  }
}
