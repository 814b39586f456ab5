/** The correlation engine: requests in flight, indexed by correlation key and by request id. */
module Correlation {
  import opened Bytes

  datatype Request = Request(id: nat, opcode: nat, expected: Option<nat>, target: nat, deadline: real)

  datatype Key = Key(opcode: nat, destination: nat, sequence: nat, requestId: nat)

  /** One item of the ordered dictionary. */
  datatype Entry = Entry(key: Key, request: Request)

  /** `expected_response_opcode or opcode`: an expected opcode of 0 counts as none. */
  function KeyOf(r: Request, sequence: nat): Key {
    var opcode := if r.expected.Some? && r.expected.value != 0 then r.expected.value else r.opcode;
    Key(opcode, r.target, sequence, r.id)
  }

  predicate Answers(e: Entry, opcode: nat, source: nat, sequence: nat) {
    e.key.opcode == opcode && e.key.destination == source && e.key.sequence == sequence
  }

  predicate Stale(e: Entry, now: real) { e.request.deadline <= now }

  function Keep(entries: seq<Entry>, now: real): seq<Entry> {
    if entries == [] then []
    else
      var last := entries[|entries| - 1];
      Keep(entries[..|entries| - 1], now) + (if Stale(last, now) then [] else [last])
  }

  function Drop(entries: seq<Entry>, now: real): seq<Entry> {
    if entries == [] then []
    else
      var last := entries[|entries| - 1];
      Drop(entries[..|entries| - 1], now) + (if Stale(last, now) then [last] else [])
  }

  predicate DistinctIds(entries: seq<Entry>) {
    forall i, j :: 0 <= i < j < |entries| ==> entries[i].request.id != entries[j].request.id
  }

  predicate HasId(entries: seq<Entry>, id: nat) {
    exists i :: 0 <= i < |entries| && entries[i].request.id == id
  }

  /** The index by id is the inverse of the dictionary. */
  predicate Inverse(entries: seq<Entry>, byId: map<nat, Key>) {
    && (forall i :: 0 <= i < |entries| ==>
          entries[i].key.requestId == entries[i].request.id
          && entries[i].request.id in byId && byId[entries[i].request.id] == entries[i].key)
    && (forall id :: id in byId ==> HasId(entries, id))
    && DistinctIds(entries)
  }

  function Without<T>(s: seq<T>, i: nat): seq<T>
    requires i < |s|
  {
    s[..i] + s[i + 1..]
  }

  lemma WithoutAt(entries: seq<Entry>, i: nat)
    requires i < |entries|
    ensures var rest := Without(entries, i);
      |rest| == |entries| - 1 &&
      (forall j :: 0 <= j < i ==> rest[j] == entries[j]) &&
      (forall j :: i <= j < |rest| ==> rest[j] == entries[j + 1])
    ensures multiset(entries) == multiset(Without(entries, i)) + multiset{entries[i]}
  {
    assert entries == entries[..i] + [entries[i]] + entries[i + 1..];
  }

  lemma HasIdWithout(entries: seq<Entry>, i: nat, id: nat)
    requires i < |entries| && HasId(entries, id) && id != entries[i].request.id
    ensures HasId(Without(entries, i), id)
  {
    var rest := Without(entries, i);
    var j :| 0 <= j < |entries| && entries[j].request.id == id;
    assert rest[if j < i then j else j - 1] == entries[j];
  }

  lemma DistinctWithout(entries: seq<Entry>, i: nat)
    requires i < |entries| && DistinctIds(entries)
    ensures DistinctIds(Without(entries, i))
    ensures var rest := Without(entries, i);
      forall j :: 0 <= j < |rest| ==> rest[j].request.id != entries[i].request.id
  {
    WithoutAt(entries, i);
    hide Without;
  }

  lemma RemoveKeepsInverse(entries: seq<Entry>, byId: map<nat, Key>, i: nat)
    requires Inverse(entries, byId) && i < |entries|
    ensures Inverse(Without(entries, i), byId - {entries[i].request.id})
  {
    var gone := entries[i].request.id;
    WithoutAt(entries, i);
    DistinctWithout(entries, i);
    hide Without;
    hide DistinctIds;
    forall id | id in byId && id != gone ensures HasId(Without(entries, i), id) {
      HasIdWithout(entries, i, id);
    }
    hide HasId;
  }

  lemma AddKeepsInverse(entries: seq<Entry>, byId: map<nat, Key>, e: Entry)
    requires Inverse(entries, byId) && e.request.id !in byId && e.key.requestId == e.request.id
    ensures Inverse(entries + [e], byId[e.request.id := e.key])
  {
    var more, byId1 := entries + [e], byId[e.request.id := e.key];
    assert forall i :: 0 <= i < |entries| ==> more[i] == entries[i];
    assert more[|entries|] == e;
    forall id | id in byId1 ensures HasId(more, id) {
      if id != e.request.id {
        var j :| 0 <= j < |entries| && entries[j].request.id == id;
        assert more[j].request.id == id;
      }
    }
  }

  lemma ExpiryStart(s: seq<Entry>, now: real)
    ensures Keep(s[..0], now) == [] && Drop(s[..0], now) == [] && [] + s[0..] == s
  {
  }

  lemma ExpiryStep(s: seq<Entry>, i: nat, now: real)
    requires i < |s|
    ensures var kept := Keep(s[..i], now);
      var rest := kept + s[i..];
      |kept| < |rest| && rest[|kept|] == s[i] &&
      Drop(s[..i + 1], now) == Drop(s[..i], now) + (if Stale(s[i], now) then [s[i]] else []) &&
      Keep(s[..i + 1], now) == kept + (if Stale(s[i], now) then [] else [s[i]]) &&
      Without(rest, |kept|) == kept + s[i + 1..] && rest == kept + [s[i]] + s[i + 1..]
  {
    assert s[..i + 1][..i] == s[..i];
    assert s[i..] == [s[i]] + s[i + 1..];
    var kept := Keep(s[..i], now);
    assert kept + ([s[i]] + s[i + 1..]) == kept + [s[i]] + s[i + 1..];
  }

  class CorrelationEngine {
    var pending: seq<Entry>          // the dictionary in insertion order
    var byRequestId: map<nat, Key>
    ghost var registered: multiset<Entry>
    ghost var matched: multiset<Entry>
    ghost var cancelled: multiset<Entry>
    ghost var expired: multiset<Entry>
    ghost var cleared: multiset<Entry>

    /** The two maps are inverse to each other, and every registered request is either pending or
        has left once, in one way. */
    ghost predicate Valid()
      reads this
    {
      && Inverse(pending, byRequestId)
      && registered == multiset(pending) + matched + cancelled + expired + cleared
    }

    constructor ()
      ensures Valid() && pending == [] && registered == multiset{}
    {
      pending, byRequestId := [], map[];
      registered := multiset{};
      matched, cancelled, expired, cleared := multiset{}, multiset{}, multiset{}, multiset{};
    }

    method Register(request: Request, sequence: nat) returns (r: Result<Key>)
      requires Valid()
      modifies this`pending, this`byRequestId, this`registered
      ensures Valid()
      ensures r.Ok? <==> forall i :: 0 <= i < |old(pending)| ==> old(pending)[i].request.id != request.id
      ensures r.Ok? ==>
        && r.value == KeyOf(request, sequence)
        && pending == old(pending) + [Entry(r.value, request)]
        && registered == old(registered) + multiset{Entry(r.value, request)}
      ensures r.Raised? ==> pending == old(pending) && registered == old(registered)
    {
      if request.id in byRequestId { return Raised(ProtocolError); }
      var key := KeyOf(request, sequence);
      AddKeepsInverse(pending, byRequestId, Entry(key, request));
      pending := pending + [Entry(key, request)];
      byRequestId := byRequestId[request.id := key];
      registered := registered + multiset{Entry(key, request)};
      hide Inverse;
      r := Ok(key);
    }

    /** Take the entry at index i out of both maps. */
    method TakeOut(i: nat) returns (e: Entry)
      requires Inverse(pending, byRequestId) && i < |pending|
      modifies this`pending, this`byRequestId
      ensures Inverse(pending, byRequestId)
      ensures pending == Without(old(pending), i) && e == old(pending)[i]
      ensures multiset(old(pending)) == multiset(pending) + multiset{e}
    {
      e := pending[i];
      RemoveKeepsInverse(pending, byRequestId, i);
      WithoutAt(pending, i);
      hide Inverse;
      pending := Without(pending, i);
      byRequestId := byRequestId - {e.request.id};
    }

    /** The earliest registered request with this opcode, source and sequence, whatever its id;
        `at` is its place in the dictionary. */
    method MatchResponse(opcode: nat, source: nat, sequence: nat) returns (r: Option<Request>, ghost at: nat)
      requires Valid()
      modifies this`pending, this`byRequestId, this`matched
      ensures Valid()
      ensures at <= |old(pending)|
      ensures forall i :: 0 <= i < at ==> !Answers(old(pending)[i], opcode, source, sequence)
      ensures at < |old(pending)| ==>
        && Answers(old(pending)[at], opcode, source, sequence)
        && r == Some(old(pending)[at].request)
        && pending == Without(old(pending), at)
        && matched == old(matched) + multiset{old(pending)[at]}
      ensures at == |old(pending)| ==> r == None && pending == old(pending) && matched == old(matched)
    {
      hide Inverse;
      hide Answers;
      hide Without;
      var i := 0;
      while i < |pending| && !Answers(pending[i], opcode, source, sequence)
        invariant i <= |pending|
        invariant forall j :: 0 <= j < i ==> !Answers(pending[j], opcode, source, sequence)
      {
        i := i + 1;
      }
      at := i;
      if i == |pending| { return None, at; }
      var e := TakeOut(i);
      matched := matched + multiset{e};
      r := Some(e.request);
    }

    /** Cancels the one pending request with this id. */
    method Cancel(id: nat) returns (found: bool, ghost at: nat)
      requires Valid()
      modifies this`pending, this`byRequestId, this`cancelled
      ensures Valid()
      ensures found <==> HasId(old(pending), id)
      ensures !found ==> pending == old(pending) && cancelled == old(cancelled)
      ensures found ==>
        && at < |old(pending)| && old(pending)[at].request.id == id
        && pending == Without(old(pending), at)
        && cancelled == old(cancelled) + multiset{old(pending)[at]}
    {
      at := 0;
      if id !in byRequestId { return false, at; }
      var i := IndexOfKey(byRequestId[id]);
      at := i;
      var e := TakeOut(i);
      cancelled := cancelled + multiset{e};
      found := true;
    }

    /** Where `del self._pending[key]` strikes. */
    method IndexOfKey(key: Key) returns (i: nat)
      requires Valid() && exists j :: 0 <= j < |pending| && pending[j].key == key
      ensures i < |pending| && pending[i].key == key && pending[i].request.id == key.requestId
    {
      i := 0;
      while pending[i].key != key
        invariant i < |pending|
        invariant forall j :: 0 <= j < i ==> pending[j].key != key
        decreases |pending| - i
      {
        i := i + 1;
      }
    }

    /** The loop of `expire_stale` over a copy of the dictionary. */
    method TakeStale(now: real) returns (stale: seq<Entry>)
      requires Inverse(pending, byRequestId)
      modifies this`pending, this`byRequestId
      ensures Inverse(pending, byRequestId)
      ensures stale == Drop(old(pending), now) && pending == Keep(old(pending), now)
    {
      hide Inverse;
      hide Without;
      hide Keep;
      hide Drop;
      var snapshot := pending;
      stale := [];
      ghost var kept: seq<Entry> := [];
      ExpiryStart(snapshot, now);
      var i := 0;
      while i < |snapshot|
        invariant i <= |snapshot|
        invariant Inverse(pending, byRequestId)
        invariant stale == Drop(snapshot[..i], now) && kept == Keep(snapshot[..i], now)
        invariant pending == kept + snapshot[i..]
      {
        ExpiryStep(snapshot, i, now);
        if Stale(snapshot[i], now) {
          var e := TakeOut(|pending| - |snapshot[i..]|);
          stale := stale + [e];
        } else {
          kept := kept + [snapshot[i]];
        }
        i := i + 1;
      }
      assert snapshot[..i] == snapshot && pending == kept;
    }

    /** Exactly the requests whose deadline has passed leave, in order of registration. */
    method ExpireStale(now: real) returns (stale: seq<Entry>)
      requires Valid()
      modifies this`pending, this`byRequestId, this`expired
      ensures Valid()
      ensures stale == Drop(old(pending), now) && pending == Keep(old(pending), now)
      ensures expired == old(expired) + multiset(stale)
    {
      hide Inverse;
      hide Keep;
      hide Drop;
      ExpirySplitsByDeadline(pending, now);
      stale := TakeStale(now);
      expired := expired + multiset(stale);
    }

    method Clear()
      requires Valid()
      modifies this`pending, this`byRequestId, this`cleared
      ensures Valid() && pending == [] && byRequestId == map[]
      ensures cleared == old(cleared) + multiset(old(pending))
    {
      cleared := cleared + multiset(pending);
      pending, byRequestId := [], map[];
    }
  }

  /** Looking a key up in the dictionary and in the index by id always agree. */
  lemma LookupsAgree(entries: seq<Entry>, byId: map<nat, Key>, key: Key)
    requires Inverse(entries, byId)
    ensures (exists i :: 0 <= i < |entries| && entries[i].key == key)
      <==> key.requestId in byId && byId[key.requestId] == key
    ensures |entries| == |byId|
  {
    if key.requestId in byId && byId[key.requestId] == key {
      assert HasId(entries, key.requestId);
    }
    SameSize(entries, byId);
  }

  lemma {:induction false} SameSize(entries: seq<Entry>, byId: map<nat, Key>)
    requires Inverse(entries, byId)
    ensures |entries| == |byId|
    decreases |entries|
  {
    if entries == [] {
      assert forall id :: id in byId ==> HasId(entries, id);
      assert byId.Keys == {};
    } else {
      var gone := entries[0].request.id;
      RemoveKeepsInverse(entries, byId, 0);
      SameSize(Without(entries, 0), byId - {gone});
      assert byId.Keys == (byId - {gone}).Keys + {gone};
    }
  }

  /** Expiry splits the dictionary by deadline and loses nothing. */
  lemma {:induction false} ExpirySplitsByDeadline(entries: seq<Entry>, now: real)
    ensures forall e :: e in Drop(entries, now) <==> e in entries && e.request.deadline <= now
    ensures forall e :: e in Keep(entries, now) <==> e in entries && e.request.deadline > now
    ensures multiset(entries) == multiset(Drop(entries, now)) + multiset(Keep(entries, now))
  {
    if entries == [] {
    } else {
      var k := |entries| - 1;
      assert entries == entries[..k] + [entries[k]];
      ExpirySplitsByDeadline(entries[..k], now);
    }
  }

  /** A registered request is found by exactly one kind of response: from its target, under its
      sequence number, with the opcode it expects, or its own when it expects none or expects 0. */
  lemma FoundByExactlyThatResponse(r: Request, sent: nat, opcode: nat, source: nat, sequence: nat)
    ensures Answers(Entry(KeyOf(r, sent), r), opcode, source, sequence) <==>
      source == r.target && sequence == sent &&
      opcode == match r.expected { case None => r.opcode case Some(x) => if x == 0 then r.opcode else x }
    ensures KeyOf(r, sent).requestId == r.id
  {
  }
}
