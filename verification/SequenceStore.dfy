/** The shared store object and the devices that draw numbers from it. */
module SequenceStore {
  import opened Bytes
  import opened SequenceSafety

  /** The largest of a number and what two stores call for, 100 past what each holds. */
  function Largest(next: nat, network: Option<nat>, legacy: Option<nat>): (n: nat)
    ensures n >= next
    ensures network.Some? ==> n >= network.value + 100
    ensures legacy.Some? ==> n >= legacy.value + 100
    ensures n == next || (network.Some? && n == network.value + 100) || (legacy.Some? && n == legacy.value + 100)
  {
    var a := if network.Some? && network.value + 100 > next then network.value + 100 else next;
    if legacy.Some? && legacy.value + 100 > a then legacy.value + 100 else a
  }

  class HASequenceStore {
    var seqNo: nat
    var networkLoaded: bool
    var loadedLegacyEntries: set<string>

    constructor (initialSequence: nat)
      ensures View() == Counter(initialSequence, false, {})
    {
      seqNo, networkLoaded, loadedLegacyEntries := initialSequence, false, {};
    }

    function View(): Counter
      reads this
    {
      Counter(seqNo, networkLoaded, loadedLegacyEntries)
    }

    method AdvanceTo(n: nat)
      modifies this`seqNo
      ensures View() == SetSeq(old(View()), n)
      ensures seqNo == if old(seqNo) < n then n else old(seqNo)
    {
      if seqNo < n { seqNo := n; }
    }

    /** `async_load`. `saved` is what the network's store holds, `legacy` the entry's own store. */
    method Load(saved: Option<nat>, legacy: Legacy) returns (restored: nat)
      modifies this
      ensures View() == LoadCounter(old(View()), saved, legacy) && restored == seqNo
      ensures networkLoaded
      ensures loadedLegacyEntries == old(loadedLegacyEntries) + (if legacy.Entry? then {legacy.id} else {})
      ensures restored == Largest(old(seqNo),
        if old(networkLoaded) then None else saved,
        if legacy.NoEntry? || legacy.id in old(loadedLegacyEntries) then None else legacy.saved)
      ensures old(networkLoaded) && (legacy.NoEntry? || legacy.id in old(loadedLegacyEntries)) ==>
        View() == old(View())
    {
      if !networkLoaded {
        if saved.Some? { AdvanceTo(saved.value + SEQ_SAFETY_MARGIN); }
        networkLoaded := true;
      }
      if legacy.Entry? && legacy.id !in loadedLegacyEntries {
        if legacy.saved.Some? { AdvanceTo(legacy.saved.value + SEQ_SAFETY_MARGIN); }
        loadedLegacyEntries := loadedLegacyEntries + {legacy.id};
      }
      return seqNo;
    }
  }

  /** Devices hold a reference to the one store; each allocation runs without interruption. */
  class Device {
    const store: HASequenceStore

    constructor (store: HASequenceStore)
      ensures this.store == store
    {
      this.store := store;
    }

    /** `_next_seq`: the number handed out is the one the system model issues. */
    method NextSeq(ghost s: System) returns (r: Result<nat>, ghost s': System)
      requires s.counter == store.View()
      modifies store
      ensures s' == Apply(s, Event.NextSeq) && s'.counter == store.View()
      ensures r.Ok? <==> old(store.seqNo) <= 0xFF_FFFF
      ensures r.Ok? ==> r.value == old(store.seqNo) && store.seqNo == r.value + 1
      ensures r.Raised? ==> r.error == ProtocolError && store.View() == old(store.View())
      ensures s'.issued == s.issued + (if r.Ok? then [r.value] else [])
    {
      var n := store.seqNo;
      s' := Apply(s, Event.NextSeq);
      if n > MAX_SEQ { return Raised(ProtocolError), s'; }
      store.AdvanceTo(n + 1);
      r := Ok(n);
    }

    /** `_next_seqs`: the first of n consecutive numbers. */
    method NextSeqs(n: nat, ghost s: System) returns (r: Result<nat>, ghost s': System)
      requires s.counter == store.View()
      modifies store
      ensures s' == Apply(s, Event.NextSeqs(n)) && s'.counter == store.View()
      ensures r.Ok? <==> old(store.seqNo) <= 0xFF_FFFF && old(store.seqNo) + n <= 0xFF_FFFF
      ensures r.Ok? ==> r.value == old(store.seqNo) && store.seqNo == r.value + n
      ensures r.Raised? ==> r.error == ProtocolError && store.View() == old(store.View())
      ensures s'.issued == s.issued + (if r.Ok? then Range(r.value, n) else [])
      ensures r.Ok? ==> r.value + n < SEQ_LIMIT
    {
      var first := store.seqNo;
      s' := Apply(s, Event.NextSeqs(n));
      if first > MAX_SEQ || first + n > MAX_SEQ { return Raised(ProtocolError), s'; }
      store.AdvanceTo(first + n);
      r := Ok(first);
    }
  }
}
