/** Sequence-number allocation from one shared counter: what the store and the devices do to it,
    and what survives saves, crashes and reloads. */
module SequenceSafety {
  import opened Bytes
  import opened NetworkLayer

  const SEQ_SAFETY_MARGIN: nat := 100
  const MAX_SEQ: nat := 0xFF_FFFF

  /** The shared store in memory. */
  datatype Counter = Counter(next: nat, networkLoaded: bool, legacyLoaded: set<string>)

  /** A legacy store that an entry brings along: its id and the number saved in it, if any. */
  datatype Legacy = NoEntry | Entry(id: string, saved: Option<nat>)

  function Max(a: nat, b: nat): nat { if a < b then b else a }

  function SetSeq(c: Counter, n: nat): Counter { c.(next := Max(c.next, n)) }

  function Restore(c: Counter, saved: Option<nat>): Counter {
    match saved
    case None => c
    case Some(n) => SetSeq(c, n + SEQ_SAFETY_MARGIN)
  }

  function LoadCounter(c: Counter, saved: Option<nat>, legacy: Legacy): Counter {
    var c1 := if c.networkLoaded then c else Restore(c, saved).(networkLoaded := true);
    match legacy
    case NoEntry => c1
    case Entry(id, number) =>
      if id in c1.legacyLoaded then c1
      else Restore(c1, number).(legacyLoaded := c1.legacyLoaded + {id})
  }

  /** `_next_seq` may hand out the last number, `_next_seqs` stops one short of it. */
  predicate CanAllocate(c: Counter, n: nat, single: bool) {
    c.next <= MAX_SEQ && (single || c.next + n <= MAX_SEQ)
  }

  // ---- The whole system

  /** `durable` is what the disk holds, `inFlight` the numbers captured by saves still being
      written, `issued` every number handed to a sender in this run, and `prior` the numbers that
      each entry had used under a store of its own before the shared one. */
  datatype System = System(
    counter: Counter, durable: Option<nat>, inFlight: seq<nat>, issued: seq<nat>,
    prior: map<string, set<nat>>)

  datatype Event =
    | NextSeq
    | NextSeqs(n: nat)
    | Raise(n: nat)               // set_seq, and get_ha_sequence_store for a known network
    | Load(legacy: Legacy)
    | SaveBegin
    | SaveCommit(i: nat)
    | Crash(initial: nat)         // the process is gone; a new store starts from `initial`

  function Range(from: nat, n: nat): (r: seq<nat>)
    ensures |r| == n && forall i :: 0 <= i < n ==> r[i] == from + i
  {
    seq(n, i requires 0 <= i < n => from + i)
  }

  function Allocate(s: System, n: nat, single: bool): System {
    if CanAllocate(s.counter, n, single) then
      s.(counter := SetSeq(s.counter, s.counter.next + n), issued := s.issued + Range(s.counter.next, n))
    else s
  }

  function Apply(s: System, e: Event): System {
    match e
    case NextSeq => Allocate(s, 1, true)
    case NextSeqs(n) => Allocate(s, n, false)
    case Raise(n) => s.(counter := SetSeq(s.counter, n))
    case Load(legacy) => s.(counter := LoadCounter(s.counter, s.durable, legacy))
    case SaveBegin => s.(inFlight := s.inFlight + [s.counter.next])
    case SaveCommit(i) => if i < |s.inFlight| then s.(durable := Some(s.inFlight[i])) else s
    case Crash(initial) => s.(counter := Counter(initial, false, {}), inFlight := [])
  }

  function Execute(s: System, es: seq<Event>): System
    decreases |es|
  {
    if es == [] then s else Execute(Apply(s, es[0]), es[1..])
  }

  /** Where a counter that stands at `next` stands once the network store is loaded. */
  function Restored(durable: Option<nat>, next: nat): nat {
    match durable
    case None => next
    case Some(n) => Max(next, n + SEQ_SAFETY_MARGIN)
  }

  // ---- What must not happen

  predicate Increasing(issued: seq<nat>) { forall i, j :: 0 <= i < j < |issued| ==> issued[i] < issued[j] }

  predicate Distinct(issued: seq<nat>) { forall i, j :: 0 <= i < j < |issued| ==> issued[i] != issued[j] }

  ghost predicate InPrior(s: System, n: nat) { exists id :: id in s.prior && n in s.prior[id] }

  ghost predicate AvoidsPrior(s: System) { forall i :: 0 <= i < |s.issued| ==> !InPrior(s, s.issued[i]) }

  /** No number was handed out twice, and none that an entry had used before. */
  ghost predicate Unrepeated(s: System) { Distinct(s.issued) && AvoidsPrior(s) }

  predicate Below(issued: seq<nat>, bound: nat) { issued == [] || issued[|issued| - 1] < bound }

  ghost predicate PriorBelow(s: System, bound: nat) { forall n: nat :: InPrior(s, n) ==> n < bound }

  /** Every number used so far lies below the bound. */
  ghost predicate Covers(s: System, bound: nat) { Below(s.issued, bound) && PriorBelow(s, bound) }

  /** The counter is past everything used. */
  ghost predicate Clear(s: System) { Covers(s, s.counter.next) }

  /** The history is in order: issued numbers increase, fit 24 bits, and lie above the prior ones. */
  ghost predicate Ordered(s: System) {
    && Increasing(s.issued)
    && Below(s.issued, MAX_SEQ + 1) && PriorBelow(s, MAX_SEQ + 1)
    && (s.issued != [] ==> PriorBelow(s, s.issued[0]))
  }

  /** What holds between the events of a careful run: a loaded counter is past every issued number,
      and an unloaded one will be once it is loaded, wherever it restarted. */
  ghost predicate Safe(s: System) {
    && Ordered(s)
    && (s.counter.networkLoaded ==> Below(s.issued, s.counter.next))
    && (!s.counter.networkLoaded ==> s.inFlight == [] && Below(s.issued, Restored(s.durable, 0)))
  }

  lemma OrderedIsUnrepeated(s: System)
    requires Ordered(s)
    ensures Unrepeated(s)
  {
  }

  lemma AppendRange(issued: seq<nat>, from: nat, n: nat)
    requires Increasing(issued) && Below(issued, from)
    ensures Increasing(issued + Range(from, n)) && Below(issued + Range(from, n), from + n)
    ensures issued + Range(from, n) != [] ==> (issued + Range(from, n))[0] == if issued == [] then from else issued[0]
  {
    var last := |issued| - 1;
    assert forall i :: 0 <= i < last ==> issued[i] < issued[last];
  }

  lemma PriorStaysBelow(s: System, t: System, bound: nat, higher: nat)
    requires t.prior == s.prior && PriorBelow(s, bound) && bound <= higher
    ensures PriorBelow(t, higher)
  {
    assert forall n :: InPrior(t, n) <==> InPrior(s, n);
    hide InPrior;
  }

  lemma AllocateKeepsOrdered(s: System, n: nat, single: bool)
    requires Ordered(s) && Clear(s) && (single ==> n == 1)
    ensures var t := Allocate(s, n, single); Ordered(t) && Clear(t)
  {
    hide PriorBelow;
    hide Increasing;
    hide Range;
    if CanAllocate(s.counter, n, single) {
      var t, next := Allocate(s, n, single), s.counter.next;
      AppendRange(s.issued, next, n);
      PriorStaysBelow(s, t, next, next + n);
      PriorStaysBelow(s, t, MAX_SEQ + 1, MAX_SEQ + 1);
      var lowest := if s.issued == [] then next else s.issued[0];
      PriorStaysBelow(s, t, lowest, lowest);
    }
  }

  lemma SamePrior(s: System, e: Event)
    ensures forall n :: InPrior(Apply(s, e), n) <==> InPrior(s, n)
  {
  }

  // ---- Rules that users of the store can follow

  /** A crash now can be made good by a restart from `initial` and a load. */
  predicate Recoverable(s: System, initial: nat) { Below(s.issued, Restored(s.durable, initial)) }

  /** `saved` is what the legacy stores hold: what entry `id` used lies within the margin of it. */
  ghost predicate WithinMargin(s: System, saved: map<string, nat>) {
    forall id :: id in s.prior ==> id in saved && forall n :: n in s.prior[id] ==> n < saved[id] + SEQ_SAFETY_MARGIN
  }

  ghost predicate Merged(s: System, saved: map<string, nat>) {
    forall id :: id in s.counter.legacyLoaded && id in s.prior ==>
      id in saved && s.counter.next >= saved[id] + SEQ_SAFETY_MARGIN
  }

  /** Allocate after the load; for the very first number, once every entry has merged its store. */
  predicate MayAllocate(s: System) {
    s.counter.networkLoaded && (s.issued == [] ==> s.prior.Keys <= s.counter.legacyLoaded)
  }

  /** The rules, all of them about the counter and the disk: allocate and save after the load, and
      crash with the counter at most the margin past the last completed save. A merged legacy store
      holds what it holds. */
  ghost predicate Follows(s: System, e: Event, saved: map<string, nat>) {
    match e
    case NextSeq => MayAllocate(s)
    case NextSeqs(_) => MayAllocate(s)
    case SaveBegin => s.counter.networkLoaded
    case Load(Entry(id, number)) => id in s.prior ==> id in saved && number == Some(saved[id])
    case Crash(_) =>
      s.counter.networkLoaded && s.issued != [] ==>
        s.durable.Some? && s.counter.next <= s.durable.value + SEQ_SAFETY_MARGIN
    case _ => true
  }

  ghost predicate FollowsAll(s: System, es: seq<Event>, saved: map<string, nat>)
    decreases |es|
  {
    es == [] || (Follows(s, es[0], saved) && FollowsAll(Apply(s, es[0]), es[1..], saved))
  }

  ghost predicate Sound(s: System, saved: map<string, nat>) {
    Safe(s) && WithinMargin(s, saved) && Merged(s, saved)
  }

  ghost predicate Fresh(s: System) {
    s.issued == [] && s.inFlight == [] && PriorBelow(s, MAX_SEQ + 1) &&
    !s.counter.networkLoaded && s.counter.legacyLoaded == {}
  }

  /** Once something was issued, having loaded puts the counter past everything used. */
  lemma LoadedIsEnough(s: System)
    requires Safe(s) && s.counter.networkLoaded && s.issued != []
    ensures Clear(s)
  {
    assert s.issued[0] <= s.issued[|s.issued| - 1];
    hide InPrior;
  }

  /** Before, having merged every legacy store does. */
  lemma MergedIsEnough(s: System, saved: map<string, nat>)
    requires WithinMargin(s, saved) && Merged(s, saved)
    requires s.issued == [] && s.prior.Keys <= s.counter.legacyLoaded
    ensures Clear(s)
  {
    forall n: nat | InPrior(s, n) ensures n < s.counter.next {
      var id :| id in s.prior && n in s.prior[id];
      assert id in s.prior.Keys;
    }
  }

  /** The documented margin: a crash is recoverable while the counter is at most 100 past the
      last number that reached the disk. */
  lemma MarginIsEnough(s: System, initial: nat)
    requires Safe(s) && s.counter.networkLoaded
    requires s.durable.Some? && s.counter.next <= s.durable.value + SEQ_SAFETY_MARGIN
    ensures Recoverable(s, initial)
  {
  }

  lemma LoadCounterRaises(c: Counter, durable: Option<nat>, legacy: Legacy)
    ensures var c' := LoadCounter(c, durable, legacy);
      && c'.networkLoaded && c'.next >= c.next
      && (!c.networkLoaded ==> c'.next >= Restored(durable, c.next))
      && c'.legacyLoaded == c.legacyLoaded + (if legacy.Entry? then {legacy.id} else {})
      && (legacy.Entry? && legacy.id !in c.legacyLoaded && legacy.saved.Some? ==>
            c'.next >= legacy.saved.value + SEQ_SAFETY_MARGIN)
  {
  }

  /** A load that has nothing left to merge changes nothing; the network store is merged once. */
  lemma LoadingAgainChangesNothing(c: Counter, durable: Option<nat>, legacy: Legacy)
    requires c.networkLoaded && (legacy.NoEntry? || legacy.id in c.legacyLoaded)
    ensures LoadCounter(c, durable, legacy) == c
  {
  }

  /** Nor does loading twice in a row differ from loading once, whatever was saved in between. */
  lemma LoadingTwiceIsLoadingOnce(c: Counter, durable: Option<nat>, later: Option<nat>, legacy: Legacy)
    ensures LoadCounter(LoadCounter(c, durable, legacy), later, legacy) == LoadCounter(c, durable, legacy)
  {
  }

  lemma AllocatingKeepsSound(s: System, n: nat, single: bool, saved: map<string, nat>)
    requires Sound(s, saved) && MayAllocate(s) && (single ==> n == 1)
    ensures Sound(Allocate(s, n, single), saved)
  {
    if s.issued == [] { MergedIsEnough(s, saved); } else { LoadedIsEnough(s); }
    AllocateKeepsOrdered(s, n, single);
    hide Ordered;
    hide PriorBelow;
    hide Range;
  }

  lemma LoadingKeepsSound(s: System, legacy: Legacy, saved: map<string, nat>)
    requires Sound(s, saved) && Follows(s, Load(legacy), saved)
    ensures Sound(Apply(s, Load(legacy)), saved)
  {
    SamePrior(s, Load(legacy));
    LoadCounterRaises(s.counter, s.durable, legacy);
    hide LoadCounter;
    hide InPrior;
    hide Increasing;
  }

  /** A crash within the margin leaves a state from which the load makes everything good. */
  lemma CrashingKeepsSound(s: System, initial: nat, saved: map<string, nat>)
    requires Sound(s, saved) && Follows(s, Crash(initial), saved)
    ensures Sound(Apply(s, Crash(initial)), saved)
  {
    SamePrior(s, Crash(initial));
    if s.counter.networkLoaded && s.issued != [] { MarginIsEnough(s, 0); }
    hide InPrior;
    hide Increasing;
  }

  lemma FollowingKeepsSound(s: System, e: Event, saved: map<string, nat>)
    requires Sound(s, saved) && Follows(s, e, saved)
    ensures Sound(Apply(s, e), saved)
  {
    match e
    case NextSeq => AllocatingKeepsSound(s, 1, true, saved);
    case NextSeqs(n) => AllocatingKeepsSound(s, n, false, saved);
    case Load(legacy) => LoadingKeepsSound(s, legacy, saved);
    case Crash(initial) => CrashingKeepsSound(s, initial, saved);
    case _ =>
      SamePrior(s, e);
      hide InPrior;
      hide Increasing;
  }

  lemma {:induction false} RunKeepsSound(s: System, es: seq<Event>, saved: map<string, nat>)
    requires Sound(s, saved) && FollowsAll(s, es, saved)
    ensures Sound(Execute(s, es), saved)
    decreases |es|
  {
    if es == [] {
    } else {
      FollowingKeepsSound(s, es[0], saved);
      RunKeepsSound(Apply(s, es[0]), es[1..], saved);
    }
  }

  /** In every run that follows the rules, with any number of devices, saves, crashes and reloads, the
      numbers handed out are strictly increasing 24-bit numbers that no entry had used before. */
  lemma NoNumberIsIssuedTwice(s: System, es: seq<Event>, saved: map<string, nat>)
    requires Fresh(s) && WithinMargin(s, saved) && FollowsAll(s, es, saved)
    ensures Unrepeated(Execute(s, es)) && Increasing(Execute(s, es).issued)
    ensures forall i :: 0 <= i < |Execute(s, es).issued| ==> Execute(s, es).issued[i] <= 0xFF_FFFF
  {
    RunKeepsSound(s, es, saved);
    OrderedIsUnrepeated(Execute(s, es));
  }

  // ---- Preparing the first allocation

  /** The preparations for the first allocation. */
  predicate Preparation(e: Event) { e.Raise? || e.Load? || e.SaveCommit? }

  lemma {:induction false} PreparationMerges(s: System, es: seq<Event>, saved: map<string, nat>)
    requires forall i :: 0 <= i < |es| ==> Preparation(es[i])
    requires forall i, id, v :: 0 <= i < |es| && es[i] == Load(Entry(id, v)) && id in s.prior ==>
      id in saved && v == Some(saved[id])
    requires Merged(s, saved)
    ensures var t := Execute(s, es);
      && Merged(t, saved) && t.prior == s.prior && t.issued == s.issued
      && s.counter.legacyLoaded <= t.counter.legacyLoaded
      && forall i, id, v :: 0 <= i < |es| && es[i] == Load(Entry(id, v)) ==> id in t.counter.legacyLoaded
    decreases |es|
  {
    if es == [] {
    } else {
      var s1 := Apply(s, es[0]);
      assert Merged(s1, saved);
      forall i, id, v | 0 <= i < |es[1..]| && es[1..][i] == Load(Entry(id, v)) && id in s1.prior
        ensures id in saved && v == Some(saved[id])
      {
        assert es[i + 1] == Load(Entry(id, v));
      }
      PreparationMerges(s1, es[1..], saved);
      forall i, id, v | 0 <= i < |es| && es[i] == Load(Entry(id, v))
        ensures id in Execute(s, es).counter.legacyLoaded
      {
        if i > 0 { assert es[1..][i - 1] == Load(Entry(id, v)); }
      }
    }
  }

  /** When every entry with a history has merged its store, and no entry had used a number the
      margin or more past what it saved, the first allocation is past everything used. */
  lemma MergingEveryStoreIsEnough(s: System, es: seq<Event>, saved: map<string, nat>)
    requires Fresh(s) && WithinMargin(s, saved)
    requires forall i :: 0 <= i < |es| ==> Preparation(es[i])
    requires forall id :: id in s.prior ==> Load(Entry(id, Some(saved[id]))) in es
    requires forall i, id, v :: 0 <= i < |es| && es[i] == Load(Entry(id, v)) && id in s.prior ==> v == Some(saved[id])
    ensures Clear(Execute(s, es))
  {
    PreparationMerges(s, es, saved);
    var t := Execute(s, es);
    forall id | id in t.prior.Keys ensures id in t.counter.legacyLoaded {
      var i :| 0 <= i < |es| && es[i] == Load(Entry(id, Some(saved[id])));
    }
    MergedIsEnough(t, saved);
  }

  // ---- Each rule is exact

  predicate NoCrash(es: seq<Event>) { forall i :: 0 <= i < |es| ==> !es[i].Crash? }

  /** A user who loads before allocating or saving, and does not crash. */
  predicate Careful(s: System, es: seq<Event>)
    decreases |es|
  {
    es == [] ||
    (!es[0].Crash? && (es[0].NextSeq? || es[0].NextSeqs? || es[0].SaveBegin? ==> s.counter.networkLoaded) &&
     Careful(Apply(s, es[0]), es[1..]))
  }

  lemma {:induction false} ClearStaysClear(s: System, es: seq<Event>)
    requires Ordered(s) && Clear(s) && NoCrash(es)
    ensures Ordered(Execute(s, es)) && Clear(Execute(s, es))
    decreases |es|
  {
    if es == [] {
    } else {
      ClearStep(s, es[0]);
      ClearStaysClear(Apply(s, es[0]), es[1..]);
    }
  }

  lemma ClearStep(s: System, e: Event)
    requires Ordered(s) && Clear(s) && !e.Crash?
    ensures Ordered(Apply(s, e)) && Clear(Apply(s, e))
  {
    SamePrior(s, e);
    hide InPrior;
    match e
    case NextSeq => AllocateKeepsOrdered(s, 1, true);
    case NextSeqs(n) => AllocateKeepsOrdered(s, n, false);
    case _ =>
  }

  lemma ExecuteTwo(s: System, a: Event, b: Event)
    ensures Execute(s, [a, b]) == Apply(Apply(s, a), b)
  {
    assert [a, b][1..] == [b] && [b][1..] == [];
    assert Execute(Apply(s, a), [b]) == Execute(Apply(Apply(s, a), b), []);
  }

  function UpTo(s: System, target: nat): seq<Event>
    requires s.counter.next <= target
  {
    [NextSeqs(target - s.counter.next), NextSeq]
  }

  lemma ReachesNumber(s: System, target: nat)
    requires s.counter.next <= target <= MAX_SEQ
    ensures var t := Execute(s, UpTo(s, target));
      t.prior == s.prior && |t.issued| > |s.issued| && t.issued[|t.issued| - 1] == target &&
      forall i :: 0 <= i < |s.issued| ==> t.issued[i] == s.issued[i]
  {
    var s1 := Apply(s, NextSeqs(target - s.counter.next));
    ExecuteTwo(s, NextSeqs(target - s.counter.next), NextSeq);
    assert s1.counter.next == target;
    hide Execute;
  }

  /** From a counter at or below a used number, two allocations hand it out again. */
  lemma ReissuesUsedNumber(s: System, target: nat)
    requires s.counter.next <= target <= MAX_SEQ
    requires InPrior(s, target) || (s.issued != [] && target == s.issued[|s.issued| - 1])
    ensures !Unrepeated(Execute(s, UpTo(s, target)))
    ensures InPrior(s, target) ==> !AvoidsPrior(Execute(s, UpTo(s, target)))
  {
    ReachesNumber(s, target);
    hide Execute;
    var t := Execute(s, UpTo(s, target));
    assert InPrior(s, target) == InPrior(t, t.issued[|t.issued| - 1]);
    if s.issued != [] && target == s.issued[|s.issued| - 1] {
      assert t.issued[|s.issued| - 1] == t.issued[|t.issued| - 1];
    }
  }

  lemma UsedNumberAtOrAbove(s: System, bound: nat) returns (target: nat)
    requires Ordered(s) && !Covers(s, bound)
    ensures bound <= target <= MAX_SEQ
    ensures InPrior(s, target) || (s.issued != [] && target == s.issued[|s.issued| - 1])
  {
    if !Below(s.issued, bound) {
      target := s.issued[|s.issued| - 1];
    } else {
      target :| InPrior(s, target) && target >= bound;
    }
  }

  /** The allocation rule, loaded or not: no continuation without a crash repeats a number if and
      only if the counter is past everything used. */
  lemma AllocatingIsSafeExactlyWhen(s: System)
    requires Ordered(s)
    ensures (forall es :: NoCrash(es) ==> Unrepeated(Execute(s, es))) <==> Clear(s)
  {
    if Clear(s) {
      forall es | NoCrash(es) ensures Unrepeated(Execute(s, es)) {
        ClearStaysClear(s, es);
        OrderedIsUnrepeated(Execute(s, es));
      }
    } else {
      var target := UsedNumberAtOrAbove(s, s.counter.next);
      ReissuesUsedNumber(s, target);
      assert NoCrash(UpTo(s, target));
    }
  }

  /** The first allocation of all: no number issued from here on is among the prior ones if and only
      if all of these lie below the counter. */
  lemma FirstAllocationIsSafeExactlyWhen(s: System)
    requires Ordered(s) && s.issued == []
    ensures (forall es :: NoCrash(es) ==> AvoidsPrior(Execute(s, es))) <==> PriorBelow(s, s.counter.next)
  {
    AllocatingIsSafeExactlyWhen(s);
    if !PriorBelow(s, s.counter.next) {
      var target := UsedNumberAtOrAbove(s, s.counter.next);
      ReissuesUsedNumber(s, target);
      assert NoCrash(UpTo(s, target));
    }
  }

  /** Loading will put the counter past everything used, whichever saves still complete. */
  ghost predicate ClearOnceLoaded(s: System) {
    && Covers(s, Restored(s.durable, s.counter.next))
    && forall i :: 0 <= i < |s.inFlight| ==> Covers(s, Restored(Some(s.inFlight[i]), s.counter.next))
  }

  ghost predicate Prepared(s: System) {
    Ordered(s) && (if s.counter.networkLoaded then Clear(s) else ClearOnceLoaded(s))
  }

  lemma LoadClears(s: System, legacy: Legacy)
    requires !s.counter.networkLoaded && Covers(s, Restored(s.durable, s.counter.next))
    ensures var t := Apply(s, Load(legacy)); t.counter.networkLoaded && Clear(t)
  {
    SamePrior(s, Load(legacy));
    hide InPrior;
  }

  lemma CarefulStep(s: System, e: Event)
    requires Prepared(s) && Careful(s, [e])
    ensures Prepared(Apply(s, e))
  {
    if s.counter.networkLoaded {
      ClearStep(s, e);
      hide Covers;
      hide ClearOnceLoaded;
      hide Ordered;
    } else {
      SamePrior(s, e);
      hide InPrior;
      hide Increasing;
      hide Allocate;
      match e
      case Load(legacy) => LoadClears(s, legacy);
      case _ =>
    }
  }

  lemma {:induction false} CarefulStaysPrepared(s: System, es: seq<Event>)
    requires Prepared(s) && Careful(s, es)
    ensures Prepared(Execute(s, es))
    decreases |es|
  {
    if es == [] {
    } else {
      CarefulStep(s, es[0]);
      CarefulStaysPrepared(Apply(s, es[0]), es[1..]);
    }
  }

  lemma LoadThenReissue(s: System)
    requires Ordered(s) && !s.counter.networkLoaded && !Covers(s, Restored(s.durable, s.counter.next))
    ensures exists es :: Careful(s, es) && !Unrepeated(Execute(s, es))
  {
    var t := Apply(s, Load(NoEntry));
    assert t.counter.next == Restored(s.durable, s.counter.next);
    SamePrior(s, Load(NoEntry));
    var target := UsedNumberAtOrAbove(s, t.counter.next);
    ReissuesUsedNumber(t, target);
    var es := [Load(NoEntry)] + UpTo(t, target);
    assert es[1..] == UpTo(t, target);
    assert Careful(t, UpTo(t, target)) by {
      var u := Apply(t, UpTo(t, target)[0]);
      assert UpTo(t, target)[1..] == [NextSeq];
      assert Careful(u, [NextSeq]);
    }
    assert Careful(s, es) && !Unrepeated(Execute(s, es));
  }

  lemma CommitThenReissue(s: System, i: nat)
    requires Ordered(s) && !s.counter.networkLoaded && i < |s.inFlight|
    requires !Covers(s, Restored(Some(s.inFlight[i]), s.counter.next))
    ensures exists es :: Careful(s, es) && !Unrepeated(Execute(s, es))
  {
    var t := Apply(s, SaveCommit(i));
    SamePrior(s, SaveCommit(i));
    LoadThenReissue(t);
    var rest :| Careful(t, rest) && !Unrepeated(Execute(t, rest));
    var es := [SaveCommit(i)] + rest;
    assert es[1..] == rest;
    assert Careful(s, es) && !Unrepeated(Execute(s, es));
  }

  /** Before the load: loading first is enough, for every continuation, if and only if every number
      the disk may come to hold restores a counter past everything used. */
  lemma LoadingFirstIsSafeExactlyWhen(s: System)
    requires Ordered(s) && !s.counter.networkLoaded
    ensures (forall es :: Careful(s, es) ==> Unrepeated(Execute(s, es))) <==> ClearOnceLoaded(s)
  {
    if ClearOnceLoaded(s) {
      forall es | Careful(s, es) ensures Unrepeated(Execute(s, es)) {
        CarefulStaysPrepared(s, es);
        OrderedIsUnrepeated(Execute(s, es));
      }
    } else if !Covers(s, Restored(s.durable, s.counter.next)) {
      LoadThenReissue(s);
    } else {
      var i :| 0 <= i < |s.inFlight| && !Covers(s, Restored(Some(s.inFlight[i]), s.counter.next));
      CommitThenReissue(s, i);
    }
  }

  lemma {:induction false} ExhaustedStaysSilent(s: System, es: seq<Event>)
    requires s.counter.next > MAX_SEQ && NoCrash(es)
    ensures var t := Execute(s, es); t.issued == s.issued && t.prior == s.prior
    decreases |es|
  {
    if es == [] {
    } else {
      var s1 := Apply(s, es[0]);
      assert s1.counter.next > MAX_SEQ && s1.issued == s.issued && s1.prior == s.prior;
      ExhaustedStaysSilent(s1, es[1..]);
    }
  }

  /** The rule on the counter alone: whatever was issued and whatever is on the disk, allocating is
      safe if and only if the counter is loaded, or used up. */
  lemma LoadedIsExact(c: Counter)
    ensures (forall s, es :: Safe(s) && s.counter == c && s.issued != [] && NoCrash(es) ==> Unrepeated(Execute(s, es)))
      <==> c.networkLoaded || c.next > MAX_SEQ
  {
    if c.networkLoaded || c.next > MAX_SEQ {
      forall s, es | Safe(s) && s.counter == c && s.issued != [] && NoCrash(es) ensures Unrepeated(Execute(s, es)) {
        if c.networkLoaded {
          LoadedIsEnough(s);
          ClearStaysClear(s, es);
          OrderedIsUnrepeated(Execute(s, es));
        } else {
          OrderedIsUnrepeated(s);
          ExhaustedStaysSilent(s, es);
          SilenceRepeatsNothing(s, Execute(s, es));
        }
      }
    } else {
      var s := System(c, Some(c.next), [], [c.next], map[]);
      ReissuesUsedNumber(s, c.next);
      assert Safe(s) && NoCrash(UpTo(s, c.next));
    }
  }

  lemma SilenceRepeatsNothing(s: System, t: System)
    requires t.issued == s.issued && t.prior == s.prior && Unrepeated(s)
    ensures Unrepeated(t)
  {
    assert forall n :: InPrior(t, n) <==> InPrior(s, n);
    hide InPrior;
  }

  /** The crash rule: after a crash loading first is enough if and only if the crash was recoverable
      and, should nothing have been issued yet, the prior numbers lie below the restored counter. */
  lemma CrashIsSafeExactlyWhen(s: System, initial: nat)
    requires Ordered(s)
    ensures (forall es :: Careful(Apply(s, Crash(initial)), es)
               ==> Unrepeated(Execute(Apply(s, Crash(initial)), es)))
      <==> Recoverable(s, initial) && (s.issued == [] ==> PriorBelow(s, Restored(s.durable, initial)))
  {
    var t := Apply(s, Crash(initial));
    SamePrior(s, Crash(initial));
    LoadingFirstIsSafeExactlyWhen(t);
    if s.issued != [] { assert s.issued[0] <= s.issued[|s.issued| - 1]; }
    hide InPrior;
  }

  /** The margin is exact: when the counter stands right past the last issued number, a crash to an
      empty start can be made good if and only if the counter is at most 100 past the last save. */
  lemma MarginIsExact(s: System)
    requires Ordered(s) && s.issued != [] && s.counter.next == s.issued[|s.issued| - 1] + 1
    ensures (forall es :: Careful(Apply(s, Crash(0)), es) ==> Unrepeated(Execute(Apply(s, Crash(0)), es)))
      <==> s.durable.Some? && s.counter.next <= s.durable.value + 100
  {
    CrashIsSafeExactlyWhen(s, 0);
  }

  /** The save rule: once a number is captured before the load, loading first is still enough if and
      only if it was before and everything used lies within the margin of the captured number. */
  lemma SavingUnloadedIsSafeExactlyWhen(s: System)
    requires Ordered(s) && !s.counter.networkLoaded
    ensures (forall es :: Careful(Apply(s, SaveBegin), es) ==> Unrepeated(Execute(Apply(s, SaveBegin), es)))
      <==> ClearOnceLoaded(s) && Covers(s, s.counter.next + SEQ_SAFETY_MARGIN)
  {
    var t := Apply(s, SaveBegin);
    SamePrior(s, SaveBegin);
    LoadingFirstIsSafeExactlyWhen(t);
    hide InPrior;
    assert forall i :: 0 <= i < |s.inFlight| ==> t.inFlight[i] == s.inFlight[i];
    assert t.inFlight[|s.inFlight|] == s.counter.next;
  }

  // ---- Witnesses

  ghost const EMPTY := System(Counter(0, false, {}), None, [], [], map[])

  /** Allocating before the load, as `configure_existing_sig_light` does when no entry of the network
      is set up, repeats a number after a recoverable crash. */
  lemma AllocatingBeforeLoadRepeats()
    ensures var s := Apply(Apply(EMPTY, Load(NoEntry)), NextSeq);
      Recoverable(Apply(Apply(s, SaveBegin), SaveCommit(0)), 0) &&
      !Distinct(Apply(Apply(Apply(Apply(s, SaveBegin), SaveCommit(0)), Crash(0)), NextSeq).issued)
  {
    var s := Apply(Apply(EMPTY, Load(NoEntry)), NextSeq);
    assert s.issued == [0];
    var t := Apply(Apply(Apply(Apply(s, SaveBegin), SaveCommit(0)), Crash(0)), NextSeq);
    assert t.issued == [0, 0] && t.issued[0] == t.issued[1];
  }

  /** Saving before the load overwrites the disk with the low starting number. */
  lemma SavingBeforeLoadRepeats()
    ensures var s := Apply(Apply(Apply(Apply(EMPTY, Load(NoEntry)), NextSeqs(200)), SaveBegin), SaveCommit(0));
      var t := Apply(Apply(Apply(s, Crash(0)), SaveBegin), SaveCommit(0));
      Recoverable(s, 0) && !Distinct(Apply(Apply(t, Load(NoEntry)), NextSeq).issued)
  {
    var s := Apply(Apply(Apply(Apply(EMPTY, Load(NoEntry)), NextSeqs(200)), SaveBegin), SaveCommit(0));
    var t := Apply(Apply(Apply(s, Crash(0)), SaveBegin), SaveCommit(0));
    var u := Apply(Apply(t, Load(NoEntry)), NextSeq);
    assert u.issued == Range(0, 200) + [100];
    assert u.issued[100] == u.issued[200];
  }

  /** Allocating while the store of another entry is not merged yet can repeat one of its numbers. */
  lemma AllocatingBeforeMergeRepeats()
    ensures var s := EMPTY.(prior := map["b" := {600}]);
      !Unrepeated(Apply(Apply(s, Load(Entry("a", Some(500)))), NextSeq))
  {
    var s := EMPTY.(prior := map["b" := {600}]);
    var t := Apply(Apply(s, Load(Entry("a", Some(500)))), NextSeq);
    assert t.issued[0] == 600 && 600 in t.prior["b"];
    assert InPrior(t, 600);
  }
}
