/** Reconnect-storm detection: a deque of at most 50 time stamps, pruned from the left, against the
    full history of attempts. */
module Storm {
  import opened Bytes

  const STORM_WINDOW_SECONDS: real := 300.0
  const MAX_TIMES: nat := 50

  /** How many of the attempts are not older than the cutoff. */
  function Recent(history: seq<real>, cutoff: real): nat {
    if history == [] then 0
    else Recent(history[..|history| - 1], cutoff) + (if history[|history| - 1] >= cutoff then 1 else 0)
  }

  predicate NonDecreasing(s: seq<real>) { forall i, j :: 0 <= i < j < |s| ==> s[i] <= s[j] }

  lemma {:induction false} RecentOfSplit(a: seq<real>, b: seq<real>, cutoff: real)
    ensures Recent(a + b, cutoff) == Recent(a, cutoff) + Recent(b, cutoff)
  {
    if b == [] {
      assert a + b == a;
    } else {
      var k := |b| - 1;
      assert (a + b)[..|a| + k] == a + b[..k];
      RecentOfSplit(a, b[..k], cutoff);
    }
  }

  lemma {:induction false} AllRecent(s: seq<real>, cutoff: real)
    requires forall i :: 0 <= i < |s| ==> s[i] >= cutoff
    ensures Recent(s, cutoff) == |s|
  {
    if s == [] {
    } else {
      AllRecent(s[..|s| - 1], cutoff);
    }
  }

  lemma {:induction false} NoneRecent(s: seq<real>, cutoff: real)
    requires forall i :: 0 <= i < |s| ==> s[i] < cutoff
    ensures Recent(s, cutoff) == 0
  {
    if s == [] {
    } else {
      NoneRecent(s[..|s| - 1], cutoff);
    }
  }

  class StormDetector {
    const threshold: nat
    var reconnectTimes: seq<real>
    ghost var history: seq<real>   // every attempt ever recorded
    ghost var forgotten: nat       // how many of them are no longer in the deque
    ghost var clock: real          // the last reading of the wall clock
    ghost var steady: bool         // whether it never went back

    /** While the clock is steady, what was forgotten is either older than the window, or had 50 later
        attempts in the deque. */
    ghost predicate Valid()
      reads this
    {
      && forgotten <= |history| <= forgotten + MAX_TIMES
      && reconnectTimes == history[forgotten..]
      && (steady ==> Steady(history, forgotten, clock))
    }

    constructor (threshold: nat, now: real)
      ensures Valid() && history == [] && steady && clock == now && this.threshold == threshold
    {
      this.threshold := threshold;
      reconnectTimes, history, forgotten, clock, steady := [], [], 0, now, true;
    }

    /** `reconnect_times.append`: the oldest entry of a full deque is dropped. */
    method Record(now: real)
      requires Valid()
      modifies this
      ensures Valid() && history == old(history) + [now]
      ensures clock == now && steady == (old(steady) && old(clock) <= now)
      ensures var all := old(reconnectTimes) + [now];
        reconnectTimes == if |all| > 50 then all[1..] else all
    {
      hide NonDecreasing;
      if steady && clock <= now { RecordKeepsSteady(history, forgotten, clock, now); }
      hide Steady;
      steady, clock := steady && clock <= now, now;
      reconnectTimes := reconnectTimes + [now];
      history := history + [now];
      assert reconnectTimes == history[forgotten..];
      if |reconnectTimes| > MAX_TIMES {
        reconnectTimes := reconnectTimes[1..];
        forgotten := forgotten + 1;
      }
    }

    /** `_check_reconnect_storm`. Only entries before the first recent one are dropped; as long as the
        wall clock never went back, what is left is the number of recent attempts in the full history,
        up to 50. */
    method Check(now: real) returns (storm: bool)
      requires Valid()
      modifies this`reconnectTimes, this`forgotten, this`clock, this`steady
      ensures Valid() && clock == now && steady == (old(steady) && old(clock) <= now)
      ensures storm <==> |reconnectTimes| >= threshold
      ensures var cutoff, n := now - 300.0, forgotten - old(forgotten);
        && 0 <= n <= |old(reconnectTimes)| && reconnectTimes == old(reconnectTimes)[n..]
        && (forall i :: 0 <= i < n ==> old(reconnectTimes)[i] < cutoff)
        && (reconnectTimes != [] ==> reconnectTimes[0] >= cutoff)
      ensures steady ==> |reconnectTimes| == Min(50, Recent(history, now - 300.0))
    {
      hide NonDecreasing;
      hide Recent;
      hide Steady;
      hide AllBefore;
      hide Min;
      var cutoff := now - STORM_WINDOW_SECONDS;
      ghost var first, before, n := forgotten, reconnectTimes, 0;
      NothingBefore(before, cutoff);
      while reconnectTimes != [] && reconnectTimes[0] < cutoff
        invariant n <= |before| && reconnectTimes == before[n..] && AllBefore(before, 0, n, cutoff)
        invariant forgotten == first && clock == old(clock) && steady == old(steady)
        decreases |reconnectTimes|
      {
        OneMoreBefore(before, n, cutoff);
        reconnectTimes := reconnectTimes[1..];
        n := n + 1;
      }
      storm := |reconnectTimes| >= threshold;
      forgotten := first + n;
      AllBeforeMeans(before, n, cutoff);
      DroppedIsOld(history, first, forgotten, cutoff);
      if steady && clock <= now { PrunedCount(history, first, forgotten, clock, now); }
      steady, clock := steady && clock <= now, now;
    }
  }

  /** What a deque that starts at `forgotten` has lost, in a history read off a clock that never went
      back and stands at `clock`. */
  ghost predicate Steady(history: seq<real>, forgotten: nat, clock: real)
    requires forgotten <= |history|
  {
    && NonDecreasing(history)
    && (history != [] ==> history[|history| - 1] <= clock)
    && (|history| < forgotten + MAX_TIMES ==> AllBefore(history, 0, forgotten, clock - STORM_WINDOW_SECONDS))
  }

  ghost predicate AllBefore(history: seq<real>, from: nat, to: nat, cutoff: real)
    requires to <= |history|
  {
    forall i :: from <= i < to ==> history[i] < cutoff
  }

  lemma DroppedIsOld(history: seq<real>, first: nat, kept: nat, cutoff: real)
    requires first <= kept <= |history| && AllBefore(history[first..], 0, kept - first, cutoff)
    ensures AllBefore(history, first, kept, cutoff) && history[first..][kept - first..] == history[kept..]
  {
    forall i | first <= i < kept ensures history[i] < cutoff {
      assert history[first..][i - first] == history[i];
    }
  }

  lemma NothingBefore(s: seq<real>, cutoff: real)
    ensures AllBefore(s, 0, 0, cutoff)
  {
  }

  lemma OneMoreBefore(s: seq<real>, n: nat, cutoff: real)
    requires n < |s| && AllBefore(s, 0, n, cutoff) && s[n] < cutoff
    ensures AllBefore(s, 0, n + 1, cutoff)
  {
  }

  lemma AllBeforeMeans(s: seq<real>, n: nat, cutoff: real)
    requires n <= |s| && AllBefore(s, 0, n, cutoff)
    ensures forall i :: 0 <= i < n ==> s[i] < cutoff
  {
  }

  lemma AppendKeepsOrder(history: seq<real>, now: real)
    requires NonDecreasing(history) && (history != [] ==> history[|history| - 1] <= now)
    ensures NonDecreasing(history + [now])
  {
  }

  lemma RecordKeepsSteady(history: seq<real>, forgotten: nat, clock: real, now: real)
    requires forgotten <= |history| <= forgotten + MAX_TIMES && Steady(history, forgotten, clock) && clock <= now
    ensures Steady(history + [now], forgotten, now)
    ensures |history| == forgotten + MAX_TIMES ==> Steady(history + [now], forgotten + 1, now)
  {
    AppendKeepsOrder(history, now);
    hide NonDecreasing;
  }

  lemma LaterIsRecent(history: seq<real>, kept: nat, cutoff: real)
    requires kept <= |history| && NonDecreasing(history)
    requires kept < |history| ==> history[kept] >= cutoff
    ensures Recent(history[kept..], cutoff) == |history| - kept
  {
    var left := history[kept..];
    forall i | 0 <= i < |left| ensures left[i] >= cutoff {
      assert history[kept + i] >= history[kept];
    }
    AllRecent(left, cutoff);
  }

  lemma EarlierIsOld(history: seq<real>, kept: nat, cutoff: real)
    requires kept <= |history| && AllBefore(history, 0, kept, cutoff)
    ensures Recent(history[..kept], cutoff) == 0
  {
    NoneRecent(history[..kept], cutoff);
  }

  /** Below an old entry all is old. */
  lemma PrunedIsOld(history: seq<real>, first: nat, kept: nat, cutoff: real)
    requires first <= kept <= |history| && NonDecreasing(history) && AllBefore(history, first, kept, cutoff)
    requires first == kept ==> AllBefore(history, 0, first, cutoff)
    ensures AllBefore(history, 0, kept, cutoff)
  {
    if first < kept {
      assert history[first] < cutoff;
      assert forall i :: 0 <= i < first ==> history[i] <= history[first];
    }
  }

  /** What is left of the deque counts the recent part of the history. */
  lemma PrunedCount(history: seq<real>, first: nat, kept: nat, clock: real, now: real)
    requires first <= kept <= |history| <= first + MAX_TIMES && Steady(history, first, clock) && clock <= now
    requires AllBefore(history, first, kept, now - STORM_WINDOW_SECONDS)
    requires kept < |history| ==> history[kept] >= now - STORM_WINDOW_SECONDS
    ensures |history| - kept == Min(MAX_TIMES, Recent(history, now - STORM_WINDOW_SECONDS))
    ensures Steady(history, kept, now)
  {
    hide NonDecreasing;
    hide Recent;
    var cutoff := now - STORM_WINDOW_SECONDS;
    assert history == history[..kept] + history[kept..];
    LaterIsRecent(history, kept, cutoff);
    RecentOfSplit(history[..kept], history[kept..], cutoff);
    if |history| - kept < MAX_TIMES {
      PrunedIsOld(history, first, kept, cutoff);
      EarlierIsOld(history, kept, cutoff);
    }
  }

  /** The bounded deque gives the answer of the full history for every history exactly when the
      threshold is at most 50; a higher threshold never fires. */
  lemma BoundIsHarmlessExactlyUpTo50(threshold: nat)
    ensures (forall history, cutoff ::
        Min(50, Recent(history, cutoff)) >= threshold <==> Recent(history, cutoff) >= threshold)
      <==> threshold <= 50
  {
    if threshold > MAX_TIMES {
      var burst := seq(threshold, _ => 0.0);
      AllRecent(burst, 0.0);
      assert Recent(burst, 0.0) >= threshold && Min(MAX_TIMES, Recent(burst, 0.0)) < threshold;
    }
  }
}
