/** The Telink command dispatcher: a bounded queue drained by one worker, with a time to live and
    a stop that throws the rest away. Each method is one uninterrupted step. */
module Dispatcher {
  import opened Bytes

  datatype Command = Command(opcode: nat, params: bytes, destId: nat, createdAt: real)

  /** How a command left the dispatcher. */
  datatype Fate = Attempted | Expired | Discarded

  datatype Outcome = Outcome(command: Command, fate: Fate)

  datatype Enqueued = Accepted | QueueFull

  function Commands(done: seq<Outcome>): (c: seq<Command>)
    ensures |c| == |done|
    ensures forall i :: 0 <= i < |done| ==> c[i] == done[i].command
  {
    seq(|done|, i requires 0 <= i < |done| => done[i].command)
  }

  function Held(inHand: Option<Command>): seq<Command> {
    match inHand
    case None => []
    case Some(c) => [c]
  }

  function DiscardAll(commands: seq<Command>): (o: seq<Outcome>)
    ensures Commands(o) == commands
    ensures forall i :: 0 <= i < |o| ==> o[i].fate == Discarded
  {
    seq(|commands|, i requires 0 <= i < |commands| => Outcome(commands[i], Discarded))
  }

  class CommandDispatcher {
    const maxSize: nat
    const ttl: real
    var queue: seq<Command>
    var running: bool
    var inHand: Option<Command>      // taken by the worker, waiting for the connection
    ghost var accepted: seq<Command> // everything ever enqueued
    ghost var done: seq<Outcome>     // everything that left, in the order it left

    /** First in, first out, with nothing lost: what left, what is in hand and what is queued are,
        in this order, what was accepted. */
    ghost predicate Valid()
      reads this
    {
      && |queue| <= maxSize
      && (inHand.Some? ==> running)
      && accepted == Commands(done) + Held(inHand) + queue
    }

    constructor (maxSize: nat, ttl: real)
      ensures Valid() && !running && accepted == [] && queue == []
      ensures this.maxSize == maxSize && this.ttl == ttl
    {
      this.maxSize, this.ttl := maxSize, ttl;
      queue, running, inHand, accepted, done := [], false, None, [], [];
    }

    /** `start`. What was queued while stopped is still there. */
    method Start()
      requires Valid()
      modifies this`running
      ensures Valid() && running
    {
      running := true;
    }

    /** `enqueue`: accepted while there is room, running or not. */
    method Enqueue(opcode: nat, params: bytes, destId: nat, now: real) returns (r: Enqueued)
      requires Valid()
      modifies this`queue, this`accepted
      ensures Valid()
      ensures r == if |old(queue)| < maxSize then Accepted else QueueFull
      ensures r == Accepted ==>
        var c := Command(opcode, params, destId, now);
        queue == old(queue) + [c] && accepted == old(accepted) + [c]
      ensures r == QueueFull ==> queue == old(queue) && accepted == old(accepted)
    {
      if |queue| >= maxSize { return QueueFull; }
      var c := Command(opcode, params, destId, now);
      queue := queue + [c];
      accepted := accepted + [c];
      assert Commands(done) + Held(inHand) + queue == Commands(done) + Held(inHand) + old(queue) + [c];
      r := Accepted;
    }

    /** The worker's `queue.get` and the check of the age. */
    method Take(now: real)
      requires Valid() && running && inHand == None && queue != []
      modifies this`queue, this`inHand, this`done
      ensures Valid() && queue == old(queue)[1..]
      ensures var c := old(queue)[0];
        if now - c.createdAt > ttl then inHand == None && done == old(done) + [Outcome(c, Expired)]
        else inHand == Some(c) && done == old(done)
    {
      var c := queue[0];
      assert queue == [c] + queue[1..];
      queue := queue[1..];
      if now - c.createdAt > ttl {
        done := done + [Outcome(c, Expired)];
        assert Commands(done) == Commands(old(done)) + [c];
      } else {
        inHand := Some(c);
      }
    }

    /** The connection is up: `_send_now`, once, whether or not it succeeds. */
    method Send()
      requires Valid() && inHand.Some?
      modifies this`inHand, this`done
      ensures Valid() && inHand == None && done == old(done) + [Outcome(old(inHand).value, Attempted)]
    {
      done := done + [Outcome(inHand.value, Attempted)];
      assert Commands(done) == Commands(old(done)) + [inHand.value];
      inHand := None;
    }

    /** `stop`: cancels the worker, which drops the command in hand, and drains the queue. It does
        nothing when the dispatcher is not running, so commands queued then stay queued. */
    method Stop()
      requires Valid()
      modifies this`queue, this`running, this`inHand, this`done
      ensures Valid() && !running
      ensures old(running) ==>
        && queue == [] && inHand == None
        && done == old(done) + DiscardAll(Held(old(inHand)) + old(queue))
      ensures !old(running) ==> queue == old(queue) && done == old(done) && inHand == old(inHand)
    {
      if !running { return; }
      running := false;
      ghost var dropped := Held(inHand) + queue;
      assert Commands(done + DiscardAll(dropped)) == Commands(done) + dropped;
      done := done + DiscardAll(dropped);
      inHand := None;
      while queue != []
        invariant |queue| <= maxSize && !running && inHand == None
        invariant done == old(done) + DiscardAll(dropped)
        decreases |queue|
      {
        queue := queue[1..];
      }
      assert Commands(done) + Held(inHand) + queue == Commands(done);
    }
  }

  function Count(done: seq<Outcome>, fate: Fate): nat {
    if done == [] then 0
    else Count(done[..|done| - 1], fate) + (if done[|done| - 1].fate == fate then 1 else 0)
  }

  lemma {:induction false} FatesAddUp(done: seq<Outcome>)
    ensures |done| == Count(done, Attempted) + Count(done, Expired) + Count(done, Discarded)
  {
    if done == [] {
    } else {
      FatesAddUp(done[..|done| - 1]);
    }
  }

  /** Positions in `accepted` of the commands that were attempted. */
  function AttemptedAt(done: seq<Outcome>): (at: seq<nat>)
    ensures |at| == Count(done, Attempted)
    ensures forall i :: 0 <= i < |at| ==> at[i] < |done| && done[at[i]].fate == Attempted
    ensures forall i, j :: 0 <= i < j < |at| ==> at[i] < at[j]
  {
    if done == [] then []
    else
      var k := |done| - 1;
      AttemptedAt(done[..k]) + (if done[k].fate == Attempted then [k] else [])
  }

  /** In every valid state: accepted = attempted + expired + discarded + in hand + queued, and the
      commands attempted are, in order, a subsequence of those accepted, each taken once. */
  lemma NothingLostNothingTwice(d: CommandDispatcher)
    requires d.Valid()
    ensures |d.accepted| == Count(d.done, Attempted) + Count(d.done, Expired) + Count(d.done, Discarded)
      + |Held(d.inHand)| + |d.queue|
    ensures var at := AttemptedAt(d.done);
      forall i :: 0 <= i < |at| ==>
        at[i] < |d.accepted| && d.accepted[at[i]] == d.done[at[i]].command && d.done[at[i]].fate == Attempted
  {
    FatesAddUp(d.done);
  }
}
