/** The latest-value queue as an object, one caller at a time. */
module LatestQueue {
  import opened Wrappers

  const U64: nat := 0x1_0000_0000_0000_0000

  class Queue<T> {
    const capacity: nat
    var items: seq<T>
    var dropped: nat

    ghost predicate Valid()
      reads this
    {
      0 < capacity && |items| <= capacity && dropped < U64
    }

    constructor (capacity: nat)
      requires capacity > 0
      ensures Valid() && this.capacity == capacity && items == [] && dropped == 0
    {
      this.capacity, items, dropped := capacity, [], 0;
    }

    method Pop() returns (item: Option<T>)
      requires Valid()
      modifies this`items
      ensures Valid()
      ensures item == if old(items) == [] then None else Some(old(items)[0])
      ensures items == if old(items) == [] then [] else old(items)[1..]
    {
      if items == [] {
        return None;
      }
      item := Some(items[0]);
      items := items[1..];
    }

    /** Never blocks: a full queue loses its oldest item, and only then counts a drop. */
    method PushLatest(item: T)
      requires Valid()
      modifies this
      ensures Valid()
      ensures items == (if |old(items)| == capacity then old(items)[1..] else old(items)) + [item]
      ensures dropped == if |old(items)| == capacity then (old(dropped) + 1) % U64 else old(dropped)
    {
      if |items| == capacity {
        items := items[1..] + [item];
        dropped := (dropped + 1) % U64;
      } else {
        items := items + [item];
      }
    }

    /** Takes the newest item and discards everything older. */
    method TryPopLatest() returns (latest: Option<T>)
      requires Valid()
      modifies this`items
      ensures Valid() && items == []
      ensures latest == if old(items) == [] then None else Some(old(items)[|old(items)| - 1])
    {
      latest := Pop();
      if latest.None? {
        return;
      }
      var pending := |items|;
      for k := 0 to pending
        invariant Valid() && |items| == pending - k
        invariant items == old(items)[k + 1..]
        invariant latest == Some(old(items)[k])
      {
        var item := Pop();
        if item.None? {
          break;
        }
        latest := item;
      }
    }

    method Clear()
      requires Valid()
      modifies this`items
      ensures Valid() && items == []
    {
      var more := true;
      while more
        invariant Valid() && (!more ==> items == [])
        decreases |items|, more
      {
        var item := Pop();
        more := item.Some?;
      }
    }
  }
}

/**
 * The same queue under interleaving: one producer, one consumer in `try_pop_latest` or
 * `pop_latest`, and a third party calling `clear`. Every atomic operation is one step. Items are
 * the numbers 0, 1, 2, … in the order they were pushed.
 */
module QueueInterleaving {
  import opened LatestQueue

  /** Between the operations of one `push_latest`. */
  datatype Producer = Ready | Stored(evicting: bool) | Counted

  /**
   * `Popped` and `Draining` are inside `try_pop_latest`. `Missed` is `pop_latest` after an empty
   * try and before it polls the notification; `Parked` is registered as waiter.
   */
  datatype Consumer =
    | Outside
    | Popped(latest: nat)
    | Draining(latest: nat, left: nat, newest: int)  // `newest` was the last item pushed at the `len` read
    | Missed
    | Parked
    | Retrying

  datatype Shared = Shared(
    capacity: nat,
    queue: seq<nat>,
    dropped: nat,
    permit: bool,            // the notification's stored permit
    producer: Producer,
    consumer: Consumer,
    // bookkeeping of the model
    pushed: nat,
    evicted: nat,
    returned: seq<nat>,
    skipped: nat,
    cleared: nat,
    robbed: bool)            // see `Robs`

  datatype Step = Push | Count | Notify | TryPop(blocking: bool) | ReadLen | PopMore | Poll | Clear

  function Init(capacity: nat): Shared {
    Shared(capacity, [], 0, false, Ready, Outside, 0, 0, [], 0, 0, false)
  }

  predicate Enabled(s: Shared, step: Step) {
    match step
    case Push => s.producer == Ready
    case Count => s.producer.Stored?
    case Notify => s.producer == Counted
    case TryPop(blocking) => s.consumer == Outside || (s.consumer == Retrying && blocking)
    case ReadLen => s.consumer.Popped?
    case PopMore => s.consumer.Draining?
    case Poll => s.consumer == Missed
    case Clear => s.queue != []
  }

  /** A `clear` now takes an item from a call that has not yet popped one as new as its `len` read saw. */
  predicate Robs(s: Shared) {
    s.consumer.Popped? || (s.consumer.Draining? && s.consumer.latest < s.consumer.newest)
  }

  function Return(s: Shared, item: nat): Shared {
    s.(consumer := Outside, returned := s.returned + [item])
  }

  function Next(s: Shared, step: Step): Shared
    requires Enabled(s, step)
  {
    match step
    case Push =>
      if |s.queue| >= s.capacity && s.queue != [] then
        s.(queue := s.queue[1..] + [s.pushed], pushed := s.pushed + 1, evicted := s.evicted + 1,
           producer := Stored(true))
      else
        s.(queue := s.queue + [s.pushed], pushed := s.pushed + 1, producer := Stored(false))
    case Count =>
      s.(dropped := if s.producer.evicting then (s.dropped + 1) % U64 else s.dropped, producer := Counted)
    case Notify =>
      if s.consumer == Parked then s.(consumer := Retrying, producer := Ready)
      else s.(permit := true, producer := Ready)
    case TryPop(blocking) =>
      if s.queue == [] then s.(consumer := if blocking then Missed else Outside)
      else s.(queue := s.queue[1..], consumer := Popped(s.queue[0]), robbed := false)
    case ReadLen =>
      if s.queue == [] then Return(s, s.consumer.latest)
      else s.(consumer := Draining(s.consumer.latest, |s.queue|, s.pushed - 1), robbed := false)
    case PopMore =>
      if s.queue == [] then Return(s, s.consumer.latest)
      else
        var s' := s.(queue := s.queue[1..], skipped := s.skipped + 1, robbed := false);
        if s.consumer.left == 1 then Return(s', s.queue[0])
        else
          var left := if s.consumer.left == 0 then 0 else s.consumer.left - 1;
          s'.(consumer := s.consumer.(latest := s.queue[0], left := left))
    case Poll =>
      if s.permit then s.(permit := false, consumer := Retrying) else s.(consumer := Parked)
    case Clear =>
      s.(queue := s.queue[1..], cleared := s.cleared + 1, robbed := s.robbed || Robs(s))
  }

  // ----- what every reachable state satisfies -----

  /** The queue holds the most recent pushes, in order. */
  ghost predicate Recent(s: Shared) {
    && |s.queue| <= s.capacity && |s.queue| <= s.pushed
    && forall i :: 0 <= i < |s.queue| ==> s.queue[i] == s.pushed - |s.queue| + i
  }

  function Oldest(s: Shared): int { s.pushed - |s.queue| }

  function InHand(s: Shared): nat { if s.consumer.Popped? || s.consumer.Draining? then 1 else 0 }

  /** Every pushed item was evicted, returned, skipped or cleared, or is queued or in the consumer's hand. */
  ghost predicate Conserved(s: Shared) {
    s.pushed == s.evicted + |s.returned| + s.skipped + s.cleared + |s.queue| + InHand(s)
  }

  /** The drop counter counts exactly the evictions, modulo its width, one late while a push is in progress. */
  ghost predicate DropsCounted(s: Shared) {
    && s.dropped == (s.evicted - (if s.producer == Stored(true) then 1 else 0)) % U64
    && (s.producer == Stored(true) ==> s.evicted > 0)
  }

  ghost predicate Increasing(r: seq<nat>) {
    forall i, j :: 0 <= i < j < |r| ==> r[i] < r[j]
  }

  /** Results only get newer and are older than everything queued. */
  ghost predicate ResultsOrdered(s: Shared) {
    && Increasing(s.returned)
    && forall i :: 0 <= i < |s.returned| ==> s.returned[i] < Oldest(s)
  }

  /** What is in hand is newer than every result and older than the queue. */
  ghost predicate HandOrdered(s: Shared) {
    InHand(s) == 1 ==>
      && s.consumer.latest < Oldest(s)
      && forall i :: 0 <= i < |s.returned| ==> s.returned[i] < s.consumer.latest
  }

  /** What is still to be popped reaches the newest item of the `len` read, unless `clear` empties the queue first. */
  ghost predicate Reaching(s: Shared) {
    && (s.consumer.Popped? ==>
          && (s.robbed ==> s.consumer.latest < s.pushed - 1)
          && (!s.robbed && s.queue == [] ==> s.consumer.latest == s.pushed - 1))
    && (s.consumer.Draining? ==>
          && s.consumer.left > 0 && s.consumer.newest < s.pushed && s.consumer.newest < Oldest(s) + s.consumer.left
          && (s.robbed ==> s.consumer.latest < s.consumer.newest)
          && (!s.robbed && s.queue == [] ==> s.consumer.latest >= s.consumer.newest))
  }

  /** A consumer about to wait, or waiting, beside a non-empty queue will be woken. */
  ghost predicate WakeUpDue(s: Shared) {
    && (s.consumer == Missed && s.queue != [] ==> s.permit || s.producer != Ready)
    && (s.consumer == Parked ==> !s.permit && (s.queue != [] ==> s.producer != Ready))
  }

  ghost predicate Inv(s: Shared) {
    && s.capacity > 0 && Recent(s) && Conserved(s) && DropsCounted(s) && ResultsOrdered(s) && HandOrdered(s)
    && Reaching(s) && WakeUpDue(s)
  }

  lemma InitInv(capacity: nat)
    requires capacity > 0
    ensures Inv(Init(capacity))
  {
  }

  lemma RecentKept(s: Shared, step: Step)
    requires Inv(s) && Enabled(s, step)
    ensures Recent(Next(s, step)) && Next(s, step).capacity == s.capacity
  {
    hide Conserved, DropsCounted, ResultsOrdered, HandOrdered, Reaching, WakeUpDue;
  }

  lemma ConservedKept(s: Shared, step: Step)
    requires Inv(s) && Enabled(s, step)
    ensures Conserved(Next(s, step))
  {
    hide DropsCounted, ResultsOrdered, HandOrdered, Reaching, WakeUpDue;
  }

  lemma DropsCountedKept(s: Shared, step: Step)
    requires Inv(s) && Enabled(s, step)
    ensures DropsCounted(Next(s, step))
  {
    hide Recent, Conserved, ResultsOrdered, HandOrdered, Reaching, WakeUpDue;
    if step == Count && s.producer.evicting {
      NextDrop(s.evicted - 1);
    }
  }

  lemma NextDrop(n: nat)
    ensures (n % U64 + 1) % U64 == (n + 1) % U64
  {
  }

  lemma ResultsOrderedKept(s: Shared, step: Step)
    requires Inv(s) && Enabled(s, step)
    ensures ResultsOrdered(Next(s, step))
  {
    hide Conserved, DropsCounted, Reaching, WakeUpDue;
  }

  lemma HandOrderedKept(s: Shared, step: Step)
    requires Inv(s) && Enabled(s, step)
    ensures HandOrdered(Next(s, step))
  {
    hide Conserved, DropsCounted, Reaching, WakeUpDue;
  }

  lemma ReachingKept(s: Shared, step: Step)
    requires Inv(s) && Enabled(s, step)
    ensures Reaching(Next(s, step))
  {
    hide Conserved, DropsCounted, ResultsOrdered, WakeUpDue;
  }

  lemma WakeUpKept(s: Shared, step: Step)
    requires Inv(s) && Enabled(s, step)
    ensures WakeUpDue(Next(s, step))
  {
  }

  ghost predicate IsRun(s: Shared, steps: seq<Step>, s': Shared)
    decreases |steps|
  {
    if steps == [] then s' == s
    else Enabled(s, steps[0]) && IsRun(Next(s, steps[0]), steps[1..], s')
  }

  /** Every interleaving keeps the invariant. */
  lemma {:induction false} RunKeepsInv(s: Shared, steps: seq<Step>, s': Shared)
    requires Inv(s) && IsRun(s, steps, s')
    ensures Inv(s')
    decreases |steps|
  {
    if steps == [] {
    } else {
      RecentKept(s, steps[0]);
      ConservedKept(s, steps[0]);
      DropsCountedKept(s, steps[0]);
      ResultsOrderedKept(s, steps[0]);
      HandOrderedKept(s, steps[0]);
      ReachingKept(s, steps[0]);
      WakeUpKept(s, steps[0]);
      RunKeepsInv(Next(s, steps[0]), steps[1..], s');
    }
  }

  /**
   * In any run, a step that returns a result returns something newer than every earlier result. A
   * result that was popped is at least as new as everything pushed before the `len` read, whatever
   * `clear` did. Where the queue ran empty instead, that holds exactly when `clear` did not rob the call.
   */
  lemma ReturnIsFresh(capacity: nat, steps: seq<Step>, s: Shared, step: Step)
    requires capacity > 0 && IsRun(Init(capacity), steps, s)
    requires Enabled(s, step) && |Next(s, step).returned| > |s.returned|
    ensures var item := Next(s, step).returned[|s.returned|];
            && Next(s, step).returned == s.returned + [item]
            && (forall i :: 0 <= i < |s.returned| ==> s.returned[i] < item)
            && (step == ReadLen || (step == PopMore && s.consumer.Draining?))
            && (step == ReadLen ==> (item == s.pushed - 1 <==> !s.robbed))
            && (step == PopMore && s.queue != [] ==> item >= s.consumer.newest)
            && (step == PopMore && s.queue == [] ==> (item >= s.consumer.newest <==> !s.robbed))
  {
    InitInv(capacity);
    RunKeepsInv(Init(capacity), steps, s);
    hide Conserved, DropsCounted, WakeUpDue, IsRun;
  }

  /** From any run of a fresh queue: no lost wake-up, results in order, nothing unaccounted for. */
  lemma EveryRun(capacity: nat, steps: seq<Step>, s: Shared)
    requires capacity > 0 && IsRun(Init(capacity), steps, s)
    ensures s.consumer == Parked && s.queue != [] ==> s.producer != Ready
    ensures Increasing(s.returned)
    ensures s.pushed == s.evicted + |s.returned| + s.skipped + s.cleared + |s.queue| + InHand(s)
    ensures s.producer == Ready ==> s.dropped == s.evicted % U64
  {
    InitInv(capacity);
    RunKeepsInv(Init(capacity), steps, s);
  }

  /**
   * A robbed call does return something stale: `clear` takes the newer item between the `len` read and
   * the next pop.
   */
  lemma ClearMayStale()
    ensures var s1 := Next(Next(Next(Init(1), Push), Count), Notify);
            var s2 := Next(Next(Next(s1, TryPop(false)), Push), ReadLen);
            var s3 := Next(s2, Clear);
            s2.consumer == Draining(0, 1, 1) && s3.robbed && Next(s3, PopMore).returned == [0]
  {
  }
}
