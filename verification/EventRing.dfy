/**
 * The ring of core events. A notify never refuses an event, it overwrites the
 * oldest slot and keeps counting; a get hands out a pointer into the ring.
 */
module EventRing {
  import opened Prelude

  const QUEUE_LEN: int := 40

  datatype Event = Event(eventType: int, context: int)

  /** The number of the newest of `n` notifies that went to `slot`. */
  function Newest(n: nat, slot: nat): (k: nat)
    requires slot < QUEUE_LEN && slot < n
    ensures k < n && k % QUEUE_LEN == slot && n - k <= QUEUE_LEN
  {
    n - 1 - (n - 1 - slot) % QUEUE_LEN
  }

  /** The number of the notify that the next get returns, after `n` notifies and `gets` gets. */
  function NextNumber(n: nat, gets: nat): nat
    requires gets < n
  {
    gets + QUEUE_LEN * ((n - 1 - gets) / QUEUE_LEN)
  }

  // ---- runs ----

  datatype Step = Put(ev: Event) | Take

  /** The events notified so far, and the ones that gets have returned. */
  datatype Traffic = Traffic(notified: seq<Event>, taken: seq<Event>)

  /** One step; a get of an empty ring returns nothing. */
  function Next(t: Traffic, step: Step): Traffic {
    match step
    case Put(ev) => t.(notified := t.notified + [ev])
    case Take =>
      if |t.taken| >= |t.notified| then t
      else t.(taken := t.taken + [t.notified[NextNumber(|t.notified|, |t.taken|)]])
  }

  function Run(steps: seq<Step>): Traffic {
    if steps == [] then Traffic([], []) else Next(Run(steps[..|steps| - 1]), steps[|steps| - 1])
  }

  // ---- the ring as the C code runs it ----

  class Queue {
    var events: array<Event>
    var eventRead: int
    var eventWrite: int
    var numCurrEvents: int
    ghost var traffic: Traffic

    /** The indices are the totals modulo the length, and each slot holds its newest notify. */
    ghost predicate Valid()
      reads this, events
    {
      var n, gets := |traffic.notified|, |traffic.taken|;
      && events.Length == QUEUE_LEN && gets <= n
      && eventWrite == n % QUEUE_LEN && eventRead == gets % QUEUE_LEN
      && numCurrEvents == n - gets
      && forall i: nat :: i < QUEUE_LEN && i < n ==> events[i] == traffic.notified[Newest(n, i)]
    }

    constructor ()
      ensures Valid() && traffic == Run([]) && fresh(events)
    {
      events := new Event[QUEUE_LEN](_ => Event(0, 0));
      eventRead, eventWrite, numCurrEvents := 0, 0, 0;
      traffic := Traffic([], []);
    }

    method Notify(ev: Event)
      requires Valid()
      modifies this, events
      ensures Valid() && events == old(events)
      ensures traffic == Next(old(traffic), Put(ev))
    {
      ghost var n := |traffic.notified|;
      events[eventWrite] := ev;
      NotifyMovesOneSlot(n);
      NextIndex(eventWrite, n);
      eventWrite := (eventWrite + 1) % QUEUE_LEN;
      numCurrEvents := numCurrEvents + 1;
      traffic := Next(traffic, Put(ev));
    }

    /** Returns the slot, not a copy of the event in it. */
    method GetNext() returns (slot: Option<nat>)
      requires Valid()
      modifies this
      ensures Valid() && events == old(events) && traffic == Next(old(traffic), Take)
      ensures slot.None? <==> |old(traffic).taken| == |traffic.notified|
      ensures slot.Some? ==>
                && slot.value == |old(traffic).taken| % QUEUE_LEN
                && traffic.taken == old(traffic).taken + [events[slot.value]]
    {
      slot := None;
      if numCurrEvents != 0 {
        slot := Some(eventRead);
        NextIsNewestInSlot(|traffic.notified|, |traffic.taken|);
        NextIndex(eventRead, |traffic.taken|);
        eventRead := (eventRead + 1) % QUEUE_LEN;
        numCurrEvents := numCurrEvents - 1;
        traffic := Next(traffic, Take);
      }
    }
  }

  lemma NextIndex(index: int, total: nat)
    requires index == total % QUEUE_LEN
    ensures (index + 1) % QUEUE_LEN == (total + 1) % QUEUE_LEN
  {
  }

  /** A notify changes what is newest in one slot only. */
  lemma NotifyMovesOneSlot(n: nat)
    ensures Newest(n + 1, n % QUEUE_LEN) == n
    ensures forall i: nat :: i < QUEUE_LEN && i < n && i != n % QUEUE_LEN ==> Newest(n + 1, i) == Newest(n, i)
  {
    forall i: nat | i < QUEUE_LEN && i < n && i != n % QUEUE_LEN
      ensures Newest(n + 1, i) == Newest(n, i)
    {
      SameResidue(Newest(n + 1, i), Newest(n, i));
    }
    SameResidue(Newest(n + 1, n % QUEUE_LEN), n);
  }

  lemma SameResidue(j: nat, k: nat)
    requires j % QUEUE_LEN == k % QUEUE_LEN && -QUEUE_LEN < j - k < QUEUE_LEN
    ensures j == k
  {
  }

  lemma NextIsNewestInSlot(n: nat, gets: nat)
    requires gets < n
    ensures gets % QUEUE_LEN < n
    ensures NextNumber(n, gets) == Newest(n, gets % QUEUE_LEN)
    ensures NextNumber(n, gets) == gets <==> n - gets <= QUEUE_LEN
  {
    var k := NextNumber(n, gets);
    assert k % QUEUE_LEN == gets % QUEUE_LEN;
    SameResidue(k, Newest(n, gets % QUEUE_LEN));
  }

  /** The events of the notifies, in order. */
  function Puts(steps: seq<Step>): seq<Event>
    decreases |steps|
  {
    if steps == [] then [] else (if steps[0].Put? then [steps[0].ev] else []) + Puts(steps[1..])
  }

  lemma {:induction false} PutsJoin(a: seq<Step>, b: seq<Step>)
    ensures Puts(a + b) == Puts(a) + Puts(b)
    decreases |a|
  {
    if a == [] {
      assert a + b == b;
    } else {
      assert (a + b)[1..] == a[1..] + b;
      PutsJoin(a[1..], b);
    }
  }

  /** Every notify of a run is taken in, and a get returns an event whenever one is left. */
  lemma {:induction false} NothingIsRefused(steps: seq<Step>)
    ensures Run(steps).notified == Puts(steps)
    ensures |Next(Run(steps), Take).taken|
         == |Run(steps).taken| + if |Run(steps).taken| < |Puts(steps)| then 1 else 0
    decreases |steps|
  {
    if steps != [] {
      var init, last := steps[..|steps| - 1], steps[|steps| - 1];
      NothingIsRefused(init);
      assert steps == init + [last] && [last][1..] == [];
      PutsJoin(init, [last]);
    }
  }

  /** No get of the run comes while more events are queued than the ring has slots. */
  ghost predicate NeverOverfull(steps: seq<Step>) {
    forall k :: 0 <= k < |steps| && steps[k].Take? ==>
      |Run(steps[..k]).notified| - |Run(steps[..k]).taken| <= 40
  }

  ghost predicate Distinct(events: seq<Event>) {
    forall i, j :: 0 <= i < j < |events| ==> events[i] != events[j]
  }

  /** The events returned are the first ones notified, in order. */
  predicate Fifo(t: Traffic) {
    |t.taken| <= |t.notified| && t.taken == t.notified[..|t.taken|]
  }

  /**
   * The gets of a run return the events first in, first out if none of them
   * finds the ring overfull, and, when events can be told apart, only if.
   */
  lemma {:induction false} FifoIffNoOverflow(steps: seq<Step>)
    ensures |Run(steps).taken| <= |Run(steps).notified|
    ensures NeverOverfull(steps) ==> Fifo(Run(steps))
    ensures Distinct(Run(steps).notified) && Fifo(Run(steps)) ==> NeverOverfull(steps)
    decreases |steps|
  {
    if steps != [] {
      var init, last := steps[..|steps| - 1], steps[|steps| - 1];
      FifoIffNoOverflow(init);
      OverfullLater(steps);
      NextFifo(Run(init), last);
    }
  }

  lemma OverfullLater(steps: seq<Step>)
    requires steps != []
    ensures var init, last := steps[..|steps| - 1], steps[|steps| - 1];
            NeverOverfull(steps) <==>
              NeverOverfull(init) && (last.Take? ==> |Run(init).notified| - |Run(init).taken| <= QUEUE_LEN)
  {
    var init := steps[..|steps| - 1];
    assert forall k :: 0 <= k < |init| ==> steps[..k] == init[..k] && steps[k] == init[k];
    assert steps[..|init|] == init;
  }

  /** One step keeps the order, or is the get of an overfull ring that breaks it. */
  lemma NextFifo(t: Traffic, step: Step)
    requires |t.taken| <= |t.notified|
    ensures |Next(t, step).taken| <= |Next(t, step).notified|
    ensures Fifo(t) && (step.Take? ==> |t.notified| - |t.taken| <= QUEUE_LEN) ==> Fifo(Next(t, step))
    ensures Distinct(Next(t, step).notified) && Fifo(Next(t, step)) ==>
              Distinct(t.notified) && Fifo(t) && (step.Take? ==> |t.notified| - |t.taken| <= QUEUE_LEN)
  {
    var next := Next(t, step);
    assert forall i :: 0 <= i < |t.notified| ==> next.notified[i] == t.notified[i];
    if step.Take? && |t.taken| < |t.notified| {
      NextIsNewestInSlot(|t.notified|, |t.taken|);
    }
    if Fifo(next) {
      assert t.taken == next.taken[..|t.taken|] == next.notified[..|t.taken|] == t.notified[..|t.taken|];
      if next.taken != t.taken {
        assert next.taken[|t.taken|] == next.notified[|t.taken|];
      }
    }
  }

  /**
   * The slot handed out while `count` events were queued still holds that event
   * exactly as long as no more than QUEUE_LEN - count further notifies came in.
   */
  lemma SlotStaysIntactIff(n: nat, gets: nat, more: nat)
    requires gets < n <= gets + 40
    ensures gets % QUEUE_LEN < n
    ensures Newest(n + more, gets % QUEUE_LEN) == gets <==> more <= 40 - (n - gets)
  {
    var slot := gets % QUEUE_LEN;
    if more <= QUEUE_LEN - (n - gets) {
      SameResidue(Newest(n + more, slot), gets);
    } else {
      assert n + more - Newest(n + more, slot) <= QUEUE_LEN;
    }
  }
}
