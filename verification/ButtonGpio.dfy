/** Debouncing a button from time-stamped edges, with short and long presses. */
module ButtonGpio {
  import opened TimeHelper

  datatype GpioEvent = GpioEvent(state: bool, tval: Time)

  datatype Callback = NewState(pressed: bool) | ShortPress | LongPress

  /** The module's variables, with the last edge as a point in time. */
  datatype Button = Button(current: bool, raw: bool, lastEdge: int, longHandled: bool, shortHandled: bool)

  function Initial(): Button {
    Button(false, false, 0, true, true)
  }

  function Drained(b: Button, edges: seq<GpioEvent>): Button {
    if edges == [] then b
    else var e := edges[|edges| - 1]; b.(raw := e.state, lastEdge := e.tval.Micros())
  }

  /** One call: drain the queue, then debounce, then report presses. */
  function Process(b: Button, edges: seq<GpioEvent>, now: int): (Button, seq<Callback>) {
    var b1 := Drained(b, edges);
    var elapsed := now - b1.lastEdge;
    var changed := b1.raw != b1.current && elapsed > 200000;
    var b2 := if changed then b1.(current := b1.raw, longHandled := false, shortHandled := false) else b1;
    var short := !b2.current && !b2.shortHandled && 200000 < elapsed < 2000000;
    var long := b2.current && elapsed > 10000000 && !b2.longHandled;
    (if long then b2.(longHandled := true) else b2,
     (if changed then [NewState(b2.current)] else [])
     + (if short then [ShortPress] else []) + (if long then [LongPress] else []))
  }

  class ButtonInput {
    var currentButtonState: bool
    var rawButtonState: bool
    var prevButtonEvTs: Timeval
    var longPressHandled: bool
    var shortPressHandled: bool

    ghost function View(): Button
      reads this, prevButtonEvTs
    {
      Button(currentButtonState, rawButtonState, prevButtonEvTs.Value().Micros(),
             longPressHandled, shortPressHandled)
    }

    constructor ()
      ensures View() == Initial() && fresh(prevButtonEvTs)
    {
      currentButtonState, rawButtonState := false, false;
      longPressHandled, shortPressHandled := true, true;
      prevButtonEvTs := new Timeval(0, 0);
    }

    /**
     * The time stamp of the last edge is the subtrahend that every call
     * rewrites in place; the outcome is as if it were never touched.
     */
    method ProcessEvents(queue: seq<GpioEvent>, currTs: Timeval) returns (callbacks: seq<Callback>)
      requires currTs != prevButtonEvTs
      modifies this, prevButtonEvTs
      ensures prevButtonEvTs == old(prevButtonEvTs)
      ensures (View(), callbacks) == Process(old(View()), queue, currTs.Value().Micros())
    {
      callbacks := [];
      DrainQueue(queue);
      var tsDiff := new Timeval(0, 0);
      var timeDifference := TimevalSubtract(tsDiff, currTs, prevButtonEvTs);
      ghost var elapsed := tsDiff.Value().Micros();
      assert elapsed == currTs.Value().Micros() - View().lastEdge;
      Thresholds(elapsed, timeDifference);
      if rawButtonState != currentButtonState && timeDifference > 0.2 {
        currentButtonState := rawButtonState;
        callbacks := callbacks + [NewState(currentButtonState)];
        longPressHandled := false;
        shortPressHandled := false;
      }
      if !currentButtonState && !shortPressHandled && timeDifference > 0.2 && timeDifference < 2.0 {
        callbacks := callbacks + [ShortPress];
      }
      if currentButtonState && timeDifference > 10.0 && !longPressHandled {
        longPressHandled := true;
        callbacks := callbacks + [LongPress];
      }
      ghost var (after, expected) := Process(old(View()), queue, currTs.Value().Micros());
      assert View() == after;
      assert callbacks == expected;
    }

    method DrainQueue(queue: seq<GpioEvent>)
      modifies this`rawButtonState, prevButtonEvTs
      ensures View() == Drained(old(View()), queue)
    {
      var k := 0;
      while k < |queue|
        invariant 0 <= k <= |queue|
        invariant View() == Drained(old(View()), queue[..k])
      {
        var ev := queue[k];
        prevButtonEvTs.sec, prevButtonEvTs.usec := ev.tval.sec, ev.tval.usec;
        rawButtonState := ev.state;
        k := k + 1;
      }
      assert queue[..|queue|] == queue;
    }
  }

  lemma Thresholds(micros: int, seconds: real)
    requires seconds == micros as real / 1000000.0
    ensures seconds > 0.2 <==> micros > 200000
    ensures seconds < 2.0 <==> micros < 2000000
    ensures seconds > 10.0 <==> micros > 10000000
  {
  }

  // ---- runs ----

  datatype Call = Call(edges: seq<GpioEvent>, now: int)

  /** A callback with the time, the last consumed edge and the level that edge left. */
  datatype Stamped = Stamped(callback: Callback, now: int, lastEdge: int, raw: bool)

  function Stamp(callbacks: seq<Callback>, b: Button, now: int): seq<Stamped> {
    if callbacks == [] then []
    else Stamp(callbacks[..|callbacks| - 1], b, now)
         + [Stamped(callbacks[|callbacks| - 1], now, b.lastEdge, b.raw)]
  }

  datatype History = History(button: Button, log: seq<Stamped>)

  function Run(calls: seq<Call>): History {
    if calls == [] then History(Initial(), [])
    else
      var before := Run(calls[..|calls| - 1]);
      var call := calls[|calls| - 1];
      var (after, callbacks) := Process(before.button, call.edges, call.now);
      History(after, before.log + Stamp(callbacks, after, call.now))
  }

  /**
   * Read off the callbacks: the debounced level, whether this press was
   * reported as long, and whether any level was reported at all.
   */
  datatype Phase = Phase(pressed: bool, longSeen: bool, used: bool)

  function Advance(p: Phase, s: Stamped): Phase {
    match s.callback
    case NewState(pressed) => Phase(pressed, false, true)
    case LongPress => p.(longSeen := true)
    case ShortPress => p
  }

  function PhaseOf(log: seq<Stamped>): Phase {
    if log == [] then Phase(false, false, false) else Advance(PhaseOf(log[..|log| - 1]), log[|log| - 1])
  }

  /** The callback is due: a level change after 0.2 s without an edge, or the first long press after 10 s. */
  predicate Due(p: Phase, s: Stamped) {
    match s.callback
    case NewState(pressed) => pressed != p.pressed && pressed == s.raw && s.now - s.lastEdge > 200000
    case LongPress => p.pressed && s.raw && !p.longSeen && s.now - s.lastEdge > 10000000
    case ShortPress => !p.pressed && p.used && 200000 < s.now - s.lastEdge < 2000000
  }

  ghost predicate AllDue(log: seq<Stamped>) {
    forall k :: 0 <= k < |log| ==> Due(PhaseOf(log[..k]), log[k])
  }

  predicate InPhase(b: Button, p: Phase) {
    b.current == p.pressed && (b.current ==> b.longHandled == p.longSeen) && b.shortHandled == !p.used
  }

  /** Every edge the calls consumed. */
  function Edges(calls: seq<Call>): seq<GpioEvent> {
    if calls == [] then [] else Edges(calls[..|calls| - 1]) + calls[|calls| - 1].edges
  }

  /** The last one; before the first the button counts as released since time zero. */
  function LastEdge(calls: seq<Call>): GpioEvent {
    var edges := Edges(calls);
    if edges == [] then GpioEvent(false, Time(0, 0)) else edges[|edges| - 1]
  }

  lemma {:induction false} LastEdgeIsKept(calls: seq<Call>)
    ensures Run(calls).button.raw == LastEdge(calls).state
    ensures Run(calls).button.lastEdge == LastEdge(calls).tval.Micros()
    decreases |calls|
  {
    if calls != [] {
      LastEdgeIsKept(calls[..|calls| - 1]);
    }
  }

  /** The level left by the last edge is reported when it is new and has lasted for more than 0.2 s. */
  predicate LevelDue(p: Phase, level: bool, quiet: int) {
    level != p.pressed && quiet > 200000
  }

  /** The debounced level with the reports up to and including a change of level in this call. */
  function Settled(p: Phase, level: bool, quiet: int): Phase {
    if LevelDue(p, level, quiet) then Phase(level, false, true) else p
  }

  predicate ShortDue(settled: Phase, quiet: int) {
    !settled.pressed && settled.used && 200000 < quiet < 2000000
  }

  predicate LongDue(settled: Phase, quiet: int) {
    settled.pressed && !settled.longSeen && quiet > 10000000
  }

  /**
   * In every run a call makes exactly the callbacks that are due: a new level,
   * a short press while released for a time, and the first long press after
   * more than 10 s.
   */
  lemma DueCallbacksAreMade(calls: seq<Call>, call: Call)
    ensures var p := PhaseOf(Run(calls).log);
            var edge := LastEdge(calls + [call]);
            var quiet := call.now - edge.tval.Micros();
            var settled := Settled(p, edge.state, quiet);
            var made := Process(Run(calls).button, call.edges, call.now).1;
            made == (if LevelDue(p, edge.state, quiet) then [NewState(edge.state)] else [])
                    + (if ShortDue(settled, quiet) then [ShortPress] else [])
                    + (if LongDue(settled, quiet) then [LongPress] else [])
  {
    CallbacksAreDue(calls);
    DrainedToLast(calls, call);
  }

  lemma DrainedToLast(calls: seq<Call>, call: Call)
    ensures var b := Drained(Run(calls).button, call.edges);
            b.raw == LastEdge(calls + [call]).state && b.lastEdge == LastEdge(calls + [call]).tval.Micros()
  {
    LastEdgeIsKept(calls);
    assert (calls + [call])[..|calls|] == calls;
  }

  lemma AppendDue(log: seq<Stamped>, s: Stamped)
    requires AllDue(log) && Due(PhaseOf(log), s)
    ensures AllDue(log + [s]) && PhaseOf(log + [s]) == Advance(PhaseOf(log), s)
  {
    assert (log + [s])[..|log|] == log;
    assert forall k :: 0 <= k < |log| ==> (log + [s])[..k] == log[..k];
  }

  /** Every callback of every run is due when it is made. */
  lemma {:induction false} CallbacksAreDue(calls: seq<Call>)
    ensures AllDue(Run(calls).log) && InPhase(Run(calls).button, PhaseOf(Run(calls).log))
    decreases |calls|
  {
    if calls != [] {
      CallbacksAreDue(calls[..|calls| - 1]);
      var before, call := Run(calls[..|calls| - 1]), calls[|calls| - 1];
      var (after, callbacks) := Process(before.button, call.edges, call.now);
      CallIsDue(before.button, before.log, call);
    }
  }

  lemma CallIsDue(b: Button, log: seq<Stamped>, call: Call)
    requires AllDue(log) && InPhase(b, PhaseOf(log))
    ensures var (after, callbacks) := Process(b, call.edges, call.now);
            var log' := log + Stamp(callbacks, after, call.now);
            AllDue(log') && InPhase(after, PhaseOf(log'))
  {
    var (after, callbacks) := Process(b, call.edges, call.now);
    CallbacksOfOneCall(b, PhaseOf(log), call);
    if |callbacks| == 0 {
      assert log + Stamp(callbacks, after, call.now) == log;
    } else {
      var first := Stamped(callbacks[0], call.now, after.lastEdge, after.raw);
      StampUpToTwo(callbacks, after, call.now);
      var stamps := Stamp(callbacks, after, call.now);
      AppendDue(log, first);
      if |callbacks| == 2 {
        assert log + stamps == log + [first] + [stamps[1]];
        AppendDue(log + [first], stamps[1]);
      }
    }
  }

  /** At most two callbacks, each due after the one before. */
  lemma CallbacksOfOneCall(b: Button, p: Phase, call: Call)
    requires InPhase(b, p)
    ensures var (after, callbacks) := Process(b, call.edges, call.now);
            && |callbacks| <= 2
            && (|callbacks| == 0 ==> InPhase(after, p))
            && (|callbacks| > 0 ==>
                  var first := Stamped(callbacks[0], call.now, after.lastEdge, after.raw);
                  var p1 := Advance(p, first);
                  && Due(p, first)
                  && (|callbacks| == 1 ==> InPhase(after, p1))
                  && (|callbacks| == 2 ==>
                        var second := Stamped(callbacks[1], call.now, after.lastEdge, after.raw);
                        Due(p1, second) && InPhase(after, Advance(p1, second))))
  {
  }

  lemma StampUpToTwo(callbacks: seq<Callback>, b: Button, now: int)
    requires 1 <= |callbacks| <= 2
    ensures var stamps := Stamp(callbacks, b, now);
            && |stamps| == |callbacks|
            && stamps[0] == Stamped(callbacks[0], now, b.lastEdge, b.raw)
            && (|callbacks| == 2 ==> stamps == [stamps[0], Stamped(callbacks[1], now, b.lastEdge, b.raw)])
            && (|callbacks| == 1 ==> stamps == [stamps[0]])
  {
    assert callbacks[..1] == [callbacks[0]] && callbacks[..1][..0] == [] && callbacks[..0] == [];
    assert Stamp(callbacks[..1], b, now) == [Stamped(callbacks[0], now, b.lastEdge, b.raw)];
  }

  /** The level changes reported, in order. */
  function Levels(log: seq<Stamped>): seq<bool> {
    if log == [] then []
    else Levels(log[..|log| - 1])
         + match log[|log| - 1].callback case NewState(pressed) => [pressed] case _ => []
  }

  /** They strictly alternate, and the first is a press. */
  lemma {:induction false} LevelsAlternate(log: seq<Stamped>)
    requires AllDue(log)
    ensures forall i :: 0 <= i < |Levels(log)| ==> (Levels(log)[i] <==> i % 2 == 0)
    ensures PhaseOf(log).pressed <==> |Levels(log)| % 2 == 1
    decreases |log|
  {
    if log != [] {
      var init := log[..|log| - 1];
      assert forall k :: 0 <= k < |init| ==> init[..k] == log[..k];
      LevelsAlternate(init);
      assert Due(PhaseOf(init), log[|log| - 1]);
    }
  }

  /** Between two long presses the button was reported released. */
  lemma OneLongPressPerPress(log: seq<Stamped>, j: nat, k: nat)
    requires AllDue(log) && j < k < |log|
    requires log[j].callback == LongPress && log[k].callback == LongPress
    ensures exists m :: j < m < k && log[m].callback == NewState(false)
  {
    assert Due(PhaseOf(log[..k]), log[k]);
    if forall m :: j < m < k ==> log[m].callback != NewState(false) {
      StillLong(log, j, k);
    }
  }

  lemma {:induction false} StillLong(log: seq<Stamped>, j: nat, k: nat)
    requires AllDue(log) && j < k <= |log| && log[j].callback == LongPress
    requires forall m :: j < m < k ==> log[m].callback != NewState(false)
    ensures PhaseOf(log[..k]).pressed && PhaseOf(log[..k]).longSeen
    decreases k
  {
    assert log[..k][..k - 1] == log[..k - 1];
    assert Due(PhaseOf(log[..k - 1]), log[k - 1]);
    if k > j + 1 {
      StillLong(log, j, k - 1);
    }
  }
}
