/** What the Wi-Fi state machine keeps over whole runs, across restarts. */
module WifiSafety {
  import opened Prelude
  import opened WifiControl
  import Ota = OtaUpdate

  lemma RunOneMore(w: Wifi, steps: seq<Step>, k: nat)
    requires steps != [] && k < |steps|
    ensures RunFrom(w, steps[..k + 1]) == RunFrom(Take(w, steps[0]).wifi, steps[1..][..k])
  {
    assert steps[..k + 1][1..] == steps[1..][..k];
  }

  // ---- the saved mode ----

  /** The invoke that stores a new network configuration. */
  predicate StoresMode(step: Step) {
    step.Commission? && step.ssid.Some? && step.saved && step.kind in {Some("station"), Some("access-point")}
  }

  /** A confirmed network is given up by a commissioning invoke that stores a mode, and by nothing else. */
  lemma ConfirmedLostIff(w: Wifi, step: Step)
    requires GetMode(w.file) == STATION_CONFIRMED
    ensures GetMode(Take(w, step).wifi.file) != STATION_CONFIRMED <==> StoresMode(step)
  {
  }

  lemma {:induction false} ConfirmedNeverLost(w: Wifi, steps: seq<Step>)
    requires GetMode(w.file) == STATION_CONFIRMED
    requires forall step <- steps :: !StoresMode(step)
    ensures GetMode(RunFrom(w, steps).file) == STATION_CONFIRMED
    decreases |steps|
  {
    if steps != [] {
      assert steps[0] in steps;
      ConfirmedLostIff(w, steps[0]);
      ConfirmedNeverLost(Take(w, steps[0]).wifi, steps[1..]);
    }
  }

  /** The two ways out of the first attempt to join a network. */
  predicate FirstTimeEnds(w: Wifi, step: Step) {
    && GetMode(w.file) == STATION_FIRST_TIME && step.Happens?
    && var after := GetMode(Take(w, step).wifi.file);
       || (step.event.GotIp? && after == STATION_CONFIRMED)
       || (step.event.StaDisconnected? && w.state == STA_WAIT_CONNECT && after == UNCOMMISSIONED)
  }

  lemma {:induction false} FirstTimeLeftOnlyBy(w: Wifi, steps: seq<Step>)
    requires GetMode(w.file) == STATION_FIRST_TIME
    requires forall step <- steps :: !StoresMode(step)
    requires GetMode(RunFrom(w, steps).file) != STATION_FIRST_TIME
    ensures exists k :: 0 <= k < |steps| && FirstTimeEnds(RunFrom(w, steps[..k]), steps[k])
    decreases |steps|
  {
    assert steps[0] in steps;
    var next := Take(w, steps[0]).wifi;
    if GetMode(next.file) != STATION_FIRST_TIME {
      assert FirstTimeEnds(RunFrom(w, steps[..0]), steps[0]);
    } else {
      FirstTimeLeftOnlyBy(next, steps[1..]);
      var k :| 0 <= k < |steps[1..]| && FirstTimeEnds(RunFrom(next, steps[1..][..k]), steps[1..][k]);
      RunOneMore(w, steps, k);
      assert FirstTimeEnds(RunFrom(w, steps[..k + 1]), steps[k + 1]);
    }
  }

  predicate ConnectedMeansConfirmed(w: Wifi) {
    w.state == STA_CONNECTED ==> GetMode(w.file) == STATION_CONFIRMED
  }

  /** It takes a save that fails while an address arrives to be connected and not confirmed. */
  lemma ConnectedMeansConfirmedIff(w: Wifi, step: Step)
    requires ConnectedMeansConfirmed(w)
    ensures ConnectedMeansConfirmed(Take(w, step).wifi)
       <==> !(step.Happens? && step.event.GotIp? && !step.saved && GetMode(w.file) != STATION_CONFIRMED)
  {
  }

  lemma {:induction false} ConnectedIsConfirmed(w: Wifi, steps: seq<Step>)
    requires ConnectedMeansConfirmed(w)
    requires forall step <- steps :: step.Happens? && step.event.GotIp? ==> step.saved
    ensures ConnectedMeansConfirmed(RunFrom(w, steps))
    decreases |steps|
  {
    if steps != [] {
      assert steps[0] in steps;
      ConnectedMeansConfirmedIff(w, steps[0]);
      ConnectedIsConfirmed(Take(w, steps[0]).wifi, steps[1..]);
    }
  }

  // ---- the commissioning access point's timer ----

  predicate TimerOk(w: Wifi) {
    && 0 <= w.apStartedTs <= w.now
    && (w.state == COMMISSIONING_AP_STARTED ==> w.now - w.apStartedTs <= 900)
  }

  lemma TimerStep(w: Wifi, step: Step)
    requires TimerOk(w)
    ensures TimerOk(Take(w, step).wifi)
  {
  }

  lemma {:induction false} ApNeverOverstays(w: Wifi, steps: seq<Step>)
    requires TimerOk(w)
    ensures TimerOk(RunFrom(w, steps))
    decreases |steps|
  {
    if steps != [] {
      TimerStep(w, steps[0]);
      ApNeverOverstays(Take(w, steps[0]).wifi, steps[1..]);
    }
  }

  /** The access point is up all through these steps and nothing restarts its timer. */
  ghost predicate UpUndisturbed(w: Wifi, steps: seq<Step>)
    decreases |steps|
  {
    && w.state == COMMISSIONING_AP_STARTED
    && (steps != [] ==>
          && !(steps[0].Happens? && (steps[0].event.ApStart? || steps[0].event.ApStaConnected?))
          && Postponed !in Take(w, steps[0]).effects
          && UpUndisturbed(Take(w, steps[0]).wifi, steps[1..]))
  }

  function Ticks(steps: seq<Step>): nat
    decreases |steps|
  {
    if steps == [] then 0 else (if steps[0].Tick? then 1 else 0) + Ticks(steps[1..])
  }

  /** So it does not stay up for a 901st tick after its timer was last set. */
  lemma {:induction false} UpForAtMost900Ticks(w: Wifi, steps: seq<Step>)
    requires TimerOk(w) && UpUndisturbed(w, steps)
    ensures w.now - w.apStartedTs + Ticks(steps) <= 900
    decreases |steps|
  {
    if steps != [] {
      var next := Take(w, steps[0]).wifi;
      TimerStep(w, steps[0]);
      assert next.apStartedTs == w.apStartedTs;
      UpForAtMost900Ticks(next, steps[1..]);
    }
  }

  /** Left alone it is up for exactly the allowed ticks and stopped by the next one. */
  lemma {:induction false} IdleApStopsExactly(w: Wifi, ota: Ota.OtaState, n: nat)
    requires TimerOk(w) && w.state == COMMISSIONING_AP_STARTED
    requires w.stations <= 0 || !ota.OTA_ONGOING?
    requires n <= 900 + 1 - (w.now - w.apStartedTs)
    ensures var ticks := seq(n, _ => Tick(ota, true));
            var end := RunFrom(w, ticks).state;
            if n <= 900 - (w.now - w.apStartedTs)
            then end == COMMISSIONING_AP_STARTED && LogFrom(w, ticks) == []
            else end == COMMISSIONING_AP_WAIT_ACTIVATION && LogFrom(w, ticks) == [ApStopped]
    decreases n
  {
    if n > 0 {
      var ticks := seq(n, _ => Tick(ota, true));
      var next := Take(w, ticks[0]);
      assert ticks[1..] == seq(n - 1, _ => Tick(ota, true));
      if next.wifi.state == COMMISSIONING_AP_STARTED {
        IdleApStopsExactly(next.wifi, ota, n - 1);
      } else {
        assert n == 1 && ticks[1..] == [];
      }
    }
  }

  /** The shutdown is put off exactly when it is due while stations are connected and an upload runs. */
  lemma PostponedIff(w: Wifi, step: Step)
    ensures Postponed in Take(w, step).effects
       <==> && step.Tick? && w.state == COMMISSIONING_AP_STARTED && w.now - w.apStartedTs >= 900
            && w.stations > 0 && step.ota.OTA_ONGOING?
  {
  }

  // ---- the slot for a pending list request ----

  /** Ids of the list requests accepted and of the answers sent since the last restart. */
  datatype Tally = Tally(accepted: seq<int>, answered: seq<int>)

  function CountOne(t: Tally, e: Effect): Tally {
    match e
    case ListAccepted(id) => t.(accepted := t.accepted + [id])
    case ListAnswered(id) => t.(answered := t.answered + [id])
    case Restart => Tally([], [])
    case _ => t
  }

  function Count(t: Tally, log: seq<Effect>): Tally
    decreases |log|
  {
    if log == [] then t else Count(CountOne(t, log[0]), log[1..])
  }

  lemma {:induction false} CountJoin(t: Tally, a: seq<Effect>, b: seq<Effect>)
    ensures Count(t, a + b) == Count(Count(t, a), b)
    decreases |a|
  {
    if a == [] {
      assert a + b == b;
    } else {
      assert (a + b)[1..] == a[1..] + b;
      CountJoin(CountOne(t, a[0]), a[1..], b);
    }
  }

  /**
   * What the slot relies on: a scan is reported at most once, request ids are
   * not zero, and the list that an access point sends at once can be encoded.
   */
  predicate Expected(w: Wifi, step: Step) {
    && (step.Happens? && step.event.ScanDone? ==> w.scansInFlight > 0)
    && (step.ListNetworks? ==> step.id != 0)
    && (step.ListNetworks? && GetMode(w.file) in {UNCOMMISSIONED, STANDALONE_AP} ==> step.encoded)
  }

  ghost predicate AllExpected(w: Wifi, steps: seq<Step>)
    decreases |steps|
  {
    steps != [] ==> Expected(w, steps[0]) && AllExpected(Take(w, steps[0]).wifi, steps[1..])
  }

  function Outstanding(w: Wifi): seq<int> {
    if w.scanRpcId != 0 then [w.scanRpcId] else []
  }

  predicate SlotOk(w: Wifi, t: Tally) {
    var results := w.scansInFlight + (if w.scanDoneBit then 1 else 0);
    && t.accepted == t.answered + Outstanding(w)
    && results <= 1 && (results == 1 ==> w.scanRpcId != 0)
    && (GetMode(w.file) in {UNCOMMISSIONED, STANDALONE_AP} ==> results == 0 && w.scanRpcId == 0)
  }

  /** Every start, whatever mode is saved, begins with all of these invariants in place. */
  lemma BootIsSafe(file: ModeFile)
    ensures ConnectedMeansConfirmed(Boot(file)) && TimerOk(Boot(file)) && SlotOk(Boot(file), Tally([], []))
    ensures file.None? ==> GetMode(file) == UNCOMMISSIONED && Boot(file).state == COMMISSIONING_AP_WAIT_ACTIVATION
  {
  }

  lemma SlotStep(w: Wifi, t: Tally, step: Step)
    requires SlotOk(w, t) && Expected(w, step)
    ensures SlotOk(Take(w, step).wifi, Count(t, Take(w, step).effects))
  {
    var effects := Take(w, step).effects;
    assert t.answered + [] == t.answered;
    if |effects| == 1 {
      assert effects[1..] == [];
    } else if |effects| == 2 {
      assert effects == [ListAccepted(step.id), ListAnswered(step.id)];
      var t1 := t.(accepted := t.accepted + [step.id]);
      assert Count(t, effects) == Count(t1, [ListAnswered(step.id)]);
      assert Count(t1, [ListAnswered(step.id)]) == CountOne(t1, ListAnswered(step.id));
      assert t.accepted == t.answered;
      assert Take(w, step).wifi.scanRpcId == 0;
      assert t.answered + [step.id] == (t.answered + [step.id]) + [];
    } else {
      assert effects == [];
    }
  }

  lemma {:induction false} SlotRun(w: Wifi, t: Tally, steps: seq<Step>)
    requires SlotOk(w, t) && AllExpected(w, steps)
    ensures SlotOk(RunFrom(w, steps), Count(t, LogFrom(w, steps)))
    decreases |steps|
  {
    if steps != [] {
      var o := Take(w, steps[0]);
      SlotStep(w, t, steps[0]);
      SlotRun(o.wifi, Count(t, o.effects), steps[1..]);
      CountJoin(t, o.effects, LogFrom(o.wifi, steps[1..]));
    }
  }

  /**
   * From any start: since the last restart the answers carry, in order, the ids
   * of the accepted requests, all of them but the one in the slot; and scan
   * results are only ever waiting for a request that is.
   */
  lemma AnswersMatchRequests(file: ModeFile, steps: seq<Step>)
    requires AllExpected(Boot(file), steps)
    ensures var w := RunFrom(Boot(file), steps);
            var t := Count(Tally([], []), LogFrom(Boot(file), steps));
            && t.accepted == t.answered + Outstanding(w)
            && (w.scanDoneBit ==> w.scanRpcId != 0)
  {
    BootIsSafe(file);
    SlotRun(Boot(file), Tally([], []), steps);
  }
}
