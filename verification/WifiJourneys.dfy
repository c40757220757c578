/** Where the Wi-Fi state machine gets to: each way through commissioning, scanning and the access point. */
module WifiJourneys {
  import opened Prelude
  import opened WifiControl
  import opened WifiSafety
  import Ota = OtaUpdate

  lemma {:induction false} RunJoin(w: Wifi, a: seq<Step>, b: seq<Step>)
    ensures RunFrom(w, a + b) == RunFrom(RunFrom(w, a), b)
    decreases |a|
  {
    if a == [] {
      assert a + b == b;
    } else {
      assert (a + b)[1..] == a[1..] + b;
      RunJoin(Take(w, a[0]).wifi, a[1..], b);
    }
  }

  /** A run and one more step. */
  lemma RunThen(w: Wifi, steps: seq<Step>, step: Step)
    ensures RunFrom(w, steps + [step]) == Take(RunFrom(w, steps), step).wifi
  {
    RunJoin(w, steps, [step]);
    assert [step][1..] == [];
    assert RunFrom(RunFrom(w, steps), [step]) == RunFrom(Take(RunFrom(w, steps), step).wifi, [step][1..]);
  }

  function Says(ssid: string, kind: string): Step {
    Commission(Some(ssid), Some(kind), true)
  }

  predicate InMode(w: Wifi, mode: Mode, state: WifiState) {
    GetMode(w.file) == mode && w.state == state
  }

  // ---- joining a network ----

  /** Nothing that decides the attempt to join a network. */
  predicate Undecided(step: Step) {
    && !step.Commission? && !step.DeactivateAp?
    && (step.Happens? ==> !step.event.GotIp? && !step.event.StaDisconnected? && !step.event.ApStart?)
  }

  /** While nothing decides it the attempt goes on, restarts included. */
  lemma {:induction false} KeepsTrying(w: Wifi, mode: Mode, steps: seq<Step>)
    requires mode in {STATION_FIRST_TIME, STATION_CONFIRMED} && InMode(w, mode, STA_WAIT_CONNECT)
    requires forall step <- steps :: Undecided(step)
    ensures InMode(RunFrom(w, steps), mode, STA_WAIT_CONNECT)
    decreases |steps|
  {
    if steps != [] {
      assert steps[0] in steps;
      KeepsTrying(Take(w, steps[0]).wifi, mode, steps[1..]);
    }
  }

  /**
   * Commissioned as a station, from whatever state, the device tries to join.
   * An address makes it connected and confirmed; a disconnect before that
   * sends it back to waiting for commissioning.
   */
  lemma StationIsCommissioned(w: Wifi, ssid: string, steps: seq<Step>)
    requires forall step <- steps :: Undecided(step)
    ensures var trying := RunFrom(w, [Says(ssid, "station")] + steps);
            && InMode(trying, STATION_FIRST_TIME, STA_WAIT_CONNECT)
            && InMode(Take(trying, Happens(GotIp, true)).wifi, STATION_CONFIRMED, STA_CONNECTED)
            && InMode(Take(trying, Happens(StaDisconnected, true)).wifi,
                      UNCOMMISSIONED, COMMISSIONING_AP_WAIT_ACTIVATION)
  {
    var first := [Says(ssid, "station")];
    assert first[1..] == [];
    assert RunFrom(w, first) == RunFrom(Take(w, first[0]).wifi, first[1..]);
    RunJoin(w, first, steps);
    KeepsTrying(RunFrom(w, first), STATION_FIRST_TIME, steps);
  }

  /** A confirmed network is joined again after every restart, however often the attempt fails. */
  lemma {:induction false} ConfirmedRejoins(w: Wifi, disconnects: nat, saved: bool)
    requires InMode(w, STATION_CONFIRMED, STA_WAIT_CONNECT)
    ensures var steps := seq(disconnects, _ => Happens(StaDisconnected, saved));
            RunFrom(w, steps) == w && LogFrom(w, steps) == []
    ensures InMode(Take(w, PowerCycle).wifi, STATION_CONFIRMED, STA_WAIT_CONNECT)
    ensures InMode(Take(w, Happens(GotIp, saved)).wifi, STATION_CONFIRMED, STA_CONNECTED)
    decreases disconnects
  {
    if disconnects > 0 {
      var steps := seq(disconnects, _ => Happens(StaDisconnected, saved));
      assert steps[1..] == seq(disconnects - 1, _ => Happens(StaDisconnected, saved));
      ConfirmedRejoins(w, disconnects - 1, saved);
    }
  }

  /** Once connected it stays so until a restart or a command; a lost link is not a change of state. */
  lemma LinkLossIsRidden(w: Wifi, saved: bool)
    requires w.state == STA_CONNECTED
    ensures Take(w, Happens(StaDisconnected, saved)) == Outcome(w, [])
    ensures GetMode(w.file) == STATION_CONFIRMED ==>
              InMode(Take(w, PowerCycle).wifi, STATION_CONFIRMED, STA_WAIT_CONNECT)
  {
  }

  // ---- a standalone access point ----

  predicate LeavesStandalone(step: Step) {
    || step.Commission? || step.DeactivateAp? || (step.Happens? && step.event.GotIp?)
  }

  /** Commissioned as an access point it is one, also after restarts. */
  lemma StandaloneIsCommissioned(w: Wifi, ssid: string, steps: seq<Step>)
    requires forall step <- steps :: !LeavesStandalone(step)
    ensures InMode(RunFrom(w, [Says(ssid, "access-point")] + steps), STANDALONE_AP, STANDALONE_AP_STARTED)
  {
    var first := [Says(ssid, "access-point")];
    assert first[1..] == [];
    assert RunFrom(w, first) == RunFrom(Take(w, first[0]).wifi, first[1..]);
    RunJoin(w, first, steps);
    StaysStandalone(RunFrom(w, first), steps);
  }

  lemma {:induction false} StaysStandalone(w: Wifi, steps: seq<Step>)
    requires InMode(w, STANDALONE_AP, STANDALONE_AP_STARTED)
    requires forall step <- steps :: !LeavesStandalone(step)
    ensures InMode(RunFrom(w, steps), STANDALONE_AP, STANDALONE_AP_STARTED)
    decreases |steps|
  {
    if steps != [] {
      assert steps[0] in steps;
      StaysStandalone(Take(w, steps[0]).wifi, steps[1..]);
    }
  }

  // ---- what is saved, and what restarts ----

  /** Each way the saved mode comes to be `mode`; in every other case it stays what it was. */
  predicate Saves(w: Wifi, step: Step, mode: Mode) {
    match mode
    case STATION_FIRST_TIME => step.Commission? && step.ssid.Some? && step.kind == Some("station") && step.saved
    case STANDALONE_AP => step.Commission? && step.ssid.Some? && step.kind == Some("access-point") && step.saved
    case STATION_CONFIRMED => step.Happens? && step.event.GotIp? && step.saved
    case UNCOMMISSIONED =>
      && step.Happens? && step.event.StaDisconnected? && step.saved
      && InMode(w, STATION_FIRST_TIME, STA_WAIT_CONNECT)
  }

  lemma ModeAfter(w: Wifi, step: Step, mode: Mode)
    ensures GetMode(Take(w, step).wifi.file) == mode
       <==> Saves(w, step, mode) || (GetMode(w.file) == mode && forall m: Mode :: m != mode ==> !Saves(w, step, m))
  {
    forall m: Mode | m != mode
      ensures !(Saves(w, step, mode) && Saves(w, step, m))
    {
    }
    assert Saves(w, step, UNCOMMISSIONED) || Saves(w, step, STATION_FIRST_TIME)
        || Saves(w, step, STATION_CONFIRMED) || Saves(w, step, STANDALONE_AP)
        || GetMode(Take(w, step).wifi.file) == GetMode(w.file);
  }

  /** A step restarts the device in these cases and no others, and then starts from the saved mode. */
  lemma RestartsIff(w: Wifi, step: Step)
    ensures Restart in Take(w, step).effects
       <==> || step.PowerCycle?
            || (step.Commission? && step.ssid.Some? && step.kind in {None, Some("station"), Some("access-point")})
            || (step.Happens? && step.event.StaDisconnected? && InMode(w, STATION_FIRST_TIME, STA_WAIT_CONNECT))
            || (step.ListNetworks? && GetMode(w.file) !in {UNCOMMISSIONED, STANDALONE_AP}
                && w.scanRpcId == 0 && !step.scanStarts)
    ensures Restart in Take(w, step).effects ==> Take(w, step).wifi == Boot(Take(w, step).wifi.file)
    ensures step.Commission? && Restart !in Take(w, step).effects ==> Take(w, step) == Outcome(w, [])
  {
  }

  // ---- the commissioning access point ----

  /**
   * Waiting for activation, or deactivated, the access point comes up when it
   * is activated: no stations counted and its timer fresh. It cannot come up
   * as a commissioning access point in any other state.
   */
  lemma ActivatedApComesUp(w: Wifi, saved: bool)
    ensures var up := RunFrom(w, [DeactivateAp, ActivateAp, Happens(ApStart, saved)]);
            up.state == COMMISSIONING_AP_STARTED && up.stations == 0 && up.apStartedTs == up.now == w.now
    ensures w.state == COMMISSIONING_AP_WAIT_ACTIVATION ==>
              RunFrom(w, [ActivateAp, Happens(ApStart, saved)]) == RunFrom(w, [DeactivateAp, ActivateAp, Happens(ApStart, saved)])
    ensures w.state != COMMISSIONING_AP_WAIT_ACTIVATION ==>
              RunFrom(w, [ActivateAp, Happens(ApStart, saved)]) == w.(state := STANDALONE_AP_STARTED)
  {
    var two, three := [ActivateAp, Happens(ApStart, saved)], [DeactivateAp, ActivateAp, Happens(ApStart, saved)];
    var off := Take(w, DeactivateAp).wifi;
    assert three[1..] == two;
    RunTwo(off, ActivateAp, Happens(ApStart, saved));
    RunTwo(w, ActivateAp, Happens(ApStart, saved));
  }

  lemma RunTwo(w: Wifi, a: Step, b: Step)
    ensures RunFrom(w, [a, b]) == Take(Take(w, a).wifi, b).wifi
  {
    assert [a, b] == [a] + [b] && [a][1..] == [];
    assert RunFrom(w, [a]) == RunFrom(Take(w, a).wifi, [a][1..]);
    RunThen(w, [a], b);
  }

  /** A station coming in starts the time over, and so does a postponement. */
  lemma TimerStartsOver(w: Wifi, step: Step)
    requires (step.Happens? && step.event.ApStaConnected?) || Postponed in Take(w, step).effects
    ensures Take(w, step).wifi.apStartedTs == Take(w, step).wifi.now && Take(w, step).wifi.state == w.state
  {
  }

  /** Stations that came in less those that left, since the last restart or activation. */
  function Stations(count: int, w: Wifi, steps: seq<Step>): int
    decreases |steps|
  {
    if steps == [] then count else Stations(CountStation(count, w, steps[0]), Take(w, steps[0]).wifi, steps[1..])
  }

  function CountStation(count: int, w: Wifi, step: Step): int {
    if Restart in Take(w, step).effects || (step.ActivateAp? && w.state == COMMISSIONING_AP_WAIT_ACTIVATION) then 0
    else if step.Happens? && step.event.ApStaConnected? then count + 1
    else if step.Happens? && step.event.ApStaDisconnected? then count - 1
    else count
  }

  lemma {:induction false} StationsAreCounted(w: Wifi, steps: seq<Step>)
    ensures RunFrom(w, steps).stations == Stations(w.stations, w, steps)
    decreases |steps|
  {
    if steps != [] {
      StationIsCounted(w, steps[0]);
      StationsAreCounted(Take(w, steps[0]).wifi, steps[1..]);
    }
  }

  lemma StationIsCounted(w: Wifi, step: Step)
    ensures Take(w, step).wifi.stations == CountStation(w.stations, w, step)
  {
  }

  // ---- listing networks ----

  /** In every run: what happens to a request for the list, told by the requests and answers so far. */
  lemma RequestDecides(file: ModeFile, steps: seq<Step>, id: int, encoded: bool, scanStarts: bool)
    requires AllExpected(Boot(file), steps)
    ensures var w := RunFrom(Boot(file), steps);
            var t := Count(Tally([], []), LogFrom(Boot(file), steps));
            var effects := Take(w, ListNetworks(id, encoded, scanStarts)).effects;
            if GetMode(w.file) in {UNCOMMISSIONED, STANDALONE_AP}
            then effects == [ListAccepted(id)] + if encoded then [ListAnswered(id)] else []
            else if |t.accepted| > |t.answered| then effects == [ListRefused(id)]
            else effects == [if scanStarts then ListAccepted(id) else Restart]
  {
    AnswersMatchRequests(file, steps);
  }

  /** Ticks, and stations of no concern, between a request and the end of its scan. */
  predicate Idle(step: Step) {
    step.Tick? || (step.Happens? && step.event in {StaStart, ApStaConnected, ApStaDisconnected})
  }

  /** A request made while connected is answered by the first tick after its scan, with its own id. */
  lemma ScanIsAnswered(w: Wifi, id: int, idle: seq<Step>, ota: Ota.OtaState, saved: bool)
    requires InMode(w, STATION_CONFIRMED, STA_CONNECTED) && w.scanRpcId == 0
    requires forall step <- idle :: Idle(step)
    ensures var asked := Take(w, ListNetworks(id, true, true));
            var scanned := Take(RunFrom(asked.wifi, idle), Happens(ScanDone, saved));
            var answered := Take(scanned.wifi, Tick(ota, true));
            && asked.effects == [ListAccepted(id)] && LogFrom(asked.wifi, idle) == [] && scanned.effects == []
            && answered.effects == [ListAnswered(id)] && answered.wifi.scanRpcId == 0
            && Take(answered.wifi, Tick(ota, true)).effects == []
  {
    IdleWaits(Take(w, ListNetworks(id, true, true)).wifi, idle);
  }

  lemma {:induction false} IdleWaits(w: Wifi, idle: seq<Step>)
    requires w.state == STA_CONNECTED && !w.scanDoneBit && forall step <- idle :: Idle(step)
    ensures var end := RunFrom(w, idle);
            && end.state == STA_CONNECTED && !end.scanDoneBit && end.scanRpcId == w.scanRpcId
            && LogFrom(w, idle) == []
    decreases |idle|
  {
    if idle != [] {
      assert idle[0] in idle;
      IdleWaits(Take(w, idle[0]).wifi, idle[1..]);
    }
  }
}
