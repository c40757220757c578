/**
 * The update server and the Wi-Fi state machine in one device: the access
 * point's timer asks the server for its state, and a restart of either is a
 * restart of both.
 */
module Device {
  import opened Prelude
  import Ota = OtaUpdate
  import Delivery = OtaDelivery
  import Wifi = WifiControl
  import Safety = WifiSafety
  import Journeys = WifiJourneys

  datatype Device = Device(ota: Ota.ServerState, wifi: Wifi.Wifi)

  datatype Step =
    | Upload(a: Ota.Args, p: Ota.Platform)
    | Second(encoded: bool)
    | Network(step: Wifi.Step)

  function Start(file: Wifi.ModeFile): Device {
    Device(Ota.Boot(), Wifi.Boot(file))
  }

  /** One step, and the effects it has on the Wi-Fi side. */
  function Take(d: Device, sha: Ota.Sha256, step: Step): (Device, seq<Wifi.Effect>) {
    match step
    case Upload(a, p) =>
      var o := Ota.Invoke(sha, d.ota, a, p);
      if o.effects == [Ota.Restarted] then (Start(d.wifi.file), [Wifi.Restart]) else (d.(ota := o.server), [])
    case _ => OnWifi(d, AsWifi(d, step))
  }

  /** A tick asks the upload server for its state. */
  function AsWifi(d: Device, step: Step): Wifi.Step
    requires !step.Upload?
  {
    match step
    case Second(encoded) => Wifi.Tick(d.ota.state, encoded)
    case Network(s) => if s.Tick? then Wifi.Tick(d.ota.state, s.encoded) else s
  }

  function OnWifi(d: Device, step: Wifi.Step): (Device, seq<Wifi.Effect>) {
    var o := Wifi.Take(d.wifi, step);
    (Device(if Wifi.Restart in o.effects then Ota.Boot() else d.ota, o.wifi), o.effects)
  }

  function Run(file: Wifi.ModeFile, sha: Ota.Sha256, steps: seq<Step>): Device {
    if steps == [] then Start(file)
    else Take(Run(file, sha, steps[..|steps| - 1]), sha, steps[|steps| - 1]).0
  }

  predicate AnnouncesPositiveSize(step: Step) {
    step.Upload? ==> Delivery.PositiveSize(Ota.Request(step.a, step.p))
  }

  predicate Sound(d: Device) {
    Delivery.InProgress(d.ota) && Safety.TimerOk(d.wifi)
  }

  lemma StepIsSound(d: Device, sha: Ota.Sha256, step: Step)
    requires Sound(d) && AnnouncesPositiveSize(step)
    ensures Sound(Take(d, sha, step).0)
  {
    if step.Upload? {
      Delivery.StepMakesProgress(sha, d.ota, Ota.Request(step.a, step.p));
    } else {
      Safety.TimerStep(d.wifi, AsWifi(d, step));
    }
  }

  lemma {:induction false} RunIsSound(file: Wifi.ModeFile, sha: Ota.Sha256, steps: seq<Step>)
    requires forall step <- steps :: AnnouncesPositiveSize(step)
    ensures Sound(Run(file, sha, steps))
    decreases |steps|
  {
    if steps != [] {
      var init, last := steps[..|steps| - 1], steps[|steps| - 1];
      assert forall step <- init :: step in steps;
      RunIsSound(file, sha, init);
      assert last in steps;
      StepIsSound(Run(file, sha, init), sha, last);
    }
  }

  /** A restart of either side is a restart of both, and keeps the saved mode; otherwise an upload leaves Wi-Fi alone. */
  lemma RestartsTogether(d: Device, sha: Ota.Sha256, step: Step)
    ensures var (after, effects) := Take(d, sha, step);
            && (Wifi.Restart in effects ==> after == Start(after.wifi.file))
            && (step.Upload? ==>
                  if step.a.op == Some("ota_reboot") then Wifi.Restart in effects && after.wifi.file == d.wifi.file
                  else effects == [] && after.wifi == d.wifi
                       && after.ota == Ota.Invoke(sha, d.ota, step.a, step.p).server)
            && (!step.Upload? && Wifi.Restart !in effects ==> after.ota == d.ota)
  {
    if step.Upload? {
      if step.a.op != Some("ota_reboot") {
        OnlyRebootRestarts(sha, d.ota, step.a, step.p);
      }
    } else {
      Journeys.RestartsIff(d.wifi, AsWifi(d, step));
    }
  }

  lemma OnlyRebootRestarts(sha: Ota.Sha256, s: Ota.ServerState, a: Ota.Args, p: Ota.Platform)
    requires a.op != Some("ota_reboot")
    ensures Ota.Invoke(sha, s, a, p).effects != [Ota.Restarted]
  {
    if a.op == Some("ota_begin") {
      assert Ota.Restarted !in Ota.Begin(s.(state := Ota.OTA_INITIAL, currOffset := Ota.Rewound(s)), a, p).effects;
    } else if s.state.OTA_ONGOING? && a.op == Some("ota_push") {
      assert Ota.Restarted !in Ota.Push(sha, s, a, p).effects;
    }
  }

  /**
   * In every run the access point outlives its time exactly while an upload is
   * still missing bytes and a station is connected.
   */
  lemma ApOutlivesItsTimeOnlyForAnUpload(file: Wifi.ModeFile, sha: Ota.Sha256, steps: seq<Step>, step: Step)
    requires forall s <- steps :: AnnouncesPositiveSize(s)
    ensures var d := Run(file, sha, steps);
            && (d.wifi.state == Wifi.COMMISSIONING_AP_STARTED ==> d.wifi.now - d.wifi.apStartedTs <= 900)
            && (Wifi.Postponed in Take(d, sha, step).1 <==>
                  && (step.Second? || (step.Network? && step.step.Tick?))
                  && d.wifi.state == Wifi.COMMISSIONING_AP_STARTED
                  && d.wifi.now - d.wifi.apStartedTs == 900 && d.wifi.stations > 0
                  && d.ota.state.OTA_ONGOING? && 0 <= d.ota.currOffset < d.ota.expectedSize)
  {
    RunIsSound(file, sha, steps);
    var d := Run(file, sha, steps);
    if !step.Upload? {
      Safety.PostponedIff(d.wifi, AsWifi(d, step));
    }
  }
}
