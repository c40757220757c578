/**
 * Wi-Fi commissioning: the volatile state machine, the mode that is saved in a
 * file and survives restarts, the timer of the commissioning access point, and
 * the single slot for a pending "list the networks" request.
 *
 * Every event, tick and invoke is one atomic step; saving a mode and then
 * restarting belongs to one step too. A failed ESP_ERROR_CHECK is a restart.
 */
module WifiControl {
  import opened Prelude
  import Ota = OtaUpdate

  const AP_ACTIVE_TIME: int := 15 * 60

  datatype Mode = UNCOMMISSIONED | STATION_FIRST_TIME | STATION_CONFIRMED | STANDALONE_AP

  datatype WifiState =
    | COMMISSIONING_AP_WAIT_ACTIVATION | COMMISSIONING_AP_STARTED
    | STA_WAIT_CONNECT | STA_CONNECTED | STA_DISCONNECTED
    | STANDALONE_AP_STARTED

  /** The mode file: None when it is missing or holds no integer. */
  type ModeFile = Option<Mode>

  /** `scansInFlight` counts the started scans whose SCAN_DONE is still to come. */
  datatype Wifi = Wifi(
    file: ModeFile, state: WifiState, apStartedTs: int, stations: int, now: int,
    scanDoneBit: bool, scanRpcId: int, scansInFlight: nat)

  datatype Effect =
    | ListAccepted(id: int)
    | ListAnswered(id: int)
    | ListRefused(id: int)
    | Postponed
    | ApStopped
    | Restart

  datatype Outcome = Outcome(wifi: Wifi, effects: seq<Effect>)

  datatype Event = StaStart | GotIp | StaDisconnected | ApStart | ApStaConnected | ApStaDisconnected | ScanDone

  datatype Step =
    | Happens(event: Event, saved: bool)
    | Tick(ota: Ota.OtaState, encoded: bool)
    | ActivateAp
    | DeactivateAp
    | ListNetworks(id: int, encoded: bool, scanStarts: bool)
    | Commission(ssid: Option<string>, kind: Option<string>, saved: bool)
    | PowerCycle

  function GetMode(file: ModeFile): Mode {
    if file.None? then UNCOMMISSIONED else file.value
  }

  /** A save that fails leaves the file as it was. */
  function Save(file: ModeFile, mode: Mode, saved: bool): ModeFile {
    if saved then Some(mode) else file
  }

  /** The state the firmware starts in, given the saved mode. */
  function Boot(file: ModeFile): Wifi {
    var state := match GetMode(file)
      case UNCOMMISSIONED => COMMISSIONING_AP_WAIT_ACTIVATION
      case STATION_FIRST_TIME => STA_WAIT_CONNECT
      case STATION_CONFIRMED => STA_WAIT_CONNECT
      case STANDALONE_AP => STANDALONE_AP_STARTED;
    Wifi(file, state, 0, 0, 0, false, 0, 0)
  }

  function Quiet(w: Wifi): Outcome {
    Outcome(w, [])
  }

  function Reboot(file: ModeFile): Outcome {
    Outcome(Boot(file), [Restart])
  }

  function OnEvent(w: Wifi, e: Event, saved: bool): Outcome {
    match e
    case StaStart => Quiet(w)
    case GotIp =>
      var file := if GetMode(w.file) == STATION_CONFIRMED then w.file else Save(w.file, STATION_CONFIRMED, saved);
      Quiet(w.(state := STA_CONNECTED, file := file))
    case StaDisconnected =>
      if w.state == STA_WAIT_CONNECT && GetMode(w.file) == STATION_FIRST_TIME
      then Reboot(Save(w.file, UNCOMMISSIONED, saved))
      else Quiet(w)
    case ApStart =>
      if w.state == COMMISSIONING_AP_WAIT_ACTIVATION
      then Quiet(w.(state := COMMISSIONING_AP_STARTED, apStartedTs := w.now))
      else Quiet(w.(state := STANDALONE_AP_STARTED))
    case ApStaConnected => Quiet(w.(apStartedTs := w.now, stations := w.stations + 1))
    case ApStaDisconnected => Quiet(w.(stations := w.stations - 1))
    case ScanDone =>
      Quiet(w.(scanDoneBit := w.scanDoneBit || w.state == STA_CONNECTED,
               scansInFlight := if w.scansInFlight > 0 then w.scansInFlight - 1 else 0))
  }

  /** Sends the scan results to whoever is in the slot; an encoding error leaves the slot taken. */
  function SendResults(w: Wifi, encoded: bool): Outcome {
    if encoded then Outcome(w.(scanRpcId := 0), [ListAnswered(w.scanRpcId)]) else Quiet(w)
  }

  function OnTick(w: Wifi, ota: Ota.OtaState, encoded: bool): Outcome {
    var w1 := w.(now := w.now + 1);
    if w1.state == STA_CONNECTED && w1.scanDoneBit then SendResults(w1.(scanDoneBit := false), encoded)
    else if w1.state == COMMISSIONING_AP_STARTED && w1.now > w1.apStartedTs + AP_ACTIVE_TIME then
      if w1.stations > 0 && ota.OTA_ONGOING?
      then Outcome(w1.(apStartedTs := w1.now), [Postponed])
      else Outcome(w1.(state := COMMISSIONING_AP_WAIT_ACTIVATION, apStartedTs := 0), [ApStopped])
    else Quiet(w1)
  }

  function OnListNetworks(w: Wifi, id: int, encoded: bool, scanStarts: bool): Outcome {
    if GetMode(w.file) in {UNCOMMISSIONED, STANDALONE_AP} then
      var sent := SendResults(w.(scanRpcId := id), encoded);
      sent.(effects := [ListAccepted(id)] + sent.effects)
    else if w.scanRpcId != 0 then Outcome(w, [ListRefused(id)])
    else if !scanStarts then Reboot(w.file)
    else Outcome(w.(scanRpcId := id, scanDoneBit := false, scansInFlight := w.scansInFlight + 1),
                 [ListAccepted(id)])
  }

  function OnCommission(w: Wifi, ssid: Option<string>, kind: Option<string>, saved: bool): Outcome {
    if ssid.None? then Quiet(w)
    else if kind.None? then Reboot(w.file)
    else if kind.value == "station" then Reboot(Save(w.file, STATION_FIRST_TIME, saved))
    else if kind.value == "access-point" then Reboot(Save(w.file, STANDALONE_AP, saved))
    else Quiet(w)
  }

  function Take(w: Wifi, step: Step): Outcome {
    match step
    case Happens(e, saved) => OnEvent(w, e, saved)
    case Tick(ota, encoded) => OnTick(w, ota, encoded)
    case ActivateAp => Quiet(if w.state == COMMISSIONING_AP_WAIT_ACTIVATION then w.(stations := 0) else w)
    case DeactivateAp => Outcome(w.(state := COMMISSIONING_AP_WAIT_ACTIVATION), [ApStopped])
    case ListNetworks(id, encoded, scanStarts) => OnListNetworks(w, id, encoded, scanStarts)
    case Commission(ssid, kind, saved) => OnCommission(w, ssid, kind, saved)
    case PowerCycle => Reboot(w.file)
  }

  // ---- the handlers as the C code runs them ----

  class Control {
    var modeFile: ModeFile
    var wifiControlState: WifiState
    var apStartedTs: int
    var apNumStationsConnected: int
    var currentTime: int
    var scanCompleteBit: bool
    var wifiScanRpcId: int
    ghost var scansInFlight: nat

    ghost function View(): Wifi
      reads this
    {
      Wifi(modeFile, wifiControlState, apStartedTs, apNumStationsConnected, currentTime,
           scanCompleteBit, wifiScanRpcId, scansInFlight)
    }

    constructor (file: ModeFile)
      ensures View() == Boot(file)
    {
      modeFile := file;
      wifiControlState := COMMISSIONING_AP_WAIT_ACTIVATION;
      apStartedTs, apNumStationsConnected, currentTime := 0, 0, 0;
      scanCompleteBit, wifiScanRpcId, scansInFlight := false, 0, 0;
      new;
      WifiControlInit();
    }

    /** Restarting clears RAM and runs the initialisation; the file stays. */
    method EspRestart()
      modifies this
      ensures View() == Boot(old(modeFile))
    {
      apStartedTs, apNumStationsConnected, currentTime := 0, 0, 0;
      scanCompleteBit, wifiScanRpcId, scansInFlight := false, 0, 0;
      WifiControlInit();
    }

    method WifiControlInit()
      modifies this`wifiControlState
      ensures wifiControlState == Boot(modeFile).state
    {
      match GetMode(modeFile) {
        case UNCOMMISSIONED => wifiControlState := COMMISSIONING_AP_WAIT_ACTIVATION;
        case STATION_FIRST_TIME => wifiControlState := STA_WAIT_CONNECT;
        case STATION_CONFIRMED => wifiControlState := STA_WAIT_CONNECT;
        case STANDALONE_AP => wifiControlState := STANDALONE_AP_STARTED;
      }
    }

    method SaveMode(mode: Mode, saved: bool)
      modifies this`modeFile
      ensures modeFile == Save(old(modeFile), mode, saved)
    {
      if saved {
        modeFile := Some(mode);
      }
    }

    method EventHandler(event: Event, saved: bool) returns (ghost effects: seq<Effect>)
      modifies this
      ensures Outcome(View(), effects) == OnEvent(old(View()), event, saved)
    {
      effects := [];
      match event {
        case StaStart =>
        case GotIp =>
          wifiControlState := STA_CONNECTED;
          if GetMode(modeFile) != STATION_CONFIRMED {
            SaveMode(STATION_CONFIRMED, saved);
          }
        case StaDisconnected =>
          if wifiControlState == STA_WAIT_CONNECT {
            wifiControlState := STA_DISCONNECTED;
            if GetMode(modeFile) == STATION_FIRST_TIME {
              SaveMode(UNCOMMISSIONED, saved);
              EspRestart();
              effects := [Restart];
            } else {
              wifiControlState := STA_WAIT_CONNECT;
            }
          }
        case ApStart =>
          if wifiControlState == COMMISSIONING_AP_WAIT_ACTIVATION {
            wifiControlState := COMMISSIONING_AP_STARTED;
            apStartedTs := currentTime;
          } else {
            wifiControlState := STANDALONE_AP_STARTED;
          }
        case ApStaConnected =>
          apStartedTs := currentTime;
          apNumStationsConnected := apNumStationsConnected + 1;
        case ApStaDisconnected =>
          apNumStationsConnected := apNumStationsConnected - 1;
        case ScanDone =>
          if wifiControlState == STA_CONNECTED {
            scanCompleteBit := true;
          }
          scansInFlight := if scansInFlight > 0 then scansInFlight - 1 else 0;
      }
    }

    method WifiScanCompleteSendResults(encoded: bool) returns (ghost effects: seq<Effect>)
      modifies this`wifiScanRpcId
      ensures Outcome(View(), effects) == SendResults(old(View()), encoded)
    {
      effects := [];
      if !encoded {
        return;
      }
      effects := [ListAnswered(wifiScanRpcId)];
      wifiScanRpcId := 0;
    }

    method WifiControlPeriodic(ota: Ota.OtaState, encoded: bool) returns (ghost effects: seq<Effect>)
      modifies this
      ensures Outcome(View(), effects) == OnTick(old(View()), ota, encoded)
    {
      effects := [];
      currentTime := currentTime + 1;
      if wifiControlState == STA_CONNECTED {
        if scanCompleteBit {
          scanCompleteBit := false;
          effects := WifiScanCompleteSendResults(encoded);
        }
      }
      if wifiControlState == COMMISSIONING_AP_STARTED {
        if currentTime > apStartedTs + AP_ACTIVE_TIME {
          if apNumStationsConnected > 0 && ota.OTA_ONGOING? {
            apStartedTs := currentTime;
            effects := [Postponed];
          } else {
            effects := StopCommissioningAp();
            apStartedTs := 0;
          }
        }
      }
    }

    method StartCommissioningAp()
      modifies this`apNumStationsConnected
      ensures View() == Take(old(View()), ActivateAp).wifi
    {
      if wifiControlState != COMMISSIONING_AP_WAIT_ACTIVATION {
        return;
      }
      apNumStationsConnected := 0;
    }

    method StopCommissioningAp() returns (ghost effects: seq<Effect>)
      modifies this`wifiControlState
      ensures Outcome(View(), effects) == Take(old(View()), DeactivateAp)
    {
      wifiControlState := COMMISSIONING_AP_WAIT_ACTIVATION;
      effects := [ApStopped];
    }

    method WifiInvokeListAvailable(id: int, encoded: bool, scanStarts: bool) returns (ghost effects: seq<Effect>)
      modifies this
      ensures Outcome(View(), effects) == OnListNetworks(old(View()), id, encoded, scanStarts)
    {
      var mode := GetMode(modeFile);
      if mode == UNCOMMISSIONED || mode == STANDALONE_AP {
        wifiScanRpcId := id;
        effects := WifiScanCompleteSendResults(encoded);
        effects := [ListAccepted(id)] + effects;
      } else if wifiScanRpcId != 0 {
        effects := [ListRefused(id)];
      } else {
        wifiScanRpcId := id;
        if scanStarts {
          scansInFlight := scansInFlight + 1;
          scanCompleteBit := false;
          effects := [ListAccepted(id)];
        } else {
          EspRestart();
          effects := [Restart];
        }
      }
    }

    method WifiInvokeCommissioning(ssid: Option<string>, kind: Option<string>, saved: bool)
        returns (ghost effects: seq<Effect>)
      modifies this
      ensures Outcome(View(), effects) == OnCommission(old(View()), ssid, kind, saved)
    {
      effects := [];
      if ssid.None? {
        return;
      }
      if kind.Some? {
        if kind.value == "station" {
          SaveMode(STATION_FIRST_TIME, saved);
        } else if kind.value == "access-point" {
          SaveMode(STANDALONE_AP, saved);
        } else {
          return;
        }
      }
      EspRestart();
      effects := [Restart];
    }
  }

  // ---- runs ----

  function RunFrom(w: Wifi, steps: seq<Step>): (end: Wifi)
    decreases |steps|
  {
    if steps == [] then w else RunFrom(Take(w, steps[0]).wifi, steps[1..])
  }

  /** Everything the steps made visible, in order. */
  function LogFrom(w: Wifi, steps: seq<Step>): seq<Effect>
    decreases |steps|
  {
    if steps == [] then []
    else Take(w, steps[0]).effects + LogFrom(Take(w, steps[0]).wifi, steps[1..])
  }
}
