/**
 * The over-the-air update endpoint: a three-state upload server with an
 * offset handshake, resync, restart, an incremental SHA-256 and a guarded
 * switch of the boot partition.
 *
 * The results of the esp_ota_* calls are chosen anew for every invoke. SHA-256
 * is an arbitrary function of the bytes fed to it. `ServerState` holds, beside
 * the C variables, what the update handle and the hash context have been given.
 */
module OtaUpdate {
  import opened Prelude

  const BLOCK_SIZE: int := 1024
  const HASH_LEN: nat := 32
  const ESP_OK: int := 0

  datatype OtaState = OTA_INITIAL | OTA_ONGOING | OTA_FINISHED

  /** The invoke's arguments; a missing element or one of another type is None. */
  datatype Args = Args(op: Option<string>, size: Option<int>, hash: Option<Bytes>,
                       offset: Option<int>, data: Option<Bytes>)

  /** What the platform answers if this invoke asks it. */
  datatype Platform = Platform(nextPartition: Option<nat>, beginErr: int, writeErr: int, endErr: int, bootErr: int)

  datatype Reply =
    | MistError
    | NoReply
    | Empty
    | OtaNext(nextOffset: int, blockSize: int, hash: Bytes)
    | OtaErr(msg: string, status: int)
    | OtaFinish(status: int)
    | OtaFinishErr(msg: string, status: int)

  /** The calls that change something outside the server, as the platform sees them. */
  datatype Effect =
    | Begun(partition: nat, size: int, hash: Bytes)
    | Accepted(data: Bytes)
    | BootSet(target: Option<nat>)
    | Restarted

  datatype ServerState = ServerState(
    state: OtaState, currOffset: int, expectedSize: int, expectedHash: Bytes,
    partition: Option<nat>, onHandle: Bytes, hashed: Bytes)

  datatype Outcome = Outcome(server: ServerState, reply: Reply, effects: seq<Effect>)

  type Sha256 = Bytes -> Bytes

  const MISMATCH := OtaFinishErr("checksum mismatch err", -1)

  function Boot(): ServerState {
    ServerState(OTA_INITIAL, 0, 0, seq(HASH_LEN, _ => 0), None, [], [])
  }

  function BuildNext(s: ServerState): Reply {
    var left := s.expectedSize - s.currOffset;
    OtaNext(s.currOffset, if left > BLOCK_SIZE then BLOCK_SIZE else left, s.expectedHash)
  }

  // ---- what one invoke does ----

  /** `ota_begin` in the initial state: the announcement is stored piece by piece. */
  function Begin(s: ServerState, a: Args, p: Platform): Outcome {
    if a.size.None? then Outcome(s, Empty, [])
    else
      var s1 := s.(expectedSize := a.size.value);
      if a.hash.None? then Outcome(s1, OtaErr("element hash is missing or not a buffer", -1), [])
      else if |a.hash.value| != HASH_LEN then Outcome(s1, OtaErr("Bad hash len", -1), [])
      else
        var s2 := s1.(expectedHash := a.hash.value, partition := p.nextPartition);
        if p.nextPartition.None? then Outcome(s2, OtaErr("partition is null!", -1), [])
        else if p.beginErr != ESP_OK then Outcome(s2, OtaErr("esp_ota_begin() error", -1), [])
        else Outcome(s2.(state := OTA_ONGOING, onHandle := [], hashed := []), BuildNext(s2),
                     [Begun(p.nextPartition.value, a.size.value, a.hash.value)])
  }

  /** `ota_push` while uploading. A push without an integer offset is taken as it comes. */
  function Push(sha: Sha256, s: ServerState, a: Args, p: Platform): Outcome {
    if a.offset.Some? && a.offset.value != s.currOffset then Outcome(s, BuildNext(s), [])
    else if a.data.None? then Outcome(s, BuildNext(s), [])
    else if p.writeErr != ESP_OK then Outcome(s, OtaErr("esp_ota_write() err", p.writeErr), [])
    else
      var s1 := s.(currOffset := s.currOffset + |a.data.value|,
                   onHandle := s.onHandle + a.data.value, hashed := s.hashed + a.data.value);
      var accepted := [Accepted(a.data.value)];
      if s1.currOffset < s1.expectedSize then Outcome(s1, BuildNext(s1), accepted)
      else
        var s2 := s1.(state := OTA_FINISHED);
        if p.endErr != ESP_OK then Outcome(s2, OtaFinishErr("esp_ota_end() err", p.endErr), accepted)
        else if sha(s2.hashed) != s2.expectedHash then Outcome(s2, MISMATCH, accepted)
        else Outcome(s2, if p.bootErr == ESP_OK then OtaFinish(p.bootErr)
                         else OtaFinishErr("esp_ota_set_boot_partition() err", p.bootErr),
                     accepted + [BootSet(s2.partition)])
  }

  function Invoke(sha: Sha256, s: ServerState, a: Args, p: Platform): Outcome {
    match a.op
    case None => Outcome(s, MistError, [])
    case Some(op) =>
      if op == "ota_reboot" then Outcome(Boot(), NoReply, [Restarted])
      else if op == "ota_begin" then Begin(s.(state := OTA_INITIAL, currOffset := Rewound(s)), a, p)
      else if s.state.OTA_ONGOING? && op == "ota_push" then Push(sha, s, a, p)
      else if s.state.OTA_ONGOING? && op == "ota_resync" then Outcome(s, BuildNext(s), [])
      else Outcome(s, Empty, [])
  }

  /** Only a restart rewinds the offset; a begin in the initial state relies on it being zero. */
  function Rewound(s: ServerState): int {
    if s.state.OTA_INITIAL? then s.currOffset else 0
  }

  // ---- the endpoint as the C code runs it ----

  class Endpoint {
    const sha: Sha256
    var otaState: OtaState
    var currOffset: int
    var expectedSize: int
    var expectedHash: Bytes
    var partition: Option<nat>
    var onHandle: Bytes
    var sha256Ctx: Bytes

    ghost function View(): ServerState
      reads this
    {
      ServerState(otaState, currOffset, expectedSize, expectedHash, partition, onHandle, sha256Ctx)
    }

    constructor (sha: Sha256)
      ensures View() == Boot() && this.sha == sha
    {
      this.sha := sha;
      otaState, currOffset, expectedSize := OTA_INITIAL, 0, 0;
      expectedHash, partition, onHandle, sha256Ctx := seq(HASH_LEN, _ => 0), None, [], [];
    }

    method OtaBuildNext() returns (reply: Reply)
      ensures reply == BuildNext(View())
      ensures reply.OtaNext? && reply.nextOffset == currOffset && reply.hash == expectedHash
      ensures reply.blockSize <= BLOCK_SIZE && currOffset + reply.blockSize <= expectedSize
      ensures reply.blockSize < BLOCK_SIZE ==> currOffset + reply.blockSize == expectedSize
    {
      reply := OtaNext(currOffset,
                       if expectedSize - currOffset > BLOCK_SIZE then BLOCK_SIZE else expectedSize - currOffset,
                       expectedHash);
    }

    /** `restarts` counts the jumps back to `ota_restart_parsing`. */
    method OtaInvoke(a: Args, p: Platform) returns (reply: Reply, ghost effects: seq<Effect>, ghost restarts: nat)
      modifies this
      ensures Outcome(View(), reply, effects) == Invoke(sha, old(View()), a, p)
      ensures restarts <= 1
      ensures restarts == 1 <==> a.op == Some("ota_begin") && old(otaState) != OTA_INITIAL
    {
      effects, restarts, reply := [], 0, Empty;
      if a.op.None? {
        return MistError, effects, restarts;
      }
      var op := a.op.value;
      if op == "ota_reboot" {
        otaState, currOffset, expectedSize := OTA_INITIAL, 0, 0;
        expectedHash, partition, onHandle, sha256Ctx := seq(HASH_LEN, _ => 0), None, [], [];
        return NoReply, [Restarted], restarts;
      }
      var parsing := true;
      while parsing
        invariant parsing ==> effects == [] && reply == Empty
        invariant parsing && restarts == 0 ==> View() == old(View())
        invariant parsing && restarts > 0 ==>
          && restarts == 1 && op == "ota_begin" && old(otaState) != OTA_INITIAL
          && View() == old(View()).(state := OTA_INITIAL, currOffset := 0)
        invariant restarts <= 1
        invariant !parsing ==>
          && Outcome(View(), reply, effects) == Invoke(sha, old(View()), a, p)
          && (restarts == 1 <==> op == "ota_begin" && old(otaState) != OTA_INITIAL)
        decreases parsing, otaState != OTA_INITIAL
      {
        parsing := false;
        match otaState {
          case OTA_INITIAL =>
            if op == "ota_begin" {
              reply, effects := HandleBegin(a, p);
            }
          case OTA_ONGOING =>
            if op == "ota_push" {
              reply, effects := HandlePush(a, p);
            } else if op == "ota_begin" {
              otaState, currOffset := OTA_INITIAL, 0;
              restarts, parsing := restarts + 1, true;
            } else if op == "ota_resync" {
              reply := OtaBuildNext();
            }
          case OTA_FINISHED =>
            if op == "ota_begin" {
              otaState, currOffset := OTA_INITIAL, 0;
              restarts, parsing := restarts + 1, true;
            }
        }
      }
    }

    method HandleBegin(a: Args, p: Platform) returns (reply: Reply, ghost effects: seq<Effect>)
      requires otaState == OTA_INITIAL
      modifies this
      ensures Outcome(View(), reply, effects) == Begin(old(View()), a, p)
    {
      effects := [];
      if a.size.None? {
        return Empty, effects;
      }
      expectedSize := a.size.value;
      if a.hash.None? {
        return OtaErr("element hash is missing or not a buffer", -1), effects;
      }
      if |a.hash.value| != HASH_LEN {
        return OtaErr("Bad hash len", -1), effects;
      }
      expectedHash := a.hash.value;
      partition := p.nextPartition;
      if partition == None {
        return OtaErr("partition is null!", -1), effects;
      }
      if p.beginErr != ESP_OK {
        return OtaErr("esp_ota_begin() error", -1), effects;
      }
      effects := [Begun(partition.value, expectedSize, expectedHash)];
      reply := OtaBuildNext();
      otaState := OTA_ONGOING;
      onHandle, sha256Ctx := [], [];
    }

    method HandlePush(a: Args, p: Platform) returns (reply: Reply, ghost effects: seq<Effect>)
      requires otaState == OTA_ONGOING
      modifies this
      ensures Outcome(View(), reply, effects) == Push(sha, old(View()), a, p)
    {
      effects := [];
      if a.offset.Some? && currOffset != a.offset.value {
        reply := OtaBuildNext();
        return;
      }
      if a.data.None? {
        reply := OtaBuildNext();
        return;
      }
      var data := a.data.value;
      if p.writeErr != ESP_OK {
        return OtaErr("esp_ota_write() err", p.writeErr), effects;
      }
      onHandle := onHandle + data;
      effects := [Accepted(data)];
      sha256Ctx := sha256Ctx + data;
      currOffset := currOffset + |data|;
      if currOffset < expectedSize {
        reply := OtaBuildNext();
        return;
      }
      if p.endErr == ESP_OK {
        var calculatedHash := sha(sha256Ctx);
        if calculatedHash != expectedHash {
          reply := OtaFinishErr("checksum mismatch err", -1);
        } else {
          effects := effects + [BootSet(partition)];
          reply := if p.bootErr == ESP_OK then OtaFinish(p.bootErr)
                   else OtaFinishErr("esp_ota_set_boot_partition() err", p.bootErr);
        }
      } else {
        reply := OtaFinishErr("esp_ota_end() err", p.endErr);
      }
      otaState := OTA_FINISHED;
    }
  }

  // ---- runs ----

  /** One step of a run: an invoke with whatever the platform answers, or a power cycle. */
  datatype Step = Request(a: Args, p: Platform) | PowerCycle

  predicate IsOp(step: Step, op: string) {
    step.Request? && step.a.op == Some(op)
  }

  datatype History = History(server: ServerState, replies: seq<Reply>, log: seq<Effect>)

  function StepFrom(sha: Sha256, s: ServerState, step: Step): Outcome {
    match step
    case Request(a, p) => Invoke(sha, s, a, p)
    case PowerCycle => Outcome(Boot(), NoReply, [Restarted])
  }

  function Run(sha: Sha256, steps: seq<Step>): History {
    if steps == [] then History(Boot(), [], [])
    else
      var before := Run(sha, steps[..|steps| - 1]);
      var o := StepFrom(sha, before.server, steps[|steps| - 1]);
      History(o.server, before.replies + [o.reply], before.log + o.effects)
  }

  /** The upload in progress, read off the platform calls alone. */
  datatype Upload = NoUpload | Upload(partition: nat, size: int, hash: Bytes, data: Bytes, switches: nat)

  function Observe(u: Upload, e: Effect): Upload {
    match e
    case Begun(partition, size, hash) => Upload(partition, size, hash, [], 0)
    case Accepted(data) => if u.Upload? then u.(data := u.data + data) else u
    case BootSet(_) => if u.Upload? then u.(switches := u.switches + 1) else u
    case Restarted => NoUpload
  }

  function Observed(log: seq<Effect>): Upload {
    if log == [] then NoUpload else Observe(Observed(log[..|log| - 1]), log[|log| - 1])
  }

  /** Switching the boot partition now is justified by the calls so far. */
  predicate MaySwitch(sha: Sha256, log: seq<Effect>, target: Option<nat>) {
    var u := Observed(log);
    && u.Upload? && target == Some(u.partition)
    && |u.data| >= u.size && sha(u.data) == u.hash
    && u.switches == 0
  }

  ghost predicate SafeLog(sha: Sha256, log: seq<Effect>) {
    forall k :: 0 <= k < |log| && log[k].BootSet? ==> MaySwitch(sha, log[..k], log[k].target)
  }

  lemma ObservedExtends(log: seq<Effect>, e: Effect)
    ensures Observed(log + [e]) == Observe(Observed(log), e)
  {
    assert (log + [e])[..|log|] == log;
  }

  /** What the server's variables say about the calls made so far. */
  predicate Agrees(s: ServerState, u: Upload) {
    && (s.state.OTA_INITIAL? ==> s.currOffset == 0)
    && (s.state.OTA_ONGOING? ==>
          && u.Upload? && u.switches == 0
          && s.partition == Some(u.partition) && s.expectedSize == u.size && s.expectedHash == u.hash
          && s.hashed == s.onHandle == u.data && s.currOffset == |u.data|)
  }

  lemma SafeAppend(sha: Sha256, log: seq<Effect>, e: Effect)
    requires SafeLog(sha, log) && (e.BootSet? ==> MaySwitch(sha, log, e.target))
    ensures SafeLog(sha, log + [e])
  {
    forall k | 0 <= k < |log + [e]| && (log + [e])[k].BootSet?
      ensures MaySwitch(sha, (log + [e])[..k], (log + [e])[k].target)
    {
      assert (log + [e])[..k] == log[..k] && log[..|log|] == log;
    }
  }

  lemma StepIsSafe(sha: Sha256, s: ServerState, log: seq<Effect>, step: Step)
    requires SafeLog(sha, log) && Agrees(s, Observed(log))
    ensures var o := StepFrom(sha, s, step);
            SafeLog(sha, log + o.effects) && Agrees(o.server, Observed(log + o.effects))
  {
    if step.Request? && step.a.op == Some("ota_push") && s.state.OTA_ONGOING? {
      PushIsSafe(sha, s, log, step.a, step.p);
    } else {
      OthersSwitchNothing(sha, s, Observed(log), step);
      QuietOrOne(sha, log, StepFrom(sha, s, step).effects);
    }
  }

  predicate SwitchesNothing(o: Outcome, u: Upload) {
    if o.effects == [] then Agrees(o.server, u)
    else o.effects == [o.effects[0]] && !o.effects[0].BootSet? && Agrees(o.server, Observe(u, o.effects[0]))
  }

  lemma OthersSwitchNothing(sha: Sha256, s: ServerState, u: Upload, step: Step)
    requires Agrees(s, u) && (s.state.OTA_ONGOING? ==> !IsOp(step, "ota_push"))
    ensures SwitchesNothing(StepFrom(sha, s, step), u)
  {
    if IsOp(step, "ota_begin") {
      BeginSwitchesNothing(s.(state := OTA_INITIAL, currOffset := Rewound(s)), u, step.a, step.p);
    }
  }

  lemma BeginSwitchesNothing(s: ServerState, u: Upload, a: Args, p: Platform)
    requires s.state.OTA_INITIAL? && s.currOffset == 0
    ensures SwitchesNothing(Begin(s, a, p), u)
  {
  }

  /** A step with no call, or one that switches nothing. */
  lemma QuietOrOne(sha: Sha256, log: seq<Effect>, effects: seq<Effect>)
    requires SafeLog(sha, log)
    requires effects == [] || (effects == [effects[0]] && !effects[0].BootSet?)
    ensures SafeLog(sha, log + effects)
    ensures Observed(log + effects) == if effects == [] then Observed(log) else Observe(Observed(log), effects[0])
  {
    if effects == [] {
      assert log + effects == log;
    } else {
      SafeAppend(sha, log, effects[0]);
      ObservedExtends(log, effects[0]);
    }
  }

  lemma PushIsSafe(sha: Sha256, s: ServerState, log: seq<Effect>, a: Args, p: Platform)
    requires SafeLog(sha, log) && Agrees(s, Observed(log)) && s.state.OTA_ONGOING?
    ensures var o := Push(sha, s, a, p);
            SafeLog(sha, log + o.effects) && Agrees(o.server, Observed(log + o.effects))
  {
    var effects := Push(sha, s, a, p).effects;
    if effects == [] {
      assert log + effects == log;
    } else {
      var accepted := log + [effects[0]];
      SafeAppend(sha, log, effects[0]);
      ObservedExtends(log, effects[0]);
      if |effects| == 2 {
        assert log + effects == accepted + [effects[1]];
        SafeAppend(sha, accepted, effects[1]);
        ObservedExtends(accepted, effects[1]);
      }
    }
  }

  /**
   * Whatever is sent, whatever fails, and across any number of restarts, the
   * boot partition is only switched to the partition of the current upload,
   * after at least the announced number of bytes was accepted, when those
   * bytes hash to the announced value, and at most once per upload.
   */
  lemma {:induction false} BootSafety(sha: Sha256, steps: seq<Step>)
    ensures var h := Run(sha, steps);
            SafeLog(sha, h.log) && Agrees(h.server, Observed(h.log))
    decreases |steps|
  {
    if steps != [] {
      var before := Run(sha, steps[..|steps| - 1]);
      BootSafety(sha, steps[..|steps| - 1]);
      StepIsSafe(sha, before.server, before.log, steps[|steps| - 1]);
    }
  }

  // ---- what every run decides, read off the calls and replies so far ----

  /** A client can follow the server's state from its own requests and the replies to them. */
  function PhaseAfter(phase: OtaState, step: Step, reply: Reply): OtaState {
    match reply
    case NoReply => OTA_INITIAL
    case OtaFinish(_) => OTA_FINISHED
    case OtaFinishErr(_, _) => OTA_FINISHED
    case _ => if IsOp(step, "ota_begin") then (if reply.OtaNext? then OTA_ONGOING else OTA_INITIAL) else phase
  }

  function PhaseOf(sha: Sha256, steps: seq<Step>): OtaState {
    if steps == [] then OTA_INITIAL
    else
      var init, last := steps[..|steps| - 1], steps[|steps| - 1];
      PhaseAfter(PhaseOf(sha, init), last, StepFrom(sha, Run(sha, init).server, last).reply)
  }

  lemma {:induction false} RepliesTellThePhase(sha: Sha256, steps: seq<Step>)
    ensures Run(sha, steps).server.state == PhaseOf(sha, steps)
    decreases |steps|
  {
    if steps != [] {
      var init := steps[..|steps| - 1];
      RepliesTellThePhase(sha, init);
      ReplyTellsPhase(sha, Run(sha, init).server, steps[|steps| - 1]);
    }
  }

  lemma ReplyTellsPhase(sha: Sha256, s: ServerState, step: Step)
    ensures var o := StepFrom(sha, s, step);
            o.server.state == PhaseAfter(s.state, step, o.reply)
  {
    if IsOp(step, "ota_begin") {
      var o := Begin(s.(state := OTA_INITIAL, currOffset := Rewound(s)), step.a, step.p);
      assert o.server.state == if o.reply.OtaNext? then OTA_ONGOING else OTA_INITIAL;
    } else if IsOp(step, "ota_push") && s.state.OTA_ONGOING? {
      var o := Push(sha, s, step.a, step.p);
      assert o.server.state == PhaseAfter(s.state, step, o.reply);
    }
  }

  /** The block that comes after `done` bytes of an image of `size`. */
  predicate NamesBlock(reply: Reply, done: int, size: int, hash: Bytes) {
    && reply.OtaNext? && reply.nextOffset == done && reply.hash == hash
    && reply.blockSize <= 1024 && done + reply.blockSize <= size
    && (reply.blockSize == 1024 || done + reply.blockSize == size)
  }

  /** In any state a begin starts an upload if and only if it is complete and the platform is ready for it. */
  lemma BeginDecides(sha: Sha256, steps: seq<Step>, a: Args, p: Platform)
    requires a.op == Some("ota_begin")
    ensures var o := Invoke(sha, Run(sha, steps).server, a, p);
            if && a.size.Some? && a.hash.Some? && |a.hash.value| == 32
               && p.nextPartition.Some? && p.beginErr == 0
            then && o.effects == [Begun(p.nextPartition.value, a.size.value, a.hash.value)]
                 && NamesBlock(o.reply, 0, a.size.value, a.hash.value)
            else o.effects == [] && if a.size.None? then o.reply == Empty else o.reply.OtaErr? && o.reply.status == -1
  {
    BootSafety(sha, steps);
  }

  /** The data of this push is written: it is the next in line, or does not say where it belongs. */
  predicate PushFits(u: Upload, a: Args) {
    u.Upload? && a.data.Some? && (a.offset.Some? ==> a.offset.value == |u.data|)
  }

  /** The image is complete and as announced, so the partition is switched. */
  predicate Switches(sha: Sha256, u: Upload, p: Platform) {
    u.Upload? && |u.data| >= u.size && p.endErr == 0 && sha(u.data) == u.hash
  }

  /** While uploading, in every run: what a push writes, when it switches the boot partition, and what it answers. */
  lemma PushDecides(sha: Sha256, steps: seq<Step>, a: Args, p: Platform)
    requires a.op == Some("ota_push") && PhaseOf(sha, steps).OTA_ONGOING?
    ensures var u := Observed(Run(sha, steps).log);
            var o := Invoke(sha, Run(sha, steps).server, a, p);
            && u.Upload?
            && if !PushFits(u, a) then o.effects == [] && NamesBlock(o.reply, |u.data|, u.size, u.hash)
               else if p.writeErr != 0 then o.effects == [] && o.reply.OtaErr? && o.reply.status == p.writeErr
               else
                 var u' := u.(data := u.data + a.data.value);
                 && o.effects == [Accepted(a.data.value)]
                                 + (if Switches(sha, u', p) then [BootSet(Some(u.partition))] else [])
                 && if |u'.data| < u.size then NamesBlock(o.reply, |u'.data|, u.size, u.hash)
                    else if Switches(sha, u', p) && p.bootErr == 0 then o.reply == OtaFinish(0)
                    else o.reply.OtaFinishErr?
                         && o.reply.status == if p.endErr != 0 then p.endErr
                                              else if sha(u'.data) != u.hash then -1 else p.bootErr
  {
    BootSafety(sha, steps);
    RepliesTellThePhase(sha, steps);
  }

  /** Every other step: a resync asks again, a reboot starts over, and the rest has no effect. */
  lemma OthersDecide(sha: Sha256, steps: seq<Step>, step: Step)
    requires !IsOp(step, "ota_begin")
    requires IsOp(step, "ota_push") ==> !PhaseOf(sha, steps).OTA_ONGOING?
    ensures var h := Run(sha, steps);
            var u, o := Observed(h.log), StepFrom(sha, h.server, step);
            if step.PowerCycle? || IsOp(step, "ota_reboot") then o.effects == [Restarted] && o.server == Boot()
            else && o.effects == [] && o.server == h.server
                 && (IsOp(step, "ota_resync") && PhaseOf(sha, steps).OTA_ONGOING? ==>
                       u.Upload? && NamesBlock(o.reply, |u.data|, u.size, u.hash))
                 && (!(IsOp(step, "ota_resync") && PhaseOf(sha, steps).OTA_ONGOING?) ==>
                       o.reply == if step.a.op.None? then MistError else Empty)
  {
    BootSafety(sha, steps);
    RepliesTellThePhase(sha, steps);
  }

  /** "Finished" is the answer of the steps that switch successfully, and of no others. */
  lemma FinishedIff(sha: Sha256, s: ServerState, step: Step)
    ensures var o := StepFrom(sha, s, step);
            o.reply.OtaFinish? <==> step.Request? && step.p.bootErr == 0 && Switching(o.effects)
  {
    if IsOp(step, "ota_begin") {
      var o := Begin(s.(state := OTA_INITIAL, currOffset := Rewound(s)), step.a, step.p);
      assert !o.reply.OtaFinish? && !Switching(o.effects);
    } else if IsOp(step, "ota_push") && s.state.OTA_ONGOING? {
      var o := Push(sha, s, step.a, step.p);
      if |o.effects| == 2 {
        assert o.effects[1].BootSet?;
      }
    }
  }

  predicate Switching(effects: seq<Effect>) {
    exists k :: 0 <= k < |effects| && effects[k].BootSet?
  }
}
