/** What the update endpoint promises a client that plays by the rules. */
module OtaDelivery {
  import opened Prelude
  import opened OtaUpdate

  // ---- progress ----

  /** Every announced size is positive. */
  ghost predicate PositiveSizes(steps: seq<Step>) {
    forall step <- steps :: PositiveSize(step)
  }

  predicate PositiveSize(step: Step) {
    IsOp(step, "ota_begin") && step.a.size.Some? ==> step.a.size.value > 0
  }

  predicate InProgress(s: ServerState) {
    && (s.state.OTA_INITIAL? ==> s.currOffset == 0)
    && (s.state.OTA_ONGOING? ==> 0 <= s.currOffset < s.expectedSize)
  }

  /** An `ota_next` asks for a non-empty block inside the image, of at most BLOCK_SIZE bytes. */
  predicate AsksForData(reply: Reply, size: int) {
    reply.OtaNext? ==>
      && 0 <= reply.nextOffset && 1 <= reply.blockSize <= BLOCK_SIZE
      && reply.nextOffset + reply.blockSize <= size
  }

  lemma StepMakesProgress(sha: Sha256, s: ServerState, step: Step)
    requires InProgress(s) && PositiveSize(step)
    ensures var o := StepFrom(sha, s, step);
            InProgress(o.server) && AsksForData(o.reply, o.server.expectedSize)
  {
  }

  lemma {:induction false} EveryNextAsksForData(sha: Sha256, steps: seq<Step>)
    requires PositiveSizes(steps)
    ensures InProgress(Run(sha, steps).server)
    ensures forall step :: PositiveSize(step) ==>
              var o := StepFrom(sha, Run(sha, steps).server, step);
              AsksForData(o.reply, o.server.expectedSize)
    decreases |steps|
  {
    if steps != [] {
      var init, last := steps[..|steps| - 1], steps[|steps| - 1];
      assert forall step <- init :: step in steps;
      EveryNextAsksForData(sha, init);
      assert last in steps;
      StepMakesProgress(sha, Run(sha, init).server, last);
    }
    forall step | PositiveSize(step)
      ensures var o := StepFrom(sha, Run(sha, steps).server, step);
              AsksForData(o.reply, o.server.expectedSize)
    {
      StepMakesProgress(sha, Run(sha, steps).server, step);
    }
  }

  /** A begin that is accepted asks for data exactly when the size it announced is positive. */
  lemma FirstBlockIff(sha: Sha256, s: ServerState, a: Args, p: Platform)
    requires InProgress(s) && a.op == Some("ota_begin")
    requires Invoke(sha, s, a, p).reply.OtaNext?
    ensures AsksForData(Invoke(sha, s, a, p).reply, a.size.value) <==> a.size.value > 0
  {
  }

  // ---- an obedient client ----

  /** Every call succeeds, and updates go to `partition`. */
  function Healthy(partition: nat): Platform {
    Platform(Some(partition), 0, 0, 0, 0)
  }

  /** The push that the last `ota_next` asked for. */
  function Obey(image: Bytes, reply: Reply): Args
    requires AsksForData(reply, |image|) && reply.OtaNext?
  {
    Args(Some("ota_push"), None, None, Some(reply.nextOffset),
         Some(image[reply.nextOffset..reply.nextOffset + reply.blockSize]))
  }

  /** A client that answers `ota_next` with the block it names, up to `pushes` times, and the calls it causes. */
  function ObedientUpload(sha: Sha256, image: Bytes, s: ServerState, reply: Reply, p: Platform, pushes: nat): Outcome
    decreases pushes
  {
    if pushes == 0 || !reply.OtaNext? || !AsksForData(reply, |image|) then Outcome(s, reply, [])
    else
      var o := Invoke(sha, s, Obey(image, reply), p);
      var rest := ObedientUpload(sha, image, o.server, o.reply, p, pushes - 1);
      rest.(effects := o.effects + rest.effects)
  }

  /** The partitions switched to, in order. */
  function Switched(log: seq<Effect>): seq<Option<nat>>
    decreases |log|
  {
    if log == [] then []
    else (match log[0] case BootSet(target) => [target] case _ => []) + Switched(log[1..])
  }

  lemma {:induction false} SwitchedJoin(a: seq<Effect>, b: seq<Effect>)
    ensures Switched(a + b) == Switched(a) + Switched(b)
    decreases |a|
  {
    if a == [] {
      assert a + b == b;
    } else {
      assert (a + b)[1..] == a[1..] + b;
      SwitchedJoin(a[1..], b);
    }
  }

  function CeilDiv(n: nat, d: nat): nat
    requires d > 0
  {
    (n + d - 1) / d
  }

  lemma CeilStep(left: nat)
    requires left > 0
    ensures left > 1024 ==> CeilDiv(left, 1024) == 1 + CeilDiv(left - 1024, 1024)
    ensures left <= 1024 ==> CeilDiv(left, 1024) == 1
  {
  }

  lemma {:induction false} UploadRuns(sha: Sha256, image: Bytes, s: ServerState, partition: nat, pushes: nat)
    requires s.state.OTA_ONGOING? && 0 <= s.currOffset < |image| == s.expectedSize
    requires s.hashed == s.onHandle == image[..s.currOffset] && s.expectedHash == sha(image)
    requires pushes <= CeilDiv(|image| - s.currOffset, 1024)
    ensures var o := ObedientUpload(sha, image, s, BuildNext(s), Healthy(partition), pushes);
            if pushes == CeilDiv(|image| - s.currOffset, 1024)
            then && o.server.state.OTA_FINISHED? && o.server.onHandle == image && o.reply == OtaFinish(0)
                 && Switched(o.effects) == [s.partition]
            else && o.server.state.OTA_ONGOING? && o.server.currOffset == s.currOffset + 1024 * pushes
                 && Switched(o.effects) == []
    decreases pushes
  {
    var left := |image| - s.currOffset;
    CeilStep(left);
    if pushes > 0 {
      ObedientPush(sha, image, s, partition);
      var o := Push(sha, s, Obey(image, BuildNext(s)), Healthy(partition));
      var rest := ObedientUpload(sha, image, o.server, o.reply, Healthy(partition), pushes - 1);
      SwitchedJoin(o.effects, rest.effects);
      if left > 1024 {
        UploadRuns(sha, image, o.server, partition, pushes - 1);
      }
    }
  }

  /** One obedient push moves a block further, or finishes the upload and switches. */
  lemma ObedientPush(sha: Sha256, image: Bytes, s: ServerState, partition: nat)
    requires s.state.OTA_ONGOING? && 0 <= s.currOffset < |image| == s.expectedSize
    requires s.hashed == s.onHandle == image[..s.currOffset] && s.expectedHash == sha(image)
    ensures var o := Push(sha, s, Obey(image, BuildNext(s)), Healthy(partition));
            var next := s.currOffset + 1024;
            if next < |image|
            then && o.server == s.(currOffset := next, hashed := image[..next], onHandle := image[..next])
                 && o.reply == BuildNext(o.server) && Switched(o.effects) == []
            else && o.server.state.OTA_FINISHED? && o.server.onHandle == image && o.reply == OtaFinish(0)
                 && Switched(o.effects) == [s.partition]
  {
    var next := if s.currOffset + 1024 < |image| then s.currOffset + 1024 else |image|;
    assert image[..s.currOffset] + image[s.currOffset..next] == image[..next];
    assert image[..|image|] == image;
    var data := image[s.currOffset..next];
    SwitchedJoin([Accepted(data)], [BootSet(s.partition)]);
    assert Switched([Accepted(data)]) == [] && Switched([BootSet(s.partition)]) == [s.partition];
  }

  /**
   * An obedient client of a healthy platform finishes with its
   * ceil(size/1024)-th push and no earlier, and the boot partition is switched
   * then, once, to the partition that took the image.
   */
  lemma ObedientClientFinishes(sha: Sha256, image: Bytes, s: ServerState, partition: nat, pushes: nat)
    requires image != [] && InProgress(s) && |sha(image)| == HASH_LEN
    requires pushes <= CeilDiv(|image|, 1024)
    ensures var a := Args(Some("ota_begin"), Some(|image|), Some(sha(image)), None, None);
            var begun := Invoke(sha, s, a, Healthy(partition));
            var o := ObedientUpload(sha, image, begun.server, begun.reply, Healthy(partition), pushes);
            && begun.effects == [Begun(partition, |image|, sha(image))]
            && (o.server.state.OTA_FINISHED? <==> pushes == CeilDiv(|image|, 1024))
            && (o.server.state.OTA_FINISHED? ==> o.server.onHandle == image && o.reply == OtaFinish(0))
            && Switched(o.effects) == if pushes == CeilDiv(|image|, 1024) then [Some(partition)] else []
  {
    var a := Args(Some("ota_begin"), Some(|image|), Some(sha(image)), None, None);
    var begun := Invoke(sha, s, a, Healthy(partition));
    assert image[..0] == [];
    UploadRuns(sha, image, begun.server, partition, pushes);
  }

  // ---- delivery over a bad network ----

  /**
   * A message from a client that has `image`: a begin names its size and hash,
   * a push carries an integer offset and the bytes of the image found there.
   * Which messages arrive, how often and in what order is up to the network,
   * and anything else may arrive too.
   */
  predicate Honest(image: Bytes, hash: Bytes, step: Step) {
    && (IsOp(step, "ota_begin") ==> step.a.size == Some(|image|) && step.a.hash == Some(hash))
    && (IsOp(step, "ota_push") ==>
          && step.a.offset.Some?
          && (step.a.data.Some? ==> PartOf(image, step.a.offset.value, step.a.data.value)))
  }

  predicate PartOf(image: Bytes, offset: int, data: Bytes) {
    0 <= offset && offset + |data| <= |image| && image[offset..offset + |data|] == data
  }

  /** The bytes on the current handle are the front of the image, up to the current offset. */
  predicate FrontOf(image: Bytes, hash: Bytes, s: ServerState) {
    && (s.state.OTA_INITIAL? ==> s.currOffset == 0)
    && (s.state.OTA_ONGOING? ==>
          && 0 <= s.currOffset <= |image| == s.expectedSize && s.expectedHash == hash
          && s.hashed == s.onHandle == image[..s.currOffset])
    && (s.state.OTA_FINISHED? ==> s.onHandle == image)
  }

  lemma StepDelivers(sha: Sha256, image: Bytes, s: ServerState, step: Step)
    requires FrontOf(image, sha(image), s) && Honest(image, sha(image), step)
    ensures var o := StepFrom(sha, s, step);
            FrontOf(image, sha(image), o.server) && o.reply != MISMATCH
  {
    if s.state.OTA_ONGOING? && IsOp(step, "ota_push") {
      PushDelivers(sha, image, s, step.a, step.p);
    }
  }

  lemma PushDelivers(sha: Sha256, image: Bytes, s: ServerState, a: Args, p: Platform)
    requires s.state.OTA_ONGOING? && FrontOf(image, sha(image), s)
    requires a.offset.Some? && (a.data.Some? ==> PartOf(image, a.offset.value, a.data.value))
    ensures var o := Push(sha, s, a, p);
            FrontOf(image, sha(image), o.server) && o.reply != MISMATCH
  {
    if a.data.Some? && a.offset.value == s.currOffset {
      var next := s.currOffset + |a.data.value|;
      assert image[..s.currOffset] + a.data.value == image[..next];
      assert next == |image| ==> image[..next] == image;
    }
  }

  /**
   * Under loss, duplication, reordering, resync, restarts and platform
   * failures, what is on the handle is always the front of the image, an
   * upload only finishes with all of it, and the checksum test never fails.
   */
  lemma {:induction false} HonestUploadDelivers(sha: Sha256, image: Bytes, steps: seq<Step>)
    requires forall step <- steps :: Honest(image, sha(image), step)
    ensures FrontOf(image, sha(image), Run(sha, steps).server)
    ensures MISMATCH !in Run(sha, steps).replies
    decreases |steps|
  {
    if steps != [] {
      var init, last := steps[..|steps| - 1], steps[|steps| - 1];
      assert forall step <- init :: step in steps;
      HonestUploadDelivers(sha, image, init);
      assert last in steps;
      StepDelivers(sha, image, Run(sha, init).server, last);
    }
  }

  /** Every boot switch an honest client's messages lead to is to a partition holding the whole image. */
  lemma {:induction false} HonestSwitchBootsTheImage(sha: Sha256, image: Bytes, steps: seq<Step>)
    requires forall step <- steps :: Honest(image, sha(image), step)
    ensures var log := Run(sha, steps).log;
            forall k :: 0 <= k < |log| && log[k].BootSet? ==>
              Observed(log[..k]).Upload? && Observed(log[..k]).data == image
    decreases |steps|
  {
    if steps != [] {
      var init, last := steps[..|steps| - 1], steps[|steps| - 1];
      assert forall step <- init :: step in steps;
      HonestSwitchBootsTheImage(sha, image, init);
      BootSafety(sha, init);
      HonestUploadDelivers(sha, image, init);
      assert last in steps;
      var before := Run(sha, init);
      var log: seq<Effect>, effects: seq<Effect> := before.log, StepFrom(sha, before.server, last).effects;
      StepDelivers(sha, image, before.server, last);
      forall k | 0 <= k < |log + effects| && (log + effects)[k].BootSet?
        ensures Observed((log + effects)[..k]).Upload? && Observed((log + effects)[..k]).data == image
      {
        if k < |log| {
          assert (log + effects)[..k] == log[..k];
        } else {
          SwitchFollowsAccept(sha, before.server, last);
          assert (log + effects)[..k] == log + [effects[0]];
          ObservedExtends(log, effects[0]);
        }
      }
    }
  }

  /** A step that switches the boot partition has just accepted the last block. */
  lemma SwitchFollowsAccept(sha: Sha256, s: ServerState, step: Step)
    ensures var o := StepFrom(sha, s, step);
            (exists e <- o.effects :: e.BootSet?) ==>
              && s.state.OTA_ONGOING? && o.server.state.OTA_FINISHED?
              && |o.effects| == 2 && o.effects[1].BootSet?
              && o.effects[0] == Accepted(step.a.data.value) && o.server.onHandle == s.onHandle + step.a.data.value
  {
  }

  /**
   * The promise needs the offset: delivering an accepted push a second time
   * changes nothing if and only if the push carried one.
   */
  lemma DuplicateHarmlessIff(sha: Sha256, s: ServerState, a: Args, p: Platform)
    requires s.state.OTA_ONGOING? && a.op == Some("ota_push") && a.data.Some? && a.data.value != []
    requires p.writeErr == ESP_OK && (a.offset.Some? ==> a.offset.value == s.currOffset)
    requires Invoke(sha, s, a, p).server.state.OTA_ONGOING?
    ensures var once := Invoke(sha, s, a, p).server;
            var again := Invoke(sha, once, a, p);
            again.server == once && again.effects == [] <==> a.offset.Some?
  {
  }
}
