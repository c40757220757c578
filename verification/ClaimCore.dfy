/**
 * Claiming the core: the first successful `claimCore` invoke makes its sender
 * the owner, is remembered in a file, and ends the time in which the core
 * skips the connection access list.
 */
module ClaimCore {
  import opened Prelude

  /** The configuration file: empty or unreadable as BSON, or a document with or without the property. */
  datatype ConfigFile = Blank | Document(claimed: Option<bool>)

  /** What the answer to identity.permissions holds. */
  datatype Answer = Granted | Denied(code: Option<int>)

  datatype Reply = Services(id: int) | InvokeError(id: int, code: int) | MallocFail(id: int) | Nothing

  datatype Step =
    | ClaimInvoke(id: int, mallocOk: bool)
    | PermissionsCallback(id: int, answer: Answer, fileOpens: bool)
    | Reboot(fileOpens: bool, fileReads: bool)

  /** The variables of the module, and what has been seen of it since the last boot. */
  datatype Core = Core(
    claimed: bool, file: ConfigFile, pending: multiset<int>,
    bootedClaimed: bool, invoked: multiset<int>, answered: multiset<int>, refused: multiset<int>,
    skips: seq<bool>, granted: nat)

  /** Loading reads the property, or writes `false` to a blank file; it fails without telling anyone. */
  function Load(file: ConfigFile, fileOpens: bool, fileReads: bool): (bool, ConfigFile) {
    if !fileOpens then (false, file)
    else if file.Blank? then (false, Document(Some(false)))
    else if !fileReads then (false, file)
    else (file.claimed == Some(true), file)
  }

  function Boot(file: ConfigFile, fileOpens: bool, fileReads: bool): Core {
    var (claimed, file') := Load(file, fileOpens, fileReads);
    Core(claimed, file', multiset{}, claimed, multiset{}, multiset{}, multiset{}, if claimed then [] else [true], 0)
  }

  function OnInvoke(c: Core, id: int, mallocOk: bool): (Core, Reply) {
    var c1 := c.(invoked := c.invoked + multiset{id});
    if c.claimed then (c1.(answered := c1.answered + multiset{id}), Services(id))
    else if !mallocOk then (c1.(refused := c1.refused + multiset{id}), MallocFail(id))
    else (c1.(pending := c1.pending + multiset{id}), Nothing)
  }

  /** The core calls back once for each pending request; the request's id comes with the callback. */
  function OnPermissions(c: Core, id: int, answer: Answer, fileOpens: bool): (Core, Reply) {
    if id !in c.pending then (c, Nothing)
    else
      var c1 := c.(pending := c.pending - multiset{id}, answered := c.answered + multiset{id});
      match answer
      case Denied(code) => (c1, InvokeError(id, if code.Some? then 1000 + code.value else 1000))
      case Granted =>
        (c1.(claimed := true, file := if fileOpens then Document(Some(true)) else c.file,
             skips := c.skips + [false], granted := c.granted + 1),
         Services(id))
  }

  function Take(c: Core, step: Step): (Core, Reply) {
    match step
    case ClaimInvoke(id, mallocOk) => OnInvoke(c, id, mallocOk)
    case PermissionsCallback(id, answer, fileOpens) => OnPermissions(c, id, answer, fileOpens)
    case Reboot(fileOpens, fileReads) => (Boot(c.file, fileOpens, fileReads), Nothing)
  }

  // ---- the module as the C code runs it ----

  class Claim {
    var coreClaimed: bool
    var configFile: ConfigFile
    var pendingIds: multiset<int>
    ghost var bootedClaimed: bool
    ghost var invoked: multiset<int>
    ghost var answered: multiset<int>
    ghost var refused: multiset<int>
    var skipRequests: seq<bool>
    ghost var granted: nat

    ghost function View(): Core
      reads this
    {
      Core(coreClaimed, configFile, pendingIds, bootedClaimed, invoked, answered, refused, skipRequests, granted)
    }

    constructor (file: ConfigFile, fileOpens: bool, fileReads: bool)
      ensures View() == Boot(file, fileOpens, fileReads)
    {
      configFile, coreClaimed := file, false;
      pendingIds, skipRequests := multiset{}, [];
      invoked, answered, refused, granted := multiset{}, multiset{}, multiset{}, 0;
      new;
      var _ := LoadConfigFile(fileOpens, fileReads);
      bootedClaimed := coreClaimed;
      PostInit();
    }

    method LoadConfigFile(fileOpens: bool, fileReads: bool) returns (loaded: bool)
      requires !coreClaimed
      modifies this`coreClaimed, this`configFile
      ensures (coreClaimed, configFile) == Load(old(configFile), fileOpens, fileReads)
      ensures loaded <==> fileOpens && (old(configFile).Blank? || fileReads)
    {
      if !fileOpens {
        return false;
      }
      if configFile.Blank? {
        coreClaimed := false;
        configFile := Document(Some(coreClaimed));
        return true;
      }
      if !fileReads {
        return false;
      }
      if configFile.claimed.Some? {
        coreClaimed := configFile.claimed.value;
      }
      return true;
    }

    method SaveConfigFile(fileOpens: bool) returns (saved: bool)
      modifies this`configFile
      ensures saved == fileOpens
      ensures configFile == if fileOpens then Document(Some(coreClaimed)) else old(configFile)
    {
      if !fileOpens {
        return false;
      }
      configFile := Document(Some(coreClaimed));
      return true;
    }

    method PostInit()
      modifies this`skipRequests
      ensures skipRequests == old(skipRequests) + if coreClaimed then [] else [true]
    {
      if !coreClaimed {
        skipRequests := skipRequests + [true];
      }
    }

    method EspRestart(fileOpens: bool, fileReads: bool)
      modifies this
      ensures View() == Boot(old(configFile), fileOpens, fileReads)
    {
      coreClaimed, pendingIds, skipRequests := false, multiset{}, [];
      invoked, answered, refused, granted := multiset{}, multiset{}, multiset{}, 0;
      var _ := LoadConfigFile(fileOpens, fileReads);
      bootedClaimed := coreClaimed;
      PostInit();
    }

    method ClaimCoreInvoke(id: int, mallocOk: bool) returns (reply: Reply)
      modifies this
      ensures (View(), reply) == OnInvoke(old(View()), id, mallocOk)
    {
      invoked := invoked + multiset{id};
      if coreClaimed {
        answered := answered + multiset{id};
        return Services(id);
      }
      if !mallocOk {
        refused := refused + multiset{id};
        return MallocFail(id);
      }
      pendingIds := pendingIds + multiset{id};
      return Nothing;
    }

    method PermissionsCb(invokeId: int, answer: Answer, fileOpens: bool) returns (reply: Reply)
      modifies this
      ensures (View(), reply) == OnPermissions(old(View()), invokeId, answer, fileOpens)
    {
      if invokeId !in pendingIds {
        return Nothing;
      }
      pendingIds := pendingIds - multiset{invokeId};
      answered := answered + multiset{invokeId};
      if answer.Denied? {
        return InvokeError(invokeId, if answer.code.Some? then 1000 + answer.code.value else 1000);
      }
      RecordClaim(fileOpens);
      return Services(invokeId);
    }

    method RecordClaim(fileOpens: bool)
      modifies this
      ensures View() == old(View()).(
                claimed := true, file := if fileOpens then Document(Some(true)) else old(configFile),
                skips := old(skipRequests) + [false], granted := old(granted) + 1)
    {
      coreClaimed := true;
      var _ := SaveConfigFile(fileOpens);
      skipRequests := skipRequests + [false];
      granted := granted + 1;
    }
  }

  // ---- runs ----

  function RunFrom(c: Core, steps: seq<Step>): Core
    decreases |steps|
  {
    if steps == [] then c else RunFrom(Take(c, steps[0]).0, steps[1..])
  }

  /** Every invoke is answered, pending or refused, each as often as it came. */
  predicate Accounted(c: Core) {
    c.invoked == c.answered + c.pending + c.refused
  }

  /**
   * A run that booted claimed asks for nothing. Any other asks for open doors
   * once, and to close them once per granted claim; it is claimed exactly when
   * there was one.
   */
  predicate DoorsFollowClaims(c: Core) {
    if c.bootedClaimed then c.claimed && c.pending == multiset{} && c.skips == [] && c.granted == 0
    else c.skips == [true] + Closes(c.granted) && (c.claimed <==> c.granted > 0)
  }

  function Closes(n: nat): (s: seq<bool>)
    ensures |s| == n
  {
    if n == 0 then [] else Closes(n - 1) + [false]
  }

  lemma StepAccounts(c: Core, step: Step)
    requires Accounted(c)
    ensures Accounted(Take(c, step).0)
  {
  }

  lemma StepKeepsDoors(c: Core, step: Step)
    requires DoorsFollowClaims(c)
    ensures DoorsFollowClaims(Take(c, step).0)
  {
    if step.PermissionsCallback? && !c.bootedClaimed {
      assert [true] + (Closes(c.granted) + [false]) == [true] + Closes(c.granted) + [false];
    } else if step.Reboot? {
      assert [true] + Closes(0) == [true];
    }
  }

  lemma {:induction false} ClaimProtocol(c: Core, steps: seq<Step>)
    requires Accounted(c) && DoorsFollowClaims(c)
    ensures Accounted(RunFrom(c, steps)) && DoorsFollowClaims(RunFrom(c, steps))
    decreases |steps|
  {
    if steps != [] {
      StepAccounts(c, steps[0]);
      StepKeepsDoors(c, steps[0]);
      ClaimProtocol(Take(c, steps[0]).0, steps[1..]);
    }
  }

  /** From any file and any first boot. */
  lemma ClaimProtocolFromBoot(file: ConfigFile, fileOpens: bool, fileReads: bool, steps: seq<Step>)
    ensures var c := RunFrom(Boot(file, fileOpens, fileReads), steps);
            Accounted(c) && DoorsFollowClaims(c)
  {
    assert [true] + Closes(0) == [true];
    ClaimProtocol(Boot(file, fileOpens, fileReads), steps);
  }

  /** Until a reboot a claimed core stays claimed, and a stored claim is never overwritten. */
  lemma {:induction false} ClaimedIsMonotone(c: Core, steps: seq<Step>)
    ensures c.file == Document(Some(true)) ==> RunFrom(c, steps).file == Document(Some(true))
    ensures c.claimed && (forall step <- steps :: !step.Reboot?) ==> RunFrom(c, steps).claimed
    decreases |steps|
  {
    if steps != [] {
      var next := Take(c, steps[0]).0;
      assert c.file == Document(Some(true)) ==> next.file == Document(Some(true));
      assert steps[0] in steps;
      ClaimedIsMonotone(next, steps[1..]);
    }
  }

  /** A granted claim that was saved is in force after a later boot exactly when that boot can open and read the file. */
  lemma SavedClaimSurvives(c: Core, id: int, before: seq<Step>, fileOpens: bool, fileReads: bool)
    requires id in c.pending
    ensures var saved := Take(c, PermissionsCallback(id, Granted, true)).0;
            var later := RunFrom(saved, before);
            Take(later, Reboot(fileOpens, fileReads)).0.claimed <==> fileOpens && fileReads
  {
    var saved := Take(c, PermissionsCallback(id, Granted, true)).0;
    ClaimedIsMonotone(saved, before);
  }

  /** What a boot reads: the stored claim, or the start of a file that holds none. */
  lemma BootReadsTheFile(file: ConfigFile, fileOpens: bool, fileReads: bool)
    ensures Boot(file, fileOpens, fileReads).claimed <==> fileOpens && fileReads && file == Document(Some(true))
    ensures Boot(file, fileOpens, fileReads).file
         == if fileOpens && file == Blank then Document(Some(false)) else file
  {
  }

  /** No request for ownership is granted in these steps. */
  ghost predicate NothingGranted(steps: seq<Step>) {
    forall step <- steps :: step.PermissionsCallback? ==> step.answer.Denied?
  }

  /**
   * Only a grant claims: from any file without a stored claim, a run without
   * one ends unclaimed and claimable, through any number of reboots.
   */
  lemma UnclaimedUntilGranted(file: ConfigFile, fileOpens: bool, fileReads: bool, steps: seq<Step>)
    requires file != Document(Some(true)) && NothingGranted(steps)
    ensures var c := RunFrom(Boot(file, fileOpens, fileReads), steps);
            !c.claimed && c.file != Document(Some(true)) && c.skips == [true]
  {
    BootReadsTheFile(file, fileOpens, fileReads);
    StaysUnclaimed(Boot(file, fileOpens, fileReads), steps);
  }

  lemma {:induction false} StaysUnclaimed(c: Core, steps: seq<Step>)
    requires !c.claimed && c.file != Document(Some(true)) && c.skips == [true] && NothingGranted(steps)
    ensures var end := RunFrom(c, steps);
            !end.claimed && end.file != Document(Some(true)) && end.skips == [true]
    decreases |steps|
  {
    if steps != [] {
      assert steps[0] in steps;
      assert NothingGranted(steps[1..]) by { assert forall step <- steps[1..] :: step in steps; }
      StaysUnclaimed(Take(c, steps[0]).0, steps[1..]);
    }
  }

  // ---- replies ----

  /** A grant that came for a pending request since the last boot, or a boot that read a claim. */
  function Owned(c: Core, steps: seq<Step>): bool
    decreases |steps|
  {
    if steps == [] then c.claimed
    else
      var init, last := steps[..|steps| - 1], steps[|steps| - 1];
      match last
      case ClaimInvoke(_, _) => Owned(c, init)
      case PermissionsCallback(id, answer, _) => Owned(c, init) || (answer.Granted? && id in RunFrom(c, init).pending)
      case Reboot(fileOpens, fileReads) => fileOpens && fileReads && RunFrom(c, init).file == Document(Some(true))
  }

  lemma {:induction false} RunJoin(c: Core, a: seq<Step>, b: seq<Step>)
    ensures RunFrom(c, a + b) == RunFrom(RunFrom(c, a), b)
    decreases |a|
  {
    if a == [] {
      assert a + b == b;
    } else {
      assert (a + b)[1..] == a[1..] + b;
      RunJoin(Take(c, a[0]).0, a[1..], b);
    }
  }

  lemma RunLast(c: Core, steps: seq<Step>)
    requires steps != []
    ensures RunFrom(c, steps) == Take(RunFrom(c, steps[..|steps| - 1]), steps[|steps| - 1]).0
  {
    var init, last := steps[..|steps| - 1], steps[|steps| - 1];
    assert steps == init + [last] && [last][1..] == [];
    RunJoin(c, init, [last]);
    assert RunFrom(RunFrom(c, init), [last]) == RunFrom(Take(RunFrom(c, init), last).0, [last][1..]);
  }

  lemma {:induction false} ClaimedIffOwned(c: Core, steps: seq<Step>)
    ensures RunFrom(c, steps).claimed <==> Owned(c, steps)
    decreases |steps|
  {
    if steps != [] {
      ClaimedIffOwned(c, steps[..|steps| - 1]);
      RunLast(c, steps);
    }
  }

  /** In every run: an invoke is answered at once exactly when somebody owns the core, else it asks or is refused. */
  lemma InvokeDecides(c: Core, steps: seq<Step>, id: int, mallocOk: bool)
    ensures var now := RunFrom(c, steps);
            var (after, reply) := Take(now, ClaimInvoke(id, mallocOk));
            if Owned(c, steps) then reply == Services(id) && after.pending == now.pending
            else if mallocOk then reply == Nothing && after.pending == now.pending + multiset{id}
            else reply == MallocFail(id) && after.pending == now.pending
  {
    ClaimedIffOwned(c, steps);
  }

  /** The answer to a pending request reaches its invoke: the services when granted, else the error code. */
  lemma AnswerDecides(c: Core, id: int, answer: Answer, fileOpens: bool)
    requires id in c.pending
    ensures var (after, reply) := Take(c, PermissionsCallback(id, answer, fileOpens));
            && after.pending == c.pending - multiset{id}
            && match answer
               case Granted => && reply == Services(id) && after.claimed
                               && (fileOpens ==> after.file == Document(Some(true)))
                               && (!fileOpens ==> after.file == c.file)
               case Denied(code) => && reply == InvokeError(id, 1000 + if code.Some? then code.value else 0)
                                    && after.claimed == c.claimed && after.file == c.file
  {
  }

  /** The ids that replies since the last reboot have answered and refused. */
  datatype Heard = Heard(answered: multiset<int>, refused: multiset<int>)

  function HearOne(h: Heard, step: Step, reply: Reply): Heard {
    if step.Reboot? then Heard(multiset{}, multiset{})
    else match reply
      case Services(id) => h.(answered := h.answered + multiset{id})
      case InvokeError(id, _) => h.(answered := h.answered + multiset{id})
      case MallocFail(id) => h.(refused := h.refused + multiset{id})
      case Nothing => h
  }

  function Hear(h: Heard, c: Core, steps: seq<Step>): Heard
    decreases |steps|
  {
    if steps == [] then h
    else
      var (next, reply) := Take(c, steps[0]);
      Hear(HearOne(h, steps[0], reply), next, steps[1..])
  }

  /** Answered and refused in the accounting of invokes are what the peers were told. */
  lemma {:induction false} TalliesAreReplies(c: Core, steps: seq<Step>)
    ensures var end := RunFrom(c, steps);
            Hear(Heard(c.answered, c.refused), c, steps) == Heard(end.answered, end.refused)
    decreases |steps|
  {
    if steps != [] {
      ReplyIsCounted(c, steps[0]);
      TalliesAreReplies(Take(c, steps[0]).0, steps[1..]);
    }
  }

  lemma ReplyIsCounted(c: Core, step: Step)
    ensures var (next, reply) := Take(c, step);
            HearOne(Heard(c.answered, c.refused), step, reply) == Heard(next.answered, next.refused)
  {
  }
}
