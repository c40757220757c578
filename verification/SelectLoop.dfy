/**
 * The network loop: it collects the descriptors to wait for, and dispatches on
 * the ones select() reports ready. What the core's callbacks do to their own
 * connection is arbitrary, except that they give it no new descriptor.
 */
module SelectLoop {
  import opened Prelude

  datatype Transport = RESOLVING | CONNECTING | OTHER

  /** A connection of the pool; `fd` is None while its send_arg is NULL. */
  datatype Connection = Connection(inUse: bool, transport: Transport, fd: Option<nat>)

  datatype RelayState = RELAY_INITIAL | RELAY_RESOLVING | RELAY_CONNECTING | RELAY_WAIT_RECONNECT | RELAY_OTHER

  datatype Relay = Relay(state: RelayState, fd: nat)

  /** What reading a readable connection comes to, and what a finished connect() came to. */
  datatype ReadOutcome = RingFull | RingError | GotData | Closed | WouldBlock

  datatype ConnectOutcome = SockoptError | Connected | Refused

  /** What select() answers, and what the connections it reports ready then hold for the loop. */
  datatype Answers = Answers(ret: int, readable: set<nat>, writable: set<nat>,
                             received: seq<ReadOutcome>, connects: seq<ConnectOutcome>)

  /** What the core is told about connection `i`. */
  datatype Service = Lost(i: nat) | Fed(i: nat) | Ended(i: nat) | Opened(i: nat) | Failed(i: nat)

  datatype Verdict = Fine | StateInconsistency | OtherAbort

  predicate Waits(c: Connection) {
    c.inUse && !c.transport.RESOLVING? && c.fd.Some?
  }

  predicate RelayWaits(r: Relay) {
    r.state.RELAY_CONNECTING? || r.state.RELAY_OTHER?
  }

  /** Descriptors of connections whose connect() is pending, or of the others. */
  function Waiting(pool: seq<Connection>, connecting: bool): set<nat> {
    if pool == [] then {}
    else
      var c := pool[|pool| - 1];
      Waiting(pool[..|pool| - 1], connecting)
      + if Waits(c) && c.transport.CONNECTING? == connecting then {c.fd.value} else {}
  }

  function RelayWaiting(relays: seq<Relay>, connecting: bool): set<nat> {
    if relays == [] then {}
    else
      var r := relays[|relays| - 1];
      RelayWaiting(relays[..|relays| - 1], connecting)
      + if RelayWaits(r) && r.state.RELAY_CONNECTING? == connecting then {r.fd} else {}
  }

  /** No two live connections share a descriptor, nor one with anything else that is waited for. */
  ghost predicate DistinctFds(pool: seq<Connection>, others: set<nat>) {
    && (forall i, j :: 0 <= i < j < |pool| && Live(pool[i]) && Live(pool[j]) ==> pool[i].fd != pool[j].fd)
    && (forall i :: 0 <= i < |pool| && Live(pool[i]) ==> pool[i].fd.value !in others)
  }

  predicate Live(c: Connection) {
    c.inUse && c.fd.Some?
  }

  /** In use, but with no descriptor to wait for. */
  predicate WithoutFd(c: Connection) {
    c.inUse && c.transport != RESOLVING && c.fd == None
  }

  /** A live connection's descriptor is in the set. */
  predicate ReadyIn(c: Connection, fds: set<nat>) {
    Live(c) && c.fd.value in fds
  }

  /** What a connection that is ready calls for. */
  predicate Calls(c: Connection, readable: set<nat>, writable: set<nat>,
                  received: ReadOutcome, connect: ConnectOutcome, s: Service)
  {
    match s
    case Lost(_) => false
    case Fed(_) => ReadyIn(c, readable) && received == GotData
    case Ended(_) => ReadyIn(c, readable) && received == Closed
    case Opened(_) => ReadyIn(c, writable) && connect == Connected
    case Failed(_) => ReadyIn(c, writable) && connect == Refused
  }

  /** A failure of the platform that the loop does not survive. */
  predicate Breaks(c: Connection, readable: set<nat>, writable: set<nat>,
                   received: ReadOutcome, connect: ConnectOutcome)
  {
    (ReadyIn(c, readable) && received == RingError) || (ReadyIn(c, writable) && connect == SockoptError)
  }

  /** The pool after a callback for connection `i`: only that connection changed. */
  ghost predicate TouchesOnly(before: seq<Connection>, after: seq<Connection>, i: nat)
    requires i < |before|
  {
    && |after| == |before| && after[i].fd in {None, before[i].fd}
    && forall j :: 0 <= j < |before| && j != i ==> after[j] == before[j]
  }

  /** Which parts of the network the configuration turns on, and the descriptors of the first two. */
  datatype Config = Config(asServer: bool, listenToAdverts: bool, asRelayClient: bool, serverFd: nat, wldFd: nat)

  /** The sockets that are always listened on. */
  function Listening(config: Config): set<nat> {
    (if config.asServer then {config.serverFd} else {}) + (if config.listenToAdverts then {config.wldFd} else {})
  }

  function RelaysUsed(config: Config, relays: seq<Relay>): seq<Relay> {
    if config.asRelayClient then relays else []
  }

  /** Everything waited for that is no connection of the pool. */
  function OtherFds(config: Config, relays: seq<Relay>): set<nat> {
    Listening(config)
    + RelayWaiting(RelaysUsed(config, relays), false) + RelayWaiting(RelaysUsed(config, relays), true)
  }

  predicate AllBelow(fds: set<nat>, bound: nat) {
    forall fd <- fds :: fd < bound
  }

  class Network {
    var pool: seq<Connection>
    var maxFd: nat

    method UpdateMaxFd(fd: nat)
      modifies this`maxFd
      ensures maxFd > fd && maxFd >= old(maxFd) && maxFd in {old(maxFd), fd + 1}
    {
      if fd >= maxFd {
        maxFd := fd + 1;
      }
    }

    /** Any callback of the core for a connection, which is told `service`. */
    method Callback(service: Service, ghost before: multiset<Service>) returns (ghost services: multiset<Service>)
      requires service.i < |pool|
      modifies this`pool
      ensures TouchesOnly(old(pool), pool, service.i)
      ensures services == before + multiset{service}
    {
      var c: Connection := *;
      if c.fd in {None, pool[service.i].fd} {
        pool := pool[service.i := c];
      }
      services := before + multiset{service};
    }

    /** Everything collected is below maxFd, and each connection is waited for in the set it belongs to. */
    method BuildSets(config: Config, relays: seq<Relay>)
        returns (rfds: set<nat>, wfds: set<nat>, ghost services: multiset<Service>)
      modifies this
      ensures |pool| == |old(pool)|
      ensures forall i :: 0 <= i < |pool| && old(pool)[i].fd.Some? ==> pool[i] == old(pool)[i]
      ensures forall i :: 0 <= i < |pool| && old(pool)[i].fd.None? ==> pool[i].fd.None?
      ensures rfds == Listening(config) + RelayWaiting(RelaysUsed(config, relays), false) + Waiting(pool, false)
      ensures wfds == RelayWaiting(RelaysUsed(config, relays), true) + Waiting(pool, true)
      ensures AllBelow(rfds, maxFd) && AllBelow(wfds, maxFd) && maxFd >= old(maxFd)
      ensures forall s: Service :: services[s] == if s.Lost? && s.i < |pool| && WithoutFd(old(pool)[s.i]) then 1 else 0
    {
      rfds, wfds := {}, {};
      if config.asServer {
        rfds := rfds + {config.serverFd};
        UpdateMaxFd(config.serverFd);
      }
      if config.listenToAdverts {
        rfds := rfds + {config.wldFd};
        UpdateMaxFd(config.wldFd);
      }
      if config.asRelayClient {
        var relayRfds, relayWfds := AddRelays(relays);
        rfds, wfds := rfds + relayRfds, wfds + relayWfds;
      }
      var poolRfds, poolWfds;
      poolRfds, poolWfds, services := AddConnections();
      rfds, wfds := rfds + poolRfds, wfds + poolWfds;
    }

    method AddRelays(relays: seq<Relay>) returns (rfds: set<nat>, wfds: set<nat>)
      modifies this`maxFd
      ensures rfds == RelayWaiting(relays, false) && wfds == RelayWaiting(relays, true)
      ensures AllBelow(rfds, maxFd) && AllBelow(wfds, maxFd) && maxFd >= old(maxFd)
    {
      rfds, wfds := {}, {};
      var k := 0;
      while k < |relays|
        invariant 0 <= k <= |relays| && maxFd >= old(maxFd)
        invariant rfds == RelayWaiting(relays[..k], false) && wfds == RelayWaiting(relays[..k], true)
        invariant AllBelow(rfds, maxFd) && AllBelow(wfds, maxFd)
      {
        var relay := relays[k];
        assert relays[..k + 1][..k] == relays[..k];
        if relay.state.RELAY_CONNECTING? {
          wfds := wfds + {relay.fd};
          UpdateMaxFd(relay.fd);
        } else if relay.state.RELAY_WAIT_RECONNECT? {
        } else if relay.state.RELAY_RESOLVING? {
        } else if !relay.state.RELAY_INITIAL? {
          rfds := rfds + {relay.fd};
          UpdateMaxFd(relay.fd);
        }
        k := k + 1;
      }
      assert relays[..|relays|] == relays;
    }

    /** A connection in use without a descriptor is reported to the core as disconnected. */
    method AddConnections() returns (rfds: set<nat>, wfds: set<nat>, ghost services: multiset<Service>)
      modifies this
      ensures |pool| == |old(pool)|
      ensures forall i :: 0 <= i < |pool| && old(pool)[i].fd.Some? ==> pool[i] == old(pool)[i]
      ensures forall i :: 0 <= i < |pool| && old(pool)[i].fd.None? ==> pool[i].fd.None?
      ensures rfds == Waiting(pool, false) && wfds == Waiting(pool, true)
      ensures AllBelow(rfds, maxFd) && AllBelow(wfds, maxFd) && maxFd >= old(maxFd)
      ensures forall s: Service :: services[s] == if s.Lost? && s.i < |pool| && WithoutFd(old(pool)[s.i]) then 1 else 0
    {
      rfds, wfds, services := {}, {}, multiset{};
      var i := 0;
      while i < |pool|
        invariant 0 <= i <= |pool| == |old(pool)| && maxFd >= old(maxFd)
        invariant forall j :: 0 <= j < |pool| && old(pool)[j].fd.Some? ==> pool[j] == old(pool)[j]
        invariant forall j :: 0 <= j < |pool| && old(pool)[j].fd.None? ==> pool[j].fd.None?
        invariant rfds == Waiting(pool[..i], false) && wfds == Waiting(pool[..i], true)
        invariant AllBelow(rfds, maxFd) && AllBelow(wfds, maxFd)
        invariant forall j :: i <= j < |pool| ==> pool[j] == old(pool)[j]
        invariant forall s: Service :: services[s] == if s.Lost? && s.i < i && WithoutFd(old(pool)[s.i]) then 1 else 0
      {
        var c := pool[i];
        ghost var before := pool;
        if c.inUse && !c.transport.RESOLVING? {
          if c.fd.None? {
            services := Callback(Lost(i), services);
          } else {
            var sockfd := c.fd.value;
            if c.transport.CONNECTING? {
              wfds := wfds + {sockfd};
            } else {
              rfds := rfds + {sockfd};
            }
            UpdateMaxFd(sockfd);
          }
        }
        assert pool[..i + 1][..i] == before[..i];
        i := i + 1;
      }
      assert pool[..|pool|] == pool;
    }

    /**
     * Dispatching on what select() left in the sets: every connection that is
     * ready is served once, in the way its socket calls for, and no other.
     * `rfds` and `wfds` are what BuildSets collected, and `others` what was
     * collected for no connection.
     */
    method Dispatch(readable: set<nat>, writable: set<nat>, received: seq<ReadOutcome>, connects: seq<ConnectOutcome>,
                    ghost rfds: set<nat>, ghost wfds: set<nat>, ghost others: set<nat>)
        returns (verdict: Verdict, ghost services: multiset<Service>)
      requires DistinctFds(pool, others) && |received| == |connects| == |pool|
      requires readable <= rfds && writable <= wfds
      requires rfds <= others + Waiting(pool, false) && wfds <= others + Waiting(pool, true)
      modifies this`pool
      ensures verdict != StateInconsistency
      ensures verdict.Fine? <==> forall i :: 0 <= i < |received| ==>
                                   !Breaks(old(pool)[i], readable, writable, received[i], connects[i])
      ensures verdict.Fine? ==> forall s: Service ::
                services[s] == if && s.i < |received|
                                  && Calls(old(pool)[s.i], readable, writable, received[s.i], connects[s.i], s)
                               then 1 else 0
    {
      ghost var built := pool;
      verdict, services := Fine, multiset{};
      var i := 0;
      while i < |pool|
        invariant 0 <= i <= |pool| == |built| && verdict.Fine?
        invariant forall j :: i <= j < |pool| ==> pool[j] == built[j]
        invariant forall j :: 0 <= j < i ==> !Breaks(built[j], readable, writable, received[j], connects[j])
        invariant forall s: Service ::
                    services[s] == if s.i < i && Calls(built[s.i], readable, writable, received[s.i], connects[s.i], s) then 1 else 0
      {
        if Live(built[i]) {
          WaitedForOnce(built, i, others, true);
          WaitedForOnce(built, i, others, false);
        }
        verdict, services := Serve(i, readable, writable, received[i], connects[i], services);
        if !verdict.Fine? {
          return;
        }
        i := i + 1;
      }
    }

    /** The turn of connection `i` in the dispatch loop. */
    method Serve(i: nat, readable: set<nat>, writable: set<nat>, received: ReadOutcome, connect: ConnectOutcome,
                 ghost before: multiset<Service>)
        returns (verdict: Verdict, ghost services: multiset<Service>)
      requires i < |pool|
      requires ReadyIn(pool[i], writable) ==> pool[i].transport.CONNECTING? && !ReadyIn(pool[i], readable)
      modifies this`pool
      ensures TouchesOnly(old(pool), pool, i) && verdict != StateInconsistency
      ensures verdict.Fine? <==> !Breaks(old(pool)[i], readable, writable, received, connect)
      ensures verdict.Fine? ==> forall s: Service ::
                services[s] == before[s]
                               + if s.i == i && Calls(old(pool)[i], readable, writable, received, connect, s)
                                 then 1 else 0
    {
      verdict, services := Fine, before;
      var c := pool[i];
      if !c.inUse || c.fd.None? {
        return;
      }
      var sockfd := c.fd.value;
      if sockfd in readable {
        if received.RingError? {
          return OtherAbort, services;
        }
        if received.Closed? {
          services := Callback(Ended(i), services);
        }
        if !received.GotData? {
          return;
        }
        services := Callback(Fed(i), services);
      }
      if sockfd in writable {
        if connect.SockoptError? {
          return OtherAbort, services;
        }
        if connect.Connected? {
          if !pool[i].transport.CONNECTING? {
            return StateInconsistency, services;
          }
          services := Callback(Opened(i), services);
        } else {
          services := Callback(Failed(i), services);
        }
      }
    }

    /**
     * One round: build the sets, wait, dispatch. An open connection is read
     * when select() reports it readable, and one that is connecting is told the
     * outcome when it is reported writable.
     */
    method NetworkPeriodic(config: Config, relays: seq<Relay>, answers: Answers)
        returns (verdict: Verdict, ghost services: multiset<Service>)
      requires DistinctFds(pool, OtherFds(config, relays))
      requires |answers.received| == |answers.connects| == |pool|
      modifies this
      ensures verdict != StateInconsistency
      ensures verdict.Fine? ==> forall s: Service ::
                services[s] == if RoundCalls(old(pool), answers, s) then 1 else 0
    {
      ghost var others, before := OtherFds(config, relays), pool;
      var rfds, wfds;
      rfds, wfds, services := BuildSets(config, relays);
      assert DistinctFds(pool, others);
      if answers.ret < 0 {
        return OtherAbort, services;
      }
      if answers.ret == 0 {
        return Fine, services;
      }
      ghost var lost, built := services, pool;
      verdict, services := Dispatch(answers.readable * rfds, answers.writable * wfds,
                                    answers.received, answers.connects, rfds, wfds, others);
      if verdict.Fine? {
        forall s: Service
          ensures (lost + services)[s] == if RoundCalls(before, answers, s) then 1 else 0
        {
          if s.i < |before| && Live(before[s.i]) {
            WaitedForOnce(built, s.i, others, true);
            WaitedForOnce(built, s.i, others, false);
          }
        }
      }
      services := lost + services;
    }
  }

  /** What a round calls for, told by the pool before it and what select() answers. */
  predicate RoundCalls(pool: seq<Connection>, answers: Answers, s: Service)
    requires |answers.received| == |answers.connects| == |pool|
  {
    s.i < |pool| &&
    var c := pool[s.i];
    var ready := answers.ret > 0 && Live(c);
    match s
    case Lost(_) => WithoutFd(c)
    case Fed(i) => ready && c.transport == OTHER && c.fd.value in answers.readable && answers.received[i] == GotData
    case Ended(i) => ready && c.transport == OTHER && c.fd.value in answers.readable && answers.received[i] == Closed
    case Opened(i) => ready && c.transport == CONNECTING && c.fd.value in answers.writable && answers.connects[i] == Connected
    case Failed(i) => ready && c.transport == CONNECTING && c.fd.value in answers.writable && answers.connects[i] == Refused
  }

  lemma {:induction false} WaitingMembers(pool: seq<Connection>, connecting: bool, fd: nat)
    ensures fd in Waiting(pool, connecting)
       <==> exists i :: 0 <= i < |pool| && Waits(pool[i]) && pool[i].fd == Some(fd)
                        && pool[i].transport.CONNECTING? == connecting
    decreases |pool|
  {
    if pool != [] {
      var init := pool[..|pool| - 1];
      WaitingMembers(init, connecting, fd);
      if i :| 0 <= i < |pool| && Waits(pool[i]) && pool[i].fd == Some(fd)
              && pool[i].transport.CONNECTING? == connecting {
        assert i < |init| ==> init[i] == pool[i];
      }
    }
  }

  /** A relay's descriptor is waited for in the write set while connecting, and in the read set once it is open. */
  lemma {:induction false} RelayWaitingMembers(relays: seq<Relay>, connecting: bool, fd: nat)
    ensures fd in RelayWaiting(relays, connecting)
       <==> exists r <- relays :: r.fd == fd && r.state == if connecting then RELAY_CONNECTING else RELAY_OTHER
    decreases |relays|
  {
    if relays != [] {
      var init, last := relays[..|relays| - 1], relays[|relays| - 1];
      assert relays == init + [last];
      RelayWaitingMembers(init, connecting, fd);
    }
  }

  /** Which descriptors are waited for to be readable, and which to be writable. */
  lemma SetsAre(config: Config, relays: seq<Relay>, pool: seq<Connection>, fd: nat)
    ensures fd in Listening(config) + RelayWaiting(RelaysUsed(config, relays), false) + Waiting(pool, false)
       <==> || (config.asServer && fd == config.serverFd)
            || (config.listenToAdverts && fd == config.wldFd)
            || (config.asRelayClient && exists r <- relays :: r.fd == fd && r.state == RELAY_OTHER)
            || (exists c <- pool :: c.inUse && c.transport == OTHER && c.fd == Some(fd))
    ensures fd in RelayWaiting(RelaysUsed(config, relays), true) + Waiting(pool, true)
       <==> || (config.asRelayClient && exists r <- relays :: r.fd == fd && r.state == RELAY_CONNECTING)
            || (exists c <- pool :: c.inUse && c.transport == CONNECTING && c.fd == Some(fd))
  {
    RelayWaitingMembers(RelaysUsed(config, relays), false, fd);
    RelayWaitingMembers(RelaysUsed(config, relays), true, fd);
    WaitingMembers(pool, false, fd);
    WaitingMembers(pool, true, fd);
  }

  /**
   * With distinct descriptors a live connection is in the write set exactly when
   * its connect() is pending, in the read set exactly when it is open, and in
   * neither while its address is being resolved.
   */
  lemma WaitedForOnce(pool: seq<Connection>, i: nat, others: set<nat>, connecting: bool)
    requires DistinctFds(pool, others) && i < |pool| && Live(pool[i])
    ensures pool[i].fd.value in others + Waiting(pool, connecting)
       <==> !pool[i].transport.RESOLVING? && pool[i].transport.CONNECTING? == connecting
  {
    WaitingMembers(pool, connecting, pool[i].fd.value);
  }
}
