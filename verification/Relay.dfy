/** The relay as a transition system: handshakes, claims, releases, revalidation
    ticks, session ends and admin edits, each one atomic step over the licence
    gate, the ownership ledger and the routing table. */
module Relay {
  import opened Prelude
  import opened Labels
  import opened Ownership
  import opened Routing
  import opened Licences
  import opened GateRuns
  import opened Enforcement

  const MAX_CLAIM_ENTRIES := 256

  /** A live daemon session. `licensed` records that its credential was a licence
      key and not a local token. Once `closing`, its control task has returned;
      the session's end is the only step left for it. */
  datatype Session = Session(user: User, token: string, licensed: bool, closing: bool)

  datatype State = State(gate: Gate, pool: Pool, sessions: map<nat, Session>, nextSession: nat)

  /** The raw-TCP manager: absent, or which ports are in range and bindable. */
  datatype Tcp = Disabled | Enabled(inRange: set<PortNumber>, bindable: set<PortNumber>)

  datatype DenyCode = ProtocolError | PortNotReserved | PortUnavailable | LimitExceeded | NotOwner

  datatype ControlReply =
    | Denied(code: DenyCode)
    | GrantedClaim(hosts: seq<string>, ports: seq<PortNumber>)
    | Released(goneHosts: set<string>, gonePorts: set<PortNumber>)

  /** How a credential is presented: `local` is the local token store's answer,
      the rest is what the licence gate sees if that store does not know it. */
  datatype Presented = Presented(local: Option<User>, token: string, now: int, instant: real, reply: Answer)

  datatype AuthStep = AuthStep(gate: Gate, pool: Pool, user: Option<User>)

  // ----- authentication -----

  /** The licence gate's side: check the key, resolve the account, and enforce
      the pooled cap when the backend just granted the key. `sweeps` is true for
      the relay and false for a reference relay that never sweeps its negative
      cache. */
  ghost function GateAuthenticate(g: Gate, p: Pool, policy: Policy, w: Presented, sweeps: bool := true): AuthStep {
    var e := Authenticate(w.token, w.now, w.instant, w.reply);
    var g' := GateStep(g, policy, e, sweeps);
    match ReplyTo(g, policy, e, sweeps).verdict
    case Reject => AuthStep(g', p, None)
    case Honor(customer) =>
      var r := ResolveUser(p.ledger, customer);
      AuthStep(g', p.(ledger := r.ledger), r.user)
    case Admit(customer, cap) =>
      var r := ResolveUser(p.ledger, customer);
      var p1 := p.(ledger := r.ledger);
      if r.user.None? then AuthStep(g', p1, None)
      else AuthStep(g', Enforce(p1, g'.cache, policy, r.user.value, cap, w.now), r.user)
  }

  /** Local tokens first; then, if licensing is configured, the gate. */
  ghost function AuthenticateAny(g: Gate, p: Pool, gate: Option<Policy>, w: Presented, sweeps: bool := true): AuthStep {
    if w.local.Some? then AuthStep(g, p, w.local)
    else if gate.None? then AuthStep(g, p, None)
    else GateAuthenticate(g, p, gate.value, w, sweeps)
  }

  // ----- claims -----

  /** The first port a claim may not have, if any, and why. */
  function PortRefusal(r: Ledger, user: int, ports: seq<PortNumber>, tcp: Tcp): Option<DenyCode> {
    if ports == [] then None
    else if tcp.Disabled? then Some(PortNotReserved)
    else if ports[0] !in tcp.inRange || !OwnsPort(r, user, ports[0]) then Some(PortNotReserved)
    else if ports[0] !in tcp.bindable then Some(PortUnavailable)
    else PortRefusal(r, user, ports[1..], tcp)
  }

  datatype ClaimInput = ClaimInput(
    hosts: seq<string>, ports: seq<PortNumber>, tcp: Tcp, activate: ActivateAnswer, now: int, clock: nat -> int)

  datatype Gated = Refused(cache: Cache) | Passed(cache: Cache, cap: Option<int>)

  /** Licence enforcement, before anything is registered. */
  ghost function PassGate(c: Cache, t: Routes, policy: Policy, user: User, token: string,
                          hosts: seq<string>, ports: seq<PortNumber>, activate: ActivateAnswer, now: int): Gated {
    var a := EnsureActivated(c, policy, token, activate);
    if !a.ok then Refused(a.cache)
    else
      match CapFor(a.cache, policy, user.name, now)
      case Allow => Passed(a.cache, None)
      case DenyAll => Refused(a.cache)
      case Cap(max) =>
        if Projected(t, user.id, hosts, ports) > max then Refused(a.cache) else Passed(a.cache, Some(max))
  }

  datatype ClaimStep = ClaimStep(cache: Cache, pool: Pool, reply: ControlReply)

  /** Register every hostname, then route everything at once. */
  ghost function RegisterAndRoute(c: Cache, p: Pool, who: Handle, cap: Option<int>,
                                  hosts: seq<string>, ports: seq<PortNumber>, clock: nat -> int): ClaimStep {
    var reg := RegisterFrom(p.ledger, who.user, hosts, 0, cap, clock);
    if reg.outcome == CapExceeded then ClaimStep(c, p.(ledger := reg.ledger), Denied(LimitExceeded))
    else if reg.outcome != Owned then ClaimStep(c, p.(ledger := reg.ledger), Denied(NotOwner))
    else ClaimStep(c, Pool(reg.ledger, Claimed(p.routes, who, hosts, ports)), GrantedClaim(hosts, ports))
  }

  ghost function HandleClaim(c: Cache, p: Pool, gate: Option<Policy>, session: nat, user: User, token: string,
                             i: ClaimInput): ClaimStep {
    if |i.hosts| + |i.ports| > MAX_CLAIM_ENTRIES then ClaimStep(c, p, Denied(ProtocolError))
    else
      var hosts := LowerAll(i.hosts);
      var refusal := PortRefusal(p.ledger, user.id, i.ports, i.tcp);
      if refusal.Some? then ClaimStep(c, p, Denied(refusal.value))
      else if gate.None? then RegisterAndRoute(c, p, Handle(session, user.id), None, hosts, i.ports, i.clock)
      else
        match PassGate(c, p.routes, gate.value, user, token, hosts, i.ports, i.activate, i.now)
        case Refused(c') => ClaimStep(c', p, Denied(LimitExceeded))
        case Passed(c', cap) => RegisterAndRoute(c', p, Handle(session, user.id), cap, hosts, i.ports, i.clock)
  }

  // ----- releases -----

  ghost function HandleRelease(c: Cache, p: Pool, gate: Option<Policy>, user: User, token: string,
                               hosts: seq<string>, ports: seq<PortNumber>, deactivated: bool): ClaimStep {
    if |hosts| + |ports| > MAX_CLAIM_ENTRIES then ClaimStep(c, p, Denied(ProtocolError))
    else
      var hosts' := LowerAll(hosts);
      var goneHosts := ReleasableHosts(p.ledger, user.id, hosts');
      var gonePorts := ReleasablePorts(p.ledger, user.id, ports);
      var ledger := Release(p.ledger, user.id, hosts', ports);
      var c' := if gate.Some? && (goneHosts != {} || gonePorts != {}) && Count(ledger, user.id) == 0
                then ReleaseActivation(c, token, deactivated) else c;
      ClaimStep(c', Pool(ledger, Evicted(p.routes, goneHosts, gonePorts)), Released(goneHosts, gonePorts))
  }

  // ----- the revalidation tick -----

  /** The hostnames routed to a session that its user no longer owns. */
  function RevokedHosts(p: Pool, session: nat, user: int): set<string> {
    set h | h in Scan(p.routes, session).hosts && !OwnsHost(p.ledger, user, h)
  }

  datatype TickStep = TickStep(gate: Gate, pool: Pool, close: bool)

  /** Re-authenticate, re-check the ownership of the routed hostnames, and close
      the session if its licence now denies everything. */
  ghost function HandleTick(g: Gate, p: Pool, gate: Option<Policy>, session: nat, user: User, w: Presented, capNow: int,
                            sweeps: bool := true): TickStep {
    var a := AuthenticateAny(g, p, gate, w, sweeps);
    if !(a.user.Some? && a.user.value.id == user.id) then TickStep(a.gate, a.pool, true)
    else
      var p1 := a.pool.(routes := Evicted(a.pool.routes, RevokedHosts(a.pool, session, user.id), {}));
      TickStep(a.gate, p1, gate.Some? && CapFor(a.gate.cache, gate.value, user.name, capNow) == DenyAll)
  }

  // ----- the transition system -----

  datatype Event =
    | Connect(presented: Presented)
    | ClaimRequest(session: nat, input: ClaimInput)
    | ReleaseRequest(session: nat, hosts: seq<string>, ports: seq<PortNumber>, deactivated: bool)
    | Tick(session: nat, presented: Presented, capNow: int)
    | Disconnect(session: nat)
    | End(session: nat)
    | AdminAddUser(name: string)
    | AdminAddHost(name: string, userName: string, at: int)
    | AdminAddPort(port: PortNumber, userName: string, at: int)
    | AdminRemoveHost(name: string)
    | AdminRemovePort(port: PortNumber)

  predicate IsAdminRemoval(e: Event) {
    e.AdminRemoveHost? || e.AdminRemovePort?
  }

  /** The open session an event belongs to, if it is still being served. */
  predicate Serving(st: State, session: nat) {
    session in st.sessions && !st.sessions[session].closing
  }

  ghost function AddHost(r: Ledger, name: string, userName: string, at: int): Ledger {
    if !ValidLabel(name) || userName !in r.users || name in r.hosts then r
    else r.(hosts := r.hosts[name := HostRow(r.users[userName], at, FreshId(RowIds(r.hosts)))])
  }

  function AddPort(r: Ledger, port: PortNumber, userName: string, at: int): Ledger {
    if userName !in r.users || port in r.ports then r
    else r.(ports := r.ports[port := PortRow(r.users[userName], at)])
  }

  ghost function Step(st: State, gate: Option<Policy>, e: Event, sweeps: bool := true): State {
    match e
    case Connect(w) =>
      var a := AuthenticateAny(st.gate, st.pool, gate, w, sweeps);
      State(a.gate, a.pool,
            if a.user.Some? then st.sessions[st.nextSession := Session(a.user.value, w.token, w.local.None?, false)] else st.sessions,
            st.nextSession + 1)
    case ClaimRequest(s, i) =>
      if !Serving(st, s) then st
      else
        var r := HandleClaim(st.gate.cache, st.pool, gate, s, st.sessions[s].user, st.sessions[s].token, i);
        st.(gate := st.gate.(cache := r.cache), pool := r.pool)
    case ReleaseRequest(s, hosts, ports, ok) =>
      if !Serving(st, s) then st
      else
        var r := HandleRelease(st.gate.cache, st.pool, gate, st.sessions[s].user, st.sessions[s].token, hosts, ports, ok);
        st.(gate := st.gate.(cache := r.cache), pool := r.pool)
    case Tick(s, w, capNow) =>
      if !Serving(st, s) then st
      else
        var r := HandleTick(st.gate, st.pool, gate, s, st.sessions[s].user, w.(token := st.sessions[s].token), capNow, sweeps);
        st.(gate := r.gate, pool := r.pool,
            sessions := st.sessions[s := st.sessions[s].(closing := r.close)])
    case Disconnect(s) =>
      if !Serving(st, s) then st else st.(sessions := st.sessions[s := st.sessions[s].(closing := true)])
    case End(s) =>
      st.(sessions := st.sessions - {s}, pool := st.pool.(routes := WithoutSession(st.pool.routes, s)))
    case AdminAddUser(name) =>
      st.(pool := st.pool.(ledger := AddUser(st.pool.ledger, name)))
    case AdminAddHost(name, userName, at) =>
      st.(pool := st.pool.(ledger := AddHost(st.pool.ledger, name, userName, at)))
    case AdminAddPort(port, userName, at) =>
      st.(pool := st.pool.(ledger := AddPort(st.pool.ledger, port, userName, at)))
    case AdminRemoveHost(name) =>
      st.(pool := st.pool.(ledger := st.pool.ledger.(hosts := st.pool.ledger.hosts - {name})))
    case AdminRemovePort(port) =>
      st.(pool := st.pool.(ledger := st.pool.ledger.(ports := st.pool.ledger.ports - {port})))
  }

  /** A relay that has just started: nothing cached, owned, routed or connected. */
  function Booted(domain: string, policy: Policy, instant: real): State {
    State(GateRuns.Start(policy, instant).gate, Pool(Ledger(domain, map[], map[], map[]), NO_ROUTES), map[], 1)
  }

  ghost function Run(st: State, gate: Option<Policy>, events: seq<Event>, sweeps: bool := true): State
    decreases |events|
  {
    if events == [] then st else Run(Step(st, gate, events[0], sweeps), gate, events[1..], sweeps)
  }
}
