/** What every run of the relay keeps, and what single requests guarantee. */
module RelayRuns {
  import opened Prelude
  import opened Labels
  import opened AgeOrder
  import opened Ownership
  import opened Routing
  import opened Licences
  import opened GateRuns
  import opened Enforcement
  import opened Relay

  // ----- claims: all or nothing for routes -----

  /** A port the relay can serve and the user holds. */
  predicate Claimable(r: Ledger, user: int, port: PortNumber, tcp: Tcp) {
    tcp.Enabled? && port in tcp.inRange && OwnsPort(r, user, port) && port in tcp.bindable
  }

  /** The port check passes exactly when the relay serves TCP and every port
      asked for is in range, reserved for the user and bindable. */
  lemma {:induction false} PortsPassIff(r: Ledger, user: int, ports: seq<PortNumber>, tcp: Tcp)
    ensures PortRefusal(r, user, ports, tcp).None? <==>
            forall i :: 0 <= i < |ports| ==> Claimable(r, user, ports[i], tcp)
  {
    if ports == [] {
    } else {
      var rest := ports[1..];
      PortsPassIff(r, user, rest, tcp);
      assert forall i :: 0 <= i < |rest| ==> rest[i] == ports[i + 1];
      if Claimable(r, user, ports[0], tcp) && forall i :: 0 <= i < |rest| ==> Claimable(r, user, rest[i], tcp) {
        assert forall i :: 0 < i < |ports| ==> ports[i] == rest[i - 1];
      }
    }
  }

  /** Registering and routing: a refusal leaves the routes alone; a grant routes
      and owns everything requested. Nobody loses a row either way. */
  lemma RegisterAndRouteFacts(c: Cache, p: Pool, who: Handle, cap: Option<int>,
                              hosts: seq<string>, ports: seq<PortNumber>, clock: nat -> int)
    ensures var r := RegisterAndRoute(c, p, who, cap, hosts, ports, clock);
            && r.cache == c
            && (r.reply.Denied? ==> r.pool.routes == p.routes)
            && (!r.reply.Denied? ==>
                  && r.reply == GrantedClaim(hosts, ports)
                  && r.pool.routes == Claimed(p.routes, who, hosts, ports)
                  && forall h :: h in hosts ==> OwnsHost(r.pool.ledger, who.user, h))
            && (forall u, h :: OwnsHost(p.ledger, u, h) ==> OwnsHost(r.pool.ledger, u, h))
            && r.pool.ledger.ports == p.ledger.ports
            && (RowIdsUnique(p.ledger) ==> RowIdsUnique(r.pool.ledger))
  {
    RegisterFromFacts(p.ledger, who.user, hosts, 0, cap, clock);
  }

  /** A claim as one step: a denied claim leaves every route as it was; a granted
      one owns and routes everything requested to the claiming session. */
  lemma ClaimIsAllOrNothing(c: Cache, p: Pool, gate: Option<Policy>, session: nat, user: User, token: string, i: ClaimInput)
    ensures var r := HandleClaim(c, p, gate, session, user, token, i);
            && (r.reply.Denied? ==> r.pool.routes == p.routes)
            && (!r.reply.Denied? ==>
                  && r.reply == GrantedClaim(LowerAll(i.hosts), i.ports)
                  && r.pool.routes == Claimed(p.routes, Handle(session, user.id), LowerAll(i.hosts), i.ports)
                  && (forall h :: h in LowerAll(i.hosts) ==> OwnsHost(r.pool.ledger, user.id, h))
                  && (forall n :: n in i.ports ==> Claimable(r.pool.ledger, user.id, n, i.tcp)))
            && (forall u, h :: OwnsHost(p.ledger, u, h) ==> OwnsHost(r.pool.ledger, u, h))
            && r.pool.ledger.ports == p.ledger.ports
            && (RowIdsUnique(p.ledger) ==> RowIdsUnique(r.pool.ledger))
  {
    var hosts := LowerAll(i.hosts);
    var who := Handle(session, user.id);
    PortsPassIff(p.ledger, user.id, i.ports, i.tcp);
    if gate.None? {
      RegisterAndRouteFacts(c, p, who, None, hosts, i.ports, i.clock);
    } else {
      var g := PassGate(c, p.routes, gate.value, user, token, hosts, i.ports, i.activate, i.now);
      if g.Passed? {
        RegisterAndRouteFacts(g.cache, p, who, g.cap, hosts, i.ports, i.clock);
      }
    }
  }

  /** The cap decision a claim is gated by. */
  ghost function ClaimCap(c: Cache, policy: Policy, user: User, token: string, i: ClaimInput): CapDecision {
    CapFor(EnsureActivated(c, policy, token, i.activate).cache, policy, user.name, i.now)
  }

  lemma PassedGateFitsCap(c: Cache, t: Routes, policy: Policy, user: User, token: string, session: nat,
                          hosts: seq<string>, ports: seq<PortNumber>, activate: ActivateAnswer, now: int)
    ensures var cap := CapFor(EnsureActivated(c, policy, token, activate).cache, policy, user.name, now);
            var g := PassGate(c, t, policy, user, token, hosts, ports, activate, now);
            && (cap.Cap? && g.Passed? ==>
                  g.cap == Some(cap.max) && LiveCount(Claimed(t, Handle(session, user.id), hosts, ports), user.id) <= cap.max)
            && (cap.DenyAll? ==> g.Refused?)
  {
    ProjectionIsExact(t, Handle(session, user.id), hosts, ports);
  }

  /** A claim granted under a cap of m leaves its user with at most m live routes
      and, unless they already owned more, at most m owned resources. */
  lemma GrantedClaimRespectsCap(c: Cache, p: Pool, policy: Policy, session: nat, user: User, token: string, i: ClaimInput)
    ensures var r := HandleClaim(c, p, Some(policy), session, user, token, i);
            var cap := ClaimCap(c, policy, user, token, i);
            && (cap.Cap? && !r.reply.Denied? ==> LiveCount(r.pool.routes, user.id) <= cap.max)
            && (cap.Cap? ==> Count(r.pool.ledger, user.id) <= Max(Count(p.ledger, user.id), cap.max))
            && (cap.DenyAll? ==> r.pool == p && r.reply.Denied?)
  {
    var hosts := LowerAll(i.hosts);
    PassedGateFitsCap(c, p.routes, policy, user, token, session, hosts, i.ports, i.activate, i.now);
    var g := PassGate(c, p.routes, policy, user, token, hosts, i.ports, i.activate, i.now);
    if g.Passed? {
      RegisterAndRouteCount(g.cache, p, Handle(session, user.id), g.cap, hosts, i.ports, i.clock);
    }
  }

  lemma RegisterAndRouteCount(c: Cache, p: Pool, who: Handle, cap: Option<int>,
                              hosts: seq<string>, ports: seq<PortNumber>, clock: nat -> int)
    ensures var r := RegisterAndRoute(c, p, who, cap, hosts, ports, clock);
            && (cap.Some? ==> Count(r.pool.ledger, who.user) <= Max(Count(p.ledger, who.user), cap.value))
            && (forall v :: v != who.user ==> Count(r.pool.ledger, v) == Count(p.ledger, v))
            && (!r.reply.Denied? ==> r.pool.routes == Claimed(p.routes, who, hosts, ports))
  {
    RegisterFromCount(p.ledger, who.user, hosts, 0, cap, clock, who.user);
    forall v | v != who.user ensures Count(RegisterFrom(p.ledger, who.user, hosts, 0, cap, clock).ledger, v) == Count(p.ledger, v) {
      RegisterFromCount(p.ledger, who.user, hosts, 0, cap, clock, v);
    }
  }

  /** A granted claim on a key that needs an activation has one afterwards, unless
      the backend could not be reached; a reached limit never grants. */
  lemma GrantedClaimIsActivated(c: Cache, p: Pool, policy: Policy, session: nat, user: User, token: string, i: ClaimInput)
    requires policy.activateOnClaim && token in c && c[token].granted
    ensures var r := HandleClaim(c, p, Some(policy), session, user, token, i);
            !r.reply.Denied? ==>
              && (c[token].activation.Some? || i.activate != LimitReached)
              && token in r.cache
              && (r.cache[token].activation.Some? || i.activate == ActivateUnavailable)
              && (c[token].activation.Some? ==> r.cache[token].activation == c[token].activation)
              && (c[token].activation.None? && i.activate.Activated? ==> r.cache[token].activation == Some(i.activate.id))
  {
    var hosts := LowerAll(i.hosts);
    var g := PassGate(c, p.routes, policy, user, token, hosts, i.ports, i.activate, i.now);
    if g.Passed? {
      RegisterAndRouteFacts(g.cache, p, Handle(session, user.id), g.cap, hosts, i.ports, i.clock);
    }
  }

  /** Fewer routes, none of them changed. */
  ghost predicate Shrinks(before: Routes, after: Routes) {
    && (forall h :: h in after.http ==> h in before.http && after.http[h] == before.http[h])
    && (forall n :: n in after.tcp ==> n in before.tcp && after.tcp[n] == before.tcp[n])
  }

  // ----- releases: exactly what was owned and asked for -----

  /** A release reports exactly what its caller owned among what was asked for;
      afterwards none of it is owned or routed, and every other ownership and
      route is as before. The key's activation is given up, and the cache touched
      at all, exactly when the last resource goes and the backend confirms. */
  lemma ReleaseIsExact(c: Cache, p: Pool, gate: Option<Policy>, user: User, token: string,
                       hosts: seq<string>, ports: seq<PortNumber>, ok: bool)
    requires |hosts| + |ports| <= MAX_CLAIM_ENTRIES
    ensures var r := HandleRelease(c, p, gate, user, token, hosts, ports, ok);
            && r.reply.Released?
            && (forall h :: h in r.reply.goneHosts <==> h in LowerAll(hosts) && OwnsHost(p.ledger, user.id, h))
            && (forall n :: n in r.reply.gonePorts <==> n in ports && OwnsPort(p.ledger, user.id, n))
            && (forall u, h :: OwnsHost(r.pool.ledger, u, h) <==> OwnsHost(p.ledger, u, h) && !(u == user.id && h in r.reply.goneHosts))
            && (forall u, n :: OwnsPort(r.pool.ledger, u, n) <==> OwnsPort(p.ledger, u, n) && !(u == user.id && n in r.reply.gonePorts))
            && (forall h :: h in r.pool.routes.http <==> h in p.routes.http && h !in r.reply.goneHosts)
            && (forall n :: n in r.pool.routes.tcp <==> n in p.routes.tcp && n !in r.reply.gonePorts)
            && Shrinks(p.routes, r.pool.routes)
            && (var last := gate.Some? && (r.reply.goneHosts != {} || r.reply.gonePorts != {}) && Count(r.pool.ledger, user.id) == 0;
                r.cache == if last && ok && token in c then c[token := c[token].(activation := None)] else c)
  {
    ReleaseFacts(p.ledger, user.id, LowerAll(hosts), ports);
  }

  // ----- the invariant of every run -----

  /** Routes lead to sessions that exist and belong to the user they claim. */
  ghost predicate RoutesServed(st: State) {
    && (forall h :: h in st.pool.routes.http ==>
          st.pool.routes.http[h].session in st.sessions
          && st.sessions[st.pool.routes.http[h].session].user.id == st.pool.routes.http[h].user)
    && (forall n :: n in st.pool.routes.tcp ==>
          st.pool.routes.tcp[n].session in st.sessions
          && st.sessions[st.pool.routes.tcp[n].session].user.id == st.pool.routes.tcp[n].user)
    && (forall s :: s in st.sessions ==> s < st.nextSession)
  }

  lemma ResolveUserKeeps(p: Pool, name: string)
    ensures var r := ResolveUser(p.ledger, name).ledger;
            && r.hosts == p.ledger.hosts && r.ports == p.ledger.ports && r.domain == p.ledger.domain
            && (RoutesOwned(p) ==> RoutesOwned(p.(ledger := r)))
            && (RowIdsUnique(p.ledger) ==> RowIdsUnique(r))
            && (forall u :: Count(r, u) == Count(p.ledger, u))
  {
  }

  lemma EnforceShrinks(p: Pool, c: Cache, policy: Policy, user: User, cap: int, now: int, v: int)
    ensures var q := Enforce(p, c, policy, user, cap, now);
            Shrinks(p.routes, q.routes) && Count(q.ledger, v) <= Count(p.ledger, v)
            && (RowIdsUnique(p.ledger) ==> RowIdsUnique(q.ledger))
  {
    var pooled := ResolveCap(c, user.name, SaturatingSub(now, policy.pruneGrace), now);
    if pooled.Cap? {
      PruneCount(p.ledger, user.id, Max(pooled.max, cap), v);
      PruneOwnership(p.ledger, user.id, Max(pooled.max, cap));
    }
  }

  /** Authentication only ever removes: no route appears, nobody's owned count
      grows, and owned routes stay owned. */
  lemma AuthenticateAnyKeeps(g: Gate, p: Pool, gate: Option<Policy>, w: Presented, v: int)
    ensures var a := AuthenticateAny(g, p, gate, w);
            && Shrinks(p.routes, a.pool.routes)
            && Count(a.pool.ledger, v) <= Count(p.ledger, v)
            && (RowIdsUnique(p.ledger) ==> RowIdsUnique(a.pool.ledger))
            && (RoutesOwned(p) ==> RoutesOwned(a.pool))
  {
    if w.local.None? && gate.Some? {
      var policy := gate.value;
      var e := Authenticate(w.token, w.now, w.instant, w.reply);
      var g' := GateStep(g, policy, e, true);
      var verdict := ReplyTo(g, policy, e, true).verdict;
      if verdict.Customer().Some? {
        ResolveUserKeeps(p, verdict.Customer().value);
        var r := ResolveUser(p.ledger, verdict.Customer().value);
        var p1 := p.(ledger := r.ledger);
        if verdict.Admit? && r.user.Some? {
          EnforceShrinks(p1, g'.cache, policy, r.user.value, verdict.cap, w.now, v);
          if RoutesOwned(p) {
            EnforceKeepsRoutesOwned(p1, g'.cache, policy, r.user.value, verdict.cap, w.now);
          }
        }
      }
    }
  }

  lemma ReleaseKeepsRoutesOwned(p: Pool, user: int, hosts: seq<string>, ports: seq<PortNumber>)
    requires RoutesOwned(p)
    ensures RoutesOwned(Pool(Release(p.ledger, user, hosts, ports),
                             Evicted(p.routes, ReleasableHosts(p.ledger, user, hosts), ReleasablePorts(p.ledger, user, ports))))
  {
    ReleaseFacts(p.ledger, user, hosts, ports);
  }

  lemma ServedByMoreSessions(st: State, st': State)
    requires RoutesServed(st) && Shrinks(st.pool.routes, st'.pool.routes)
    requires forall s :: s in st.sessions ==> s in st'.sessions && st'.sessions[s].user == st.sessions[s].user
    requires forall s :: s in st'.sessions ==> s < st'.nextSession
    ensures RoutesServed(st')
  {
  }

  lemma ServedAfterClaim(st: State, st': State, s: nat, hosts: seq<string>, ports: seq<PortNumber>)
    requires RoutesServed(st) && s in st.sessions && st'.sessions == st.sessions && st'.nextSession == st.nextSession
    requires st'.pool.routes == Claimed(st.pool.routes, Handle(s, st.sessions[s].user.id), hosts, ports)
    ensures RoutesServed(st')
  {
  }

  lemma ServedAfterEnd(st: State, st': State, s: nat)
    requires RoutesServed(st) && st'.sessions == st.sessions - {s} && st'.nextSession == st.nextSession
    requires st'.pool.routes == WithoutSession(st.pool.routes, s)
    ensures RoutesServed(st')
  {
  }

  lemma ClaimRequestKeepsServed(st: State, gate: Option<Policy>, s: nat, i: ClaimInput)
    requires RoutesServed(st)
    ensures RoutesServed(Step(st, gate, ClaimRequest(s, i)))
  {
    if Serving(st, s) {
      var x := st.sessions[s];
      var r := HandleClaim(st.gate.cache, st.pool, gate, s, x.user, x.token, i);
      ClaimIsAllOrNothing(st.gate.cache, st.pool, gate, s, x.user, x.token, i);
      if !r.reply.Denied? {
        ServedAfterClaim(st, st.(gate := st.gate.(cache := r.cache), pool := r.pool), s, LowerAll(i.hosts), i.ports);
      }
    }
  }

  lemma ReleaseRequestKeepsServed(st: State, gate: Option<Policy>, s: nat, hosts: seq<string>, ports: seq<PortNumber>, ok: bool)
    requires RoutesServed(st)
    ensures RoutesServed(Step(st, gate, ReleaseRequest(s, hosts, ports, ok)))
  {
    ServedByMoreSessions(st, Step(st, gate, ReleaseRequest(s, hosts, ports, ok)));
  }

  lemma ConnectKeepsServed(st: State, gate: Option<Policy>, w: Presented)
    requires RoutesServed(st)
    ensures RoutesServed(Step(st, gate, Connect(w)))
  {
    AuthenticateAnyKeeps(st.gate, st.pool, gate, w, 0);
    ServedByMoreSessions(st, Step(st, gate, Connect(w)));
  }

  /** One step keeps routes served, whatever the event. */
  lemma StepKeepsServed(st: State, gate: Option<Policy>, e: Event)
    requires RoutesServed(st)
    ensures RoutesServed(Step(st, gate, e))
  {
    var st' := Step(st, gate, e);
    match e
    case Connect(w) => ConnectKeepsServed(st, gate, w);
    case ClaimRequest(s, i) => ClaimRequestKeepsServed(st, gate, s, i);
    case Tick(s, w, capNow) =>
      if Serving(st, s) {
        AuthenticateAnyKeeps(st.gate, st.pool, gate, w.(token := st.sessions[s].token), 0);
        ServedByMoreSessions(st, st');
      }
    case End(s) => ServedAfterEnd(st, st', s);
    case ReleaseRequest(s, hosts, ports, ok) => ReleaseRequestKeepsServed(st, gate, s, hosts, ports, ok);
    case Disconnect(s) =>
      assert forall x :: x in st.sessions ==> x in st'.sessions && st'.sessions[x].user == st.sessions[x].user;
    case AdminAddUser(name) =>
    case AdminAddHost(name, userName, at) =>
    case AdminAddPort(port, userName, at) =>
    case AdminRemoveHost(name) =>
    case AdminRemovePort(port) =>
  }

  /** Row ids stay unique, whatever the event. */
  lemma StepKeepsIdsUnique(st: State, gate: Option<Policy>, e: Event)
    requires RowIdsUnique(st.pool.ledger)
    ensures RowIdsUnique(Step(st, gate, e).pool.ledger)
  {
    match e
    case Connect(w) => AuthenticateAnyKeeps(st.gate, st.pool, gate, w, 0);
    case ClaimRequest(s, i) =>
      if Serving(st, s) {
        ClaimIsAllOrNothing(st.gate.cache, st.pool, gate, s, st.sessions[s].user, st.sessions[s].token, i);
      }
    case ReleaseRequest(s, hosts, ports, ok) =>
      if Serving(st, s) {
        ReleaseFacts(st.pool.ledger, st.sessions[s].user.id, LowerAll(hosts), ports);
      }
    case Tick(s, w, capNow) =>
      if Serving(st, s) {
        AuthenticateAnyKeeps(st.gate, st.pool, gate, w.(token := st.sessions[s].token), 0);
      }
    case AdminAddUser(name) => ResolveUserKeeps(st.pool, name);
    case AdminAddHost(name, userName, at) =>
      assert forall l :: l in st.pool.ledger.hosts ==> st.pool.ledger.hosts[l].id in RowIds(st.pool.ledger.hosts);
    case Disconnect(s) =>
    case End(s) =>
    case AdminAddPort(port, userName, at) =>
    case AdminRemoveHost(name) =>
    case AdminRemovePort(port) =>
  }

  /** In every run, admin removals included, no route outlives its session or
      changes its user, and row ids stay unique. */
  lemma {:induction false} RunKeepsServed(st: State, gate: Option<Policy>, events: seq<Event>)
    requires RoutesServed(st) && RowIdsUnique(st.pool.ledger)
    ensures RoutesServed(Run(st, gate, events)) && RowIdsUnique(Run(st, gate, events).pool.ledger)
    decreases |events|
  {
    if events == [] {
    } else {
      StepKeepsServed(st, gate, events[0]);
      StepKeepsIdsUnique(st, gate, events[0]);
      RunKeepsServed(Step(st, gate, events[0]), gate, events[1..]);
    }
  }

  lemma ClaimKeepsRoutesOwned(c: Cache, p: Pool, gate: Option<Policy>, session: nat, user: User, token: string, i: ClaimInput)
    requires RoutesOwned(p)
    ensures RoutesOwned(HandleClaim(c, p, gate, session, user, token, i).pool)
  {
    ClaimIsAllOrNothing(c, p, gate, session, user, token, i);
  }

  /** An admin's reservation succeeds exactly for a free, valid name and a known
      user, and adds one row: theirs, dated when it was made. */
  lemma AdminAddsOneRow(r: Ledger, name: string, port: PortNumber, userName: string, at: int)
    ensures var q := AddHost(r, name, userName, at);
            if ValidLabel(name) && userName in r.users && name !in r.hosts
            then && q == r.(hosts := q.hosts) && q.hosts.Keys == r.hosts.Keys + {name}
                 && q.hosts[name].user == r.users[userName] && q.hosts[name].createdAt == at
                 && (forall l :: l in r.hosts ==> q.hosts[l] == r.hosts[l] && r.hosts[l].id < q.hosts[name].id)
            else q == r
    ensures var q := AddPort(r, port, userName, at);
            if userName in r.users && port !in r.ports
            then && q == r.(ports := q.ports) && q.ports.Keys == r.ports.Keys + {port}
                 && q.ports[port] == PortRow(r.users[userName], at)
                 && (forall n :: n in r.ports ==> q.ports[n] == r.ports[n])
            else q == r
  {
    assert forall l :: l in r.hosts ==> r.hosts[l].id in RowIds(r.hosts);
  }

  /** An admin's removal deletes exactly the named row and touches no route. */
  lemma AdminRemovesOneRow(st: State, gate: Option<Policy>, name: string, port: PortNumber)
    ensures var q := Step(st, gate, AdminRemoveHost(name));
            && q == st.(pool := st.pool.(ledger := st.pool.ledger.(hosts := q.pool.ledger.hosts)))
            && (forall l :: l in q.pool.ledger.hosts <==> l in st.pool.ledger.hosts && l != name)
            && (forall l :: l in q.pool.ledger.hosts ==> q.pool.ledger.hosts[l] == st.pool.ledger.hosts[l])
    ensures var q := Step(st, gate, AdminRemovePort(port));
            && q == st.(pool := st.pool.(ledger := st.pool.ledger.(ports := q.pool.ledger.ports)))
            && (forall n :: n in q.pool.ledger.ports <==> n in st.pool.ledger.ports && n != port)
            && (forall n :: n in q.pool.ledger.ports ==> q.pool.ledger.ports[n] == st.pool.ledger.ports[n])
  {
  }

  lemma AdminAddKeepsRoutesOwned(p: Pool, r: Ledger)
    requires RoutesOwned(p) && r.domain == p.ledger.domain
    requires forall l :: l in p.ledger.hosts ==> l in r.hosts && r.hosts[l] == p.ledger.hosts[l]
    requires forall n :: n in p.ledger.ports ==> n in r.ports && r.ports[n] == p.ledger.ports[n]
    ensures RoutesOwned(p.(ledger := r))
  {
  }

  /** One step other than an admin removal keeps every route owned by the user
      of the session it leads to. */
  lemma StepKeepsRoutesOwned(st: State, gate: Option<Policy>, e: Event)
    requires RoutesOwned(st.pool) && !IsAdminRemoval(e)
    ensures RoutesOwned(Step(st, gate, e).pool)
  {
    match e
    case Connect(w) => AuthenticateAnyKeeps(st.gate, st.pool, gate, w, 0);
    case ClaimRequest(s, i) =>
      if Serving(st, s) {
        ClaimKeepsRoutesOwned(st.gate.cache, st.pool, gate, s, st.sessions[s].user, st.sessions[s].token, i);
      }
    case ReleaseRequest(s, hosts, ports, ok) =>
      if Serving(st, s) {
        ReleaseKeepsRoutesOwned(st.pool, st.sessions[s].user.id, LowerAll(hosts), ports);
      }
    case Tick(s, w, capNow) =>
      if Serving(st, s) {
        AuthenticateAnyKeeps(st.gate, st.pool, gate, w.(token := st.sessions[s].token), 0);
      }
    case Disconnect(s) =>
    case End(s) =>
    case AdminAddUser(name) => ResolveUserKeeps(st.pool, name);
    case AdminAddHost(name, userName, at) =>
      AdminAddKeepsRoutesOwned(st.pool, AddHost(st.pool.ledger, name, userName, at));
    case AdminAddPort(port, userName, at) =>
      AdminAddKeepsRoutesOwned(st.pool, AddPort(st.pool.ledger, port, userName, at));
  }

  /** In every run of handshakes, claims, releases, ticks, enforcement, session
      ends and admin grants: each routed hostname or port is owned in the ledger
      by the user of the live session it leads to. */
  lemma {:induction false} RoutesStayOwned(st: State, gate: Option<Policy>, events: seq<Event>)
    requires RoutesOwned(st.pool) && RoutesServed(st) && RowIdsUnique(st.pool.ledger)
    requires forall i :: 0 <= i < |events| ==> !IsAdminRemoval(events[i])
    ensures RoutesOwned(Run(st, gate, events).pool) && RoutesServed(Run(st, gate, events))
    ensures RowIdsUnique(Run(st, gate, events).pool.ledger)
    decreases |events|
  {
    if events == [] {
    } else {
      StepKeepsRoutesOwned(st, gate, events[0]);
      StepKeepsServed(st, gate, events[0]);
      StepKeepsIdsUnique(st, gate, events[0]);
      RoutesStayOwned(Step(st, gate, events[0]), gate, events[1..]);
    }
  }

  /** In particular from start-up. */
  lemma RoutesStayOwnedFromStart(domain: string, policy: Policy, instant: real, gate: Option<Policy>, events: seq<Event>)
    requires forall i :: 0 <= i < |events| ==> !IsAdminRemoval(events[i])
    ensures var st := Run(Booted(domain, policy, instant), gate, events);
            RoutesOwned(st.pool) && RoutesServed(st) && RowIdsUnique(st.pool.ledger)
  {
    RoutesStayOwned(Booted(domain, policy, instant), gate, events);
  }

  // ----- admin removals and the tick -----

  /** The hostnames (or ports) routed to one session are its user's. */
  ghost predicate SessionHostsOwned(p: Pool, session: nat, user: int) {
    forall h :: h in Scan(p.routes, session).hosts ==> OwnsHost(p.ledger, user, h)
  }

  ghost predicate SessionPortsOwned(p: Pool, session: nat, user: int) {
    forall n :: n in Scan(p.routes, session).ports ==> OwnsPort(p.ledger, user, n)
  }

  /** One tick repairs whatever admin removals did to a session's hostnames: if
      the session survives, all its routed hostnames are owned again; if it is
      closed, its end leaves it no route at all. Nothing is assumed about the
      state before. */
  lemma TickRestoresHosts(st: State, gate: Option<Policy>, s: nat, w: Presented, capNow: int)
    requires Serving(st, s)
    ensures var st' := Step(st, gate, Tick(s, w, capNow));
            && (!st'.sessions[s].closing ==> SessionHostsOwned(st'.pool, s, st.sessions[s].user.id))
            && (st'.sessions[s].closing ==> Scan(Step(st', gate, End(s)).pool.routes, s) == EMPTY_CLAIM)
  {
    var st' := Step(st, gate, Tick(s, w, capNow));
    var routes := WithoutSession(st'.pool.routes, s);
    assert Scan(routes, s).hosts == {} && Scan(routes, s).ports == {};
  }

  /** Without a fresh grant, authentication leaves rows and routes alone. */
  lemma AuthenticateKeepsPool(g: Gate, p: Pool, gate: Option<Policy>, w: Presented)
    requires w.local.Some? || !w.reply.Granted?
    ensures var q := AuthenticateAny(g, p, gate, w).pool;
            q.routes == p.routes && q.ledger.hosts == p.ledger.hosts && q.ledger.ports == p.ledger.ports
            && q.ledger.domain == p.ledger.domain
  {
  }

  /** A tick takes no more than it must: it stops exactly the session's routes to
      hostnames its user no longer owns, and without a fresh grant touches no row
      and no other route. */
  lemma TickStopsOnlyRevoked(st: State, gate: Option<Policy>, s: nat, w: Presented, capNow: int)
    requires Serving(st, s) && (w.local.Some? || !w.reply.Granted?)
    ensures var q, x := Step(st, gate, Tick(s, w, capNow)).pool, st.sessions[s];
            && q.ledger.hosts == st.pool.ledger.hosts && q.ledger.ports == st.pool.ledger.ports
            && q.routes.tcp == st.pool.routes.tcp
            && Shrinks(st.pool.routes, q.routes)
            && (forall h :: h in st.pool.routes.http && h !in q.routes.http ==>
                  st.pool.routes.http[h].session == s && !OwnsHost(st.pool.ledger, x.user.id, h))
  {
    AuthenticateKeepsPool(st.gate, st.pool, gate, w.(token := st.sessions[s].token));
  }

  lemma ReconcileKeepsPorts(p: Pool, session: nat, user: int, cap: int)
    ensures SessionPortsOwned(Reconcile(p, user, cap), session, user) <==> SessionPortsOwned(p, session, user)
  {
    var q, over := Reconcile(p, user, cap), OverCap(Items(p.ledger, user), cap);
    PruneOwnership(p.ledger, user, cap);
    OverCapPortsAreOwned(p.ledger, user, over);
    forall n | n in Scan(p.routes, session).ports && !OwnsPort(p.ledger, user, n)
      ensures n in Scan(q.routes, session).ports && !OwnsPort(q.ledger, user, n)
    {
    }
    if SessionPortsOwned(q, session, user) {
      forall n | n in Scan(p.routes, session).ports ensures OwnsPort(p.ledger, user, n) {
      }
    }
  }

  lemma EvictOverKeepsPorts(p: Pool, session: nat, user: int, cap: int)
    ensures SessionPortsOwned(EvictOver(p, user, cap), session, user) <==> SessionPortsOwned(p, session, user)
  {
    var q, over := EvictOver(p, user, cap), OverCap(Items(p.ledger, user), cap);
    OverCapPortsAreOwned(p.ledger, user, over);
    forall n | n in Scan(p.routes, session).ports && !OwnsPort(p.ledger, user, n)
      ensures n in Scan(q.routes, session).ports
    {
    }
  }

  lemma OverCapPortsAreOwned(r: Ledger, user: int, over: set<Item>)
    requires over <= Items(r, user)
    ensures forall n :: n in PortsIn(over) ==> OwnsPort(r, user, n)
  {
    forall n | n in PortsIn(over) ensures OwnsPort(r, user, n) {
      var x :| x in over && x.PortItem? && x.port == n;
      ItemOfHost(r, user, x);
    }
  }

  /** Enforcement on a user neither repairs nor breaks the ownership of the ports
      routed to that user's sessions. */
  lemma EnforceKeepsPorts(p: Pool, c: Cache, policy: Policy, user: User, cap: int, now: int, session: nat)
    ensures SessionPortsOwned(Enforce(p, c, policy, user, cap, now), session, user.id) <==> SessionPortsOwned(p, session, user.id)
  {
    var pooled := ResolveCap(c, user.name, SaturatingSub(now, policy.pruneGrace), now);
    var live := ResolveCap(c, user.name, SaturatingSub(now, policy.staleness), now);
    var p1 := if pooled.Cap? then Reconcile(p, user.id, Max(pooled.max, cap)) else p;
    if pooled.Cap? {
      ReconcileKeepsPorts(p, session, user.id, Max(pooled.max, cap));
    }
    if live.Cap? {
      EvictOverKeepsPorts(p1, session, user.id, Max(live.max, cap));
    }
  }

  lemma AuthenticateKeepsPorts(g: Gate, p: Pool, gate: Option<Policy>, w: Presented, session: nat)
    ensures var a := AuthenticateAny(g, p, gate, w);
            a.user.Some? ==> (SessionPortsOwned(a.pool, session, a.user.value.id) <==> SessionPortsOwned(p, session, a.user.value.id))
  {
    var a := AuthenticateAny(g, p, gate, w);
    if w.local.None? && gate.Some? && a.user.Some? {
      var e := Authenticate(w.token, w.now, w.instant, w.reply);
      var verdict := ReplyTo(g, gate.value, e, true).verdict;
      ResolveUserKeeps(p, verdict.Customer().value);
      var p1 := p.(ledger := ResolveUser(p.ledger, verdict.Customer().value).ledger);
      assert SessionPortsOwned(p1, session, a.user.value.id) <==> SessionPortsOwned(p, session, a.user.value.id);
      if verdict.Admit? {
        EnforceKeepsPorts(p1, GateStep(g, gate.value, e, true).cache, gate.value, a.user.value, verdict.cap, w.now, session);
      }
    }
  }

  /** Ports are not re-checked: a tick that keeps the session leaves all its
      routes owned exactly when the ports routed to it were all owned before the
      tick. */
  lemma TickRestoresAllIffPortsOwned(st: State, gate: Option<Policy>, s: nat, w: Presented, capNow: int)
    requires Serving(st, s)
    ensures var st' := Step(st, gate, Tick(s, w, capNow));
            var user := st.sessions[s].user.id;
            !st'.sessions[s].closing ==>
              (SessionHostsOwned(st'.pool, s, user) && SessionPortsOwned(st'.pool, s, user)
               <==> SessionPortsOwned(st.pool, s, user))
  {
    TickRestoresHosts(st, gate, s, w, capNow);
    var w' := w.(token := st.sessions[s].token);
    AuthenticateKeepsPorts(st.gate, st.pool, gate, w', s);
    var a := AuthenticateAny(st.gate, st.pool, gate, w');
    var st' := Step(st, gate, Tick(s, w, capNow));
    if !st'.sessions[s].closing {
      assert Scan(st'.pool.routes, s).ports == Scan(a.pool.routes, s).ports;
    }
  }

  // ----- witnesses from start-up, without a gate -----

  const OPERATOR := User(1, "u")
  const LOCAL_LOGIN := Presented(Some(OPERATOR), "t", 1, 0.0, Unavailable)

  /** Provision an account and a port, connect, and claim the port. */
  const CLAIM_A_PORT: seq<Event> :=
    [AdminAddUser("u"), AdminAddPort(7, "u", 0), Connect(LOCAL_LOGIN),
     ClaimRequest(1, ClaimInput([], [7], Enabled({7}, {7}), ActivateUnavailable, 1, (i: nat) => 1))]

  lemma {:induction false} RunAppend(st: State, gate: Option<Policy>, a: seq<Event>, b: seq<Event>)
    ensures Run(st, gate, a + b) == Run(Run(st, gate, a), gate, b)
    decreases |a|
  {
    if a == [] {
      assert a + b == b;
    } else {
      assert (a + b)[1..] == a[1..] + b;
      RunAppend(Step(st, gate, a[0]), gate, a[1..], b);
    }
  }

  lemma RunTwo(st: State, gate: Option<Policy>, e1: Event, e2: Event)
    ensures Run(st, gate, [e1, e2]) == Step(Step(st, gate, e1), gate, e2)
  {
    assert [e1, e2][1..] == [e2] && [e2][1..] == [];
    assert Run(Step(st, gate, e1), gate, [e2]) == Step(Step(st, gate, e1), gate, e2);
  }

  /** The self-host relay does serve routes: this run from start-up ends with the
      port routed and owned. */
  lemma SelfHostRunServesPort(policy: Policy, instant: real)
    ensures Run(Booted("d", policy, instant), None, CLAIM_A_PORT) ==
            State(GateRuns.Start(policy, instant).gate,
                  Pool(Ledger("d", map["u" := 1], map[], map[7 := PortRow(1, 0)]), Routes(map[], map[7 := Handle(1, 1)])),
                  map[1 := Session(OPERATOR, "t", false, false)], 2)
  {
    var st := Booted("d", policy, instant);
    var e1, e2, e3, e4 := CLAIM_A_PORT[0], CLAIM_A_PORT[1], CLAIM_A_PORT[2], CLAIM_A_PORT[3];
    RunAppend(st, None, [e1, e2], [e3, e4]);
    assert CLAIM_A_PORT == [e1, e2] + [e3, e4];
    RunTwo(st, None, e1, e2);
    var st2 := Run(st, None, [e1, e2]);
    assert st2.pool.ledger == Ledger("d", map["u" := 1], map[], map[7 := PortRow(1, 0)]);
    RunTwo(st2, None, e3, e4);
    var st3 := Step(st2, None, e3);
    PortClaim(st3.gate.cache, st3.pool, 1, OPERATOR, "t", e4.input);
  }

  /** A claim of one port that is in range, owned and bindable, without a gate. */
  lemma PortClaim(c: Cache, p: Pool, session: nat, user: User, token: string, i: ClaimInput)
    requires i.hosts == [] && |i.ports| == 1 && Claimable(p.ledger, user.id, i.ports[0], i.tcp)
    ensures HandleClaim(c, p, None, session, user, token, i) ==
            ClaimStep(c, p.(routes := Routes(p.routes.http, p.routes.tcp[i.ports[0] := Handle(session, user.id)])), GrantedClaim([], i.ports))
  {
    PortsPassIff(p.ledger, user.id, i.ports, i.tcp);
    assert LowerAll([]) == [];
    var t := Claimed(p.routes, Handle(session, user.id), [], i.ports);
    assert t.http == p.routes.http;
    assert t.tcp == p.routes.tcp[i.ports[0] := Handle(session, user.id)];
  }

  /** A concrete failure, from start-up: an admin takes the routed port away and
      the next tick, which succeeds, still leaves the port routed. */
  lemma TickKeepsRevokedPort(policy: Policy, instant: real)
    ensures var st' := Run(Booted("d", policy, instant), None, CLAIM_A_PORT + [AdminRemovePort(7), Tick(1, LOCAL_LOGIN, 1)]);
            && 1 in st'.sessions && !st'.sessions[1].closing
            && 7 in st'.pool.routes.tcp && 7 !in st'.pool.ledger.ports && !RoutesOwned(st'.pool)
  {
    var st := Booted("d", policy, instant);
    RunAppend(st, None, CLAIM_A_PORT, [AdminRemovePort(7), Tick(1, LOCAL_LOGIN, 1)]);
    SelfHostRunServesPort(policy, instant);
    RunTwo(Run(st, None, CLAIM_A_PORT), None, AdminRemovePort(7), Tick(1, LOCAL_LOGIN, 1));
  }

  // ----- sessions -----

  /** `y` is the session `x` later on: the same user and credential, and never
      open again once closing. */
  predicate SameSession(x: Session, y: Session) {
    y.user == x.user && y.token == x.token && y.licensed == x.licensed && (x.closing ==> y.closing)
  }

  lemma StepKeepsSession(st: State, gate: Option<Policy>, e: Event, s: nat)
    requires s in st.sessions && s < st.nextSession && e != End(s)
    ensures var st' := Step(st, gate, e);
            s in st'.sessions && s < st'.nextSession && SameSession(st.sessions[s], st'.sessions[s])
  {
  }

  lemma {:induction false} RunKeepsSession(st: State, gate: Option<Policy>, events: seq<Event>, s: nat)
    requires s in st.sessions && s < st.nextSession
    requires forall i :: 0 <= i < |events| ==> events[i] != End(s)
    ensures var st' := Run(st, gate, events);
            s in st'.sessions && s < st'.nextSession && SameSession(st.sessions[s], st'.sessions[s])
    decreases |events|
  {
    if events == [] {
    } else {
      assert events[0] != End(s);
      StepKeepsSession(st, gate, events[0], s);
      RunKeepsSession(Step(st, gate, events[0]), gate, events[1..], s);
    }
  }

  /** A session keeps its user and its credential until it ends, over every run;
      once disconnected it is never served again. */
  lemma SessionsKeepIdentity(st: State, gate: Option<Policy>, events: seq<Event>, s: nat)
    requires s in st.sessions && s < st.nextSession
    requires forall i :: 0 <= i < |events| ==> events[i] != End(s)
    ensures var st' := Run(st, gate, events);
            s in st'.sessions && s < st'.nextSession && SameSession(st.sessions[s], st'.sessions[s])
    ensures !Serving(Run(Step(st, gate, Disconnect(s)), gate, events), s)
  {
    RunKeepsSession(st, gate, events, s);
    RunKeepsSession(Step(st, gate, Disconnect(s)), gate, events, s);
  }

  // ----- the repair lasts -----

  /** What a repaired session keeps: its routed hostnames are its user's, and its
      id is not given out again. */
  ghost predicate Repaired(st: State, s: nat, user: int) {
    && SessionHostsOwned(st.pool, s, user)
    && s < st.nextSession
    && (s in st.sessions ==> st.sessions[s].user.id == user)
  }

  /** Fewer routes and, for each one left, no ownership lost. */
  lemma FewerRoutesStayOwned(p: Pool, q: Pool, s: nat, user: int)
    requires SessionHostsOwned(p, s, user) && Shrinks(p.routes, q.routes)
    requires forall h :: h in q.routes.http && OwnsHost(p.ledger, user, h) ==> OwnsHost(q.ledger, user, h)
    ensures SessionHostsOwned(q, s, user)
  {
    forall h | h in Scan(q.routes, s).hosts ensures OwnsHost(q.ledger, user, h) {
      assert h in Scan(p.routes, s).hosts;
    }
  }

  /** Pruning takes a route down together with the ownership behind it. */
  lemma ReconcileKeepsRouted(p: Pool, user: int, cap: int, v: int)
    ensures var q := Reconcile(p, user, cap);
            Shrinks(p.routes, q.routes) && forall h :: h in q.routes.http && OwnsHost(p.ledger, v, h) ==> OwnsHost(q.ledger, v, h)
  {
    var q, over := Reconcile(p, user, cap), OverCap(Items(p.ledger, user), cap);
    PruneOwnership(p.ledger, user, cap);
    forall h | h in q.routes.http && OwnsHost(p.ledger, v, h) ensures OwnsHost(q.ledger, v, h) {
      var l := LabelOf(p.ledger.domain, h).value;
      LabelOfInvertsFqdn(p.ledger.domain, h, l);
      assert l in LabelsIn(over) ==> h in Fqdns(p.ledger.domain, LabelsIn(over));
    }
  }

  lemma AuthenticateKeepsRouted(g: Gate, p: Pool, gate: Option<Policy>, w: Presented, s: nat, v: int)
    requires SessionHostsOwned(p, s, v)
    ensures SessionHostsOwned(AuthenticateAny(g, p, gate, w).pool, s, v)
  {
    if w.local.None? && gate.Some? {
      var e := Authenticate(w.token, w.now, w.instant, w.reply);
      var verdict := ReplyTo(g, gate.value, e, true).verdict;
      if verdict.Customer().Some? {
        ResolveUserKeeps(p, verdict.Customer().value);
        var r := ResolveUser(p.ledger, verdict.Customer().value);
        var p1 := p.(ledger := r.ledger);
        assert SessionHostsOwned(p1, s, v);
        if verdict.Admit? && r.user.Some? {
          EnforceKeepsRouted(p1, GateStep(g, gate.value, e, true).cache, gate.value, r.user.value, verdict.cap, w.now, s, v);
        }
      }
    }
  }

  lemma EnforceKeepsRouted(p: Pool, c: Cache, policy: Policy, user: User, cap: int, now: int, s: nat, v: int)
    requires SessionHostsOwned(p, s, v)
    ensures SessionHostsOwned(Enforce(p, c, policy, user, cap, now), s, v)
  {
    var pooled := ResolveCap(c, user.name, SaturatingSub(now, policy.pruneGrace), now);
    var p1 := if pooled.Cap? then Reconcile(p, user.id, Max(pooled.max, cap)) else p;
    if pooled.Cap? {
      ReconcileKeepsRouted(p, user.id, Max(pooled.max, cap), v);
      FewerRoutesStayOwned(p, p1, s, v);
    }
    FewerRoutesStayOwned(p1, Enforce(p, c, policy, user, cap, now), s, v);
  }

  lemma ClaimKeepsRouted(c: Cache, p: Pool, gate: Option<Policy>, session: nat, user: User, token: string, i: ClaimInput, s: nat, v: int)
    requires SessionHostsOwned(p, s, v) && (session == s ==> user.id == v)
    ensures SessionHostsOwned(HandleClaim(c, p, gate, session, user, token, i).pool, s, v)
  {
    ClaimIsAllOrNothing(c, p, gate, session, user, token, i);
    var r := HandleClaim(c, p, gate, session, user, token, i);
    forall h | h in Scan(r.pool.routes, s).hosts ensures OwnsHost(r.pool.ledger, v, h) {
      if h !in Scan(p.routes, s).hosts {
        assert !r.reply.Denied? && h in LowerAll(i.hosts) && session == s;
      }
    }
  }

  lemma ReleaseKeepsRouted(p: Pool, user: int, hosts: seq<string>, ports: seq<PortNumber>, s: nat, v: int)
    requires SessionHostsOwned(p, s, v)
    ensures SessionHostsOwned(Pool(Release(p.ledger, user, hosts, ports),
                                   Evicted(p.routes, ReleasableHosts(p.ledger, user, hosts), ReleasablePorts(p.ledger, user, ports))), s, v)
  {
    ReleaseFacts(p.ledger, user, hosts, ports);
    FewerRoutesStayOwned(p, Pool(Release(p.ledger, user, hosts, ports),
                                 Evicted(p.routes, ReleasableHosts(p.ledger, user, hosts), ReleasablePorts(p.ledger, user, ports))), s, v);
  }

  lemma StepKeepsRepair(st: State, gate: Option<Policy>, e: Event, s: nat, user: int)
    requires Repaired(st, s, user) && !IsAdminRemoval(e)
    ensures Repaired(Step(st, gate, e), s, user)
  {
    var st' := Step(st, gate, e);
    match e
    case Connect(w) => AuthenticateKeepsRouted(st.gate, st.pool, gate, w, s, user);
    case ClaimRequest(x, i) =>
      if Serving(st, x) {
        ClaimKeepsRouted(st.gate.cache, st.pool, gate, x, st.sessions[x].user, st.sessions[x].token, i, s, user);
      }
    case ReleaseRequest(x, hosts, ports, ok) =>
      if Serving(st, x) {
        ReleaseKeepsRouted(st.pool, st.sessions[x].user.id, LowerAll(hosts), ports, s, user);
      }
    case Tick(x, w, capNow) =>
      if Serving(st, x) {
        var w' := w.(token := st.sessions[x].token);
        AuthenticateKeepsRouted(st.gate, st.pool, gate, w', s, user);
        FewerRoutesStayOwned(AuthenticateAny(st.gate, st.pool, gate, w').pool, st'.pool, s, user);
      }
    case Disconnect(x) =>
    case End(x) => FewerRoutesStayOwned(st.pool, st'.pool, s, user);
    case AdminAddUser(name) => ResolveUserKeeps(st.pool, name);
    case AdminAddHost(name, userName, at) => FewerRoutesStayOwned(st.pool, st'.pool, s, user);
    case AdminAddPort(port, userName, at) => FewerRoutesStayOwned(st.pool, st'.pool, s, user);
  }

  lemma {:induction false} RepairOutlivesRun(st: State, gate: Option<Policy>, events: seq<Event>, s: nat, user: int)
    requires Repaired(st, s, user) && forall i :: 0 <= i < |events| ==> !IsAdminRemoval(events[i])
    ensures Repaired(Run(st, gate, events), s, user)
    decreases |events|
  {
    if events == [] {
    } else {
      StepKeepsRepair(st, gate, events[0], s, user);
      RepairOutlivesRun(Step(st, gate, events[0]), gate, events[1..], s, user);
    }
  }

  /** The repair lasts: whatever admin removals did before, after one surviving
      tick the session's routed hostnames stay its user's through every
      continuation without further removals, of this session or any other. */
  lemma TickRepairLasts(st: State, gate: Option<Policy>, s: nat, w: Presented, capNow: int, events: seq<Event>)
    requires Serving(st, s) && RoutesServed(st)
    requires !Step(st, gate, Tick(s, w, capNow)).sessions[s].closing
    requires forall i :: 0 <= i < |events| ==> !IsAdminRemoval(events[i])
    ensures SessionHostsOwned(Run(Step(st, gate, Tick(s, w, capNow)), gate, events).pool, s, st.sessions[s].user.id)
  {
    TickRestoresHosts(st, gate, s, w, capNow);
    RepairOutlivesRun(Step(st, gate, Tick(s, w, capNow)), gate, events, s, st.sessions[s].user.id);
  }

  // ----- owned counts over runs -----

  /** Every claim in the run by one of `user`'s sessions is gated by a cap of at
      most `limit`, and no admin hands `user` anything. */
  ghost predicate ClaimsCapped(st: State, policy: Policy, events: seq<Event>, user: int, limit: int)
    decreases |events|
  {
    events == [] ||
    (var e := events[0];
     && (e.ClaimRequest? && Serving(st, e.session) && st.sessions[e.session].user.id == user ==>
           var s := st.sessions[e.session];
           var cap := ClaimCap(st.gate.cache, policy, s.user, s.token, e.input);
           cap.DenyAll? || (cap.Cap? && cap.max <= limit))
     && (e.AdminAddHost? && e.userName in st.pool.ledger.users ==> st.pool.ledger.users[e.userName] != user)
     && (e.AdminAddPort? && e.userName in st.pool.ledger.users ==> st.pool.ledger.users[e.userName] != user)
     && ClaimsCapped(Step(st, Some(policy), e), policy, events[1..], user, limit))
  }

  lemma OthersClaim(c: Cache, p: Pool, policy: Policy, session: nat, user: User, token: string, i: ClaimInput, v: int)
    requires v != user.id
    ensures Count(HandleClaim(c, p, Some(policy), session, user, token, i).pool.ledger, v) == Count(p.ledger, v)
  {
    var hosts := LowerAll(i.hosts);
    var g := PassGate(c, p.routes, policy, user, token, hosts, i.ports, i.activate, i.now);
    if g.Passed? {
      RegisterAndRouteCount(g.cache, p, Handle(session, user.id), g.cap, hosts, i.ports, i.clock);
    }
  }

  lemma AddHostCountOther(r: Ledger, name: string, userName: string, at: int, v: int)
    requires userName in r.users ==> r.users[userName] != v
    ensures Count(AddHost(r, name, userName, at), v) == Count(r, v)
  {
    var q := AddHost(r, name, userName, at);
    if q != r {
      AddHostCount(r, name, q.hosts[name], v);
    }
  }

  lemma AddPortCountOther(r: Ledger, port: PortNumber, userName: string, at: int, v: int)
    requires userName in r.users ==> r.users[userName] != v
    ensures Count(AddPort(r, port, userName, at), v) == Count(r, v)
  {
    var q := AddPort(r, port, userName, at);
    assert HostsOf(q, v) == HostsOf(r, v);
    assert PortsOf(q, v) == PortsOf(r, v);
  }

  lemma RemovalCount(r: Ledger, q: Ledger, v: int)
    requires forall l :: l in q.hosts ==> l in r.hosts && q.hosts[l] == r.hosts[l]
    requires forall n :: n in q.ports ==> n in r.ports && q.ports[n] == r.ports[n]
    ensures Count(q, v) <= Count(r, v)
  {
    CardSubset(HostsOf(q, v), HostsOf(r, v));
    CardSubset(PortsOf(q, v), PortsOf(r, v));
  }

  /** One step under such caps keeps the owned count within bounds. */
  lemma StepKeepsCount(st: State, policy: Policy, e: Event, user: int, limit: int)
    requires ClaimsCapped(st, policy, [e], user, limit)
    ensures Count(Step(st, Some(policy), e).pool.ledger, user) <= Max(Count(st.pool.ledger, user), limit)
  {
    var gate, r := Some(policy), st.pool.ledger;
    match e
    case Connect(w) => AuthenticateAnyKeeps(st.gate, st.pool, gate, w, user);
    case ClaimRequest(s, i) =>
      if Serving(st, s) {
        var x := st.sessions[s];
        if x.user.id == user {
          GrantedClaimRespectsCap(st.gate.cache, st.pool, policy, s, x.user, x.token, i);
        } else {
          OthersClaim(st.gate.cache, st.pool, policy, s, x.user, x.token, i, user);
        }
      }
    case ReleaseRequest(s, hosts, ports, ok) =>
      if Serving(st, s) {
        ReleaseCount(r, st.sessions[s].user.id, LowerAll(hosts), ports, user);
      }
    case Tick(s, w, capNow) =>
      if Serving(st, s) {
        AuthenticateAnyKeeps(st.gate, st.pool, gate, w.(token := st.sessions[s].token), user);
      }
    case Disconnect(s) =>
    case End(s) =>
    case AdminAddUser(name) => ResolveUserKeeps(st.pool, name);
    case AdminAddHost(name, userName, at) => AddHostCountOther(r, name, userName, at, user);
    case AdminAddPort(port, userName, at) => AddPortCountOther(r, port, userName, at, user);
    case AdminRemoveHost(name) => RemovalCount(r, r.(hosts := r.hosts - {name}), user);
    case AdminRemovePort(port) => RemovalCount(r, r.(ports := r.ports - {port}), user);
  }

  /** Over any run in which every claim of a user is gated by a cap of at most
      `limit`, mixed with anything else, the user's owned count never exceeds the
      larger of where it started and `limit`. */
  lemma {:induction false} OwnedCountStaysWithinCap(st: State, policy: Policy, events: seq<Event>, user: int, limit: int)
    requires ClaimsCapped(st, policy, events, user, limit)
    ensures Count(Run(st, Some(policy), events).pool.ledger, user) <= Max(Count(st.pool.ledger, user), limit)
    decreases |events|
  {
    if events == [] {
    } else {
      assert [events[0]][1..] == [];
      StepKeepsCount(st, policy, events[0], user, limit);
      OwnedCountStaysWithinCap(Step(st, Some(policy), events[0]), policy, events[1..], user, limit);
    }
  }
}
