/** The reply to a claim, exactly: when it is granted, and otherwise which deny
    code it gets, read from the state before the claim. */
module ClaimReplies {
  import opened Prelude
  import opened Labels
  import opened Ownership
  import opened Registration
  import opened Routing
  import opened Licences
  import opened Enforcement
  import opened Relay
  import opened RelayRuns

  // ----- letter case -----

  /** Claims that differ only in the case of their hostnames are the same claim. */
  lemma ClaimIgnoresCase(c: Cache, p: Pool, gate: Option<Policy>, session: nat, user: User, token: string,
                         i: ClaimInput, hosts: seq<string>)
    requires |hosts| == |i.hosts| && forall k :: 0 <= k < |hosts| ==> SameIgnoringCase(hosts[k], i.hosts[k])
    ensures HandleClaim(c, p, gate, session, user, token, i.(hosts := hosts)) == HandleClaim(c, p, gate, session, user, token, i)
  {
    forall k | 0 <= k < |hosts| ensures Lower(hosts[k]) == Lower(i.hosts[k]) {
      LowerIff(hosts[k], i.hosts[k]);
    }
    assert LowerAll(hosts) == LowerAll(i.hosts);
  }

  // ----- the port loop -----

  /** Position `j` holds the first port the claim may not have. */
  predicate FirstUnclaimable(r: Ledger, user: int, ports: seq<PortNumber>, tcp: Tcp, j: nat) {
    && j < |ports|
    && (forall i :: 0 <= i < j ==> Claimable(r, user, ports[i], tcp))
    && !Claimable(r, user, ports[j], tcp)
  }

  /** A port that is served, in range and owned can only fail to bind. */
  function PortCode(r: Ledger, user: int, port: PortNumber, tcp: Tcp): DenyCode {
    if tcp.Enabled? && port in tcp.inRange && OwnsPort(r, user, port) then PortUnavailable else PortNotReserved
  }

  /** A refused list is blamed on its first unclaimable port. */
  lemma {:induction false} PortRefusalIsFirst(r: Ledger, user: int, ports: seq<PortNumber>, tcp: Tcp) returns (j: nat)
    requires PortRefusal(r, user, ports, tcp).Some?
    ensures FirstUnclaimable(r, user, ports, tcp, j)
    ensures PortRefusal(r, user, ports, tcp) == Some(PortCode(r, user, ports[j], tcp))
  {
    if !Claimable(r, user, ports[0], tcp) {
      j := 0;
    } else {
      j := PortRefusalIsFirst(r, user, ports[1..], tcp);
      assert forall i :: 0 < i <= j + 1 ==> ports[i] == ports[1..][i - 1];
      j := j + 1;
    }
  }

  // ----- the licence gate -----

  /** The backend says the key is activated as often as it may be. */
  predicate HitsActivationLimit(c: Cache, policy: Policy, key: string, answer: ActivateAnswer) {
    policy.activateOnClaim && key in c && c[key].granted && c[key].activation.None? && answer == LimitReached
  }

  /** Activating a key moves nobody's cap. */
  lemma ActivationKeepsCaps(c: Cache, policy: Policy, key: string, answer: ActivateAnswer, name: string, since: int, now: int)
    ensures var c' := EnsureActivated(c, policy, key, answer).cache;
            ResolveCap(c', name, since, now) == ResolveCap(c, name, since, now)
  {
    var c' := EnsureActivated(c, policy, key, answer).cache;
    assert c'.Keys == c.Keys;
    assert forall k :: k in c ==> c'[k].customer == c[k].customer && c'[k].maxTunnels == c[k].maxTunnels
                                  && (Qualifies(c'[k], since, now) <==> Qualifies(c[k], since, now));
    assert KeysOf(c', name) == KeysOf(c, name);
    assert QualifyingCaps(c', name, since, now) == QualifyingCaps(c, name, since, now);
  }

  /** The routes the claimant would have. */
  function RoutesAfter(p: Pool, session: nat, user: User, i: ClaimInput): nat {
    LiveCount(Claimed(p.routes, Handle(session, user.id), LowerAll(i.hosts), i.ports), user.id)
  }

  /** The gate lets the claim through: no activation limit is hit, and the user is
      uncapped or would have at most as many routes as their cap. */
  ghost predicate GateAdmits(c: Cache, p: Pool, policy: Policy, session: nat, user: User, token: string, i: ClaimInput) {
    && !HitsActivationLimit(c, policy, token, i.activate)
    && var cap := CapFor(c, policy, user.name, i.now);
       cap.Allow? || (cap.Cap? && RoutesAfter(p, session, user, i) <= cap.max)
  }

  lemma GatePassesIff(c: Cache, p: Pool, policy: Policy, session: nat, user: User, token: string, i: ClaimInput)
    ensures var g := PassGate(c, p.routes, policy, user, token, LowerAll(i.hosts), i.ports, i.activate, i.now);
            && (g.Passed? <==> GateAdmits(c, p, policy, session, user, token, i))
            && (g.Passed? ==> g.cap == RowCap(c, Some(policy), user, i.now))
  {
    ActivationKeepsCaps(c, policy, token, i.activate, user.name, SaturatingSub(i.now, policy.staleness), i.now);
    ProjectionIsExact(p.routes, Handle(session, user.id), LowerAll(i.hosts), i.ports);
  }

  /** The cap on owned rows that the claim is registered under. */
  ghost function RowCap(c: Cache, gate: Option<Policy>, user: User, now: int): Option<int> {
    if gate.Some? && CapFor(c, gate.value, user.name, now).Cap? then Some(CapFor(c, gate.value, user.name, now).max) else None
  }

  // ----- the reply -----

  predicate AllClaimable(r: Ledger, user: int, ports: seq<PortNumber>, tcp: Tcp) {
    forall i :: 0 <= i < |ports| ==> Claimable(r, user, ports[i], tcp)
  }

  predicate FitsFrame(i: ClaimInput) {
    |i.hosts| + |i.ports| <= MAX_CLAIM_ENTRIES
  }

  /** Everything a claim needs, in the order it is checked. */
  ghost predicate Grantable(c: Cache, p: Pool, gate: Option<Policy>, session: nat, user: User, token: string, i: ClaimInput) {
    && FitsFrame(i)
    && AllClaimable(p.ledger, user.id, i.ports, i.tcp)
    && (gate.Some? ==> GateAdmits(c, p, gate.value, session, user, token, i))
    && Registrable(p.ledger, user.id, LowerAll(i.hosts), RowCap(c, gate, user, i.now))
  }

  function HostCode(r: Ledger, user: int, hosts: seq<string>, max: Option<int>, j: nat): DenyCode
    requires j < |hosts|
  {
    if RefusalOf(r, user, hosts[..j], hosts[j], max) == CapExceeded then LimitExceeded else NotOwner
  }

  /** The reply is the deny code of the first unclaimable port. */
  ghost predicate BlamesPort(reply: ControlReply, r: Ledger, user: int, ports: seq<PortNumber>, tcp: Tcp) {
    exists j: nat :: FirstUnclaimable(r, user, ports, tcp, j) && reply == Denied(PortCode(r, user, ports[j], tcp))
  }

  /** The reply is the deny code of the first host that cannot be registered. */
  ghost predicate BlamesHost(reply: ControlReply, r: Ledger, user: int, hosts: seq<string>, cap: Option<int>) {
    exists j: nat :: FirstRefused(r, user, hosts, cap, j) && reply == Denied(HostCode(r, user, hosts, cap, j))
  }

  lemma RouteReply(c: Cache, p: Pool, who: Handle, cap: Option<int>, hosts: seq<string>, ports: seq<PortNumber>, clock: nat -> int)
    ensures var reply := RegisterAndRoute(c, p, who, cap, hosts, ports, clock).reply;
            if Registrable(p.ledger, who.user, hosts, cap) then reply == GrantedClaim(hosts, ports)
            else reply.Denied? && reply.code != ProtocolError && BlamesHost(reply, p.ledger, who.user, hosts, cap)
  {
    var j := RegisterReaches(p.ledger, who.user, hosts, cap, clock);
    var reply := RegisterAndRoute(c, p, who, cap, hosts, ports, clock).reply;
    assert !Registrable(p.ledger, who.user, hosts, cap) ==> reply == Denied(HostCode(p.ledger, who.user, hosts, cap, j));
  }

  /** The step registered all of its hosts if it was granted, and otherwise those
      before the first refused one. */
  ghost predicate RegistersItsHosts(r: Ledger, step: ClaimStep, user: int, hosts: seq<string>, cap: Option<int>, clock: nat -> int) {
    exists j: nat :: && RegisteredUpTo(r, step.pool.ledger, user, hosts, cap, clock, j)
                     && (if step.reply.Denied? then FirstRefused(r, user, hosts, cap, j) else j == |hosts|)
  }

  lemma RouteRegisters(c: Cache, p: Pool, who: Handle, cap: Option<int>, hosts: seq<string>, ports: seq<PortNumber>, clock: nat -> int)
    ensures RegistersItsHosts(p.ledger, RegisterAndRoute(c, p, who, cap, hosts, ports, clock), who.user, hosts, cap, clock)
  {
    var j := RegisterReaches(p.ledger, who.user, hosts, cap, clock);
    var reg := RegisterFrom(p.ledger, who.user, hosts, 0, cap, clock);
    assert RegisteredUpTo(p.ledger, reg.ledger, who.user, hosts, cap, clock, j);
  }

  /** What a claim registers: all of its hosts if it is granted, those before the
      first refused one if it gets as far as registering, and none otherwise;
      nothing is taken back. */
  lemma ClaimRegisters(c: Cache, p: Pool, gate: Option<Policy>, session: nat, user: User, token: string, i: ClaimInput)
    ensures var step := HandleClaim(c, p, gate, session, user, token, i);
            if && FitsFrame(i) && AllClaimable(p.ledger, user.id, i.ports, i.tcp)
               && (gate.Some? ==> GateAdmits(c, p, gate.value, session, user, token, i))
            then RegistersItsHosts(p.ledger, step, user.id, LowerAll(i.hosts), RowCap(c, gate, user, i.now), i.clock)
            else step.pool == p
  {
    var hosts, cap, who := LowerAll(i.hosts), RowCap(c, gate, user, i.now), Handle(session, user.id);
    PortsPassIff(p.ledger, user.id, i.ports, i.tcp);
    if gate.Some? {
      GatePassesIff(c, p, gate.value, session, user, token, i);
      RouteRegisters(EnsureActivated(c, gate.value, token, i.activate).cache, p, who, cap, hosts, i.ports, i.clock);
    } else {
      RouteRegisters(c, p, who, cap, hosts, i.ports, i.clock);
    }
  }

  lemma PortReply(c: Cache, p: Pool, gate: Option<Policy>, session: nat, user: User, token: string, i: ClaimInput)
    requires FitsFrame(i) && PortRefusal(p.ledger, user.id, i.ports, i.tcp).Some?
    ensures var reply := HandleClaim(c, p, gate, session, user, token, i).reply;
            reply.Denied? && reply.code != ProtocolError && BlamesPort(reply, p.ledger, user.id, i.ports, i.tcp)
  {
    var j := PortRefusalIsFirst(p.ledger, user.id, i.ports, i.tcp);
  }

  lemma HostReply(c: Cache, p: Pool, gate: Option<Policy>, session: nat, user: User, token: string, i: ClaimInput)
    requires FitsFrame(i) && PortRefusal(p.ledger, user.id, i.ports, i.tcp).None?
    ensures var reply := HandleClaim(c, p, gate, session, user, token, i).reply;
            var hosts, cap := LowerAll(i.hosts), RowCap(c, gate, user, i.now);
            if gate.Some? && !GateAdmits(c, p, gate.value, session, user, token, i) then reply == Denied(LimitExceeded)
            else if Registrable(p.ledger, user.id, hosts, cap) then reply == GrantedClaim(hosts, i.ports)
            else reply.Denied? && reply.code != ProtocolError && BlamesHost(reply, p.ledger, user.id, hosts, cap)
  {
    var hosts, cap, who := LowerAll(i.hosts), RowCap(c, gate, user, i.now), Handle(session, user.id);
    if gate.Some? {
      GatePassesIff(c, p, gate.value, session, user, token, i);
      RouteReply(EnsureActivated(c, gate.value, token, i.activate).cache, p, who, cap, hosts, i.ports, i.clock);
    } else {
      RouteReply(c, p, who, cap, hosts, i.ports, i.clock);
    }
  }

  /** A claim is granted if and only if it has at most 256 entries, every port is
      served, owned and bindable, the gate admits it, and every hostname is the
      caller's or new, valid and within the cap. Otherwise the first of these
      that fails decides the deny code. */
  lemma ClaimGrantedIff(c: Cache, p: Pool, gate: Option<Policy>, session: nat, user: User, token: string, i: ClaimInput)
    ensures var reply := HandleClaim(c, p, gate, session, user, token, i).reply;
            var hosts, cap := LowerAll(i.hosts), RowCap(c, gate, user, i.now);
            && (reply == GrantedClaim(hosts, i.ports) <==> Grantable(c, p, gate, session, user, token, i))
            && (reply.Denied? <==> !Grantable(c, p, gate, session, user, token, i))
            && (reply == Denied(ProtocolError) <==> !FitsFrame(i))
            && (FitsFrame(i) && reply.Denied? ==>
                 if !AllClaimable(p.ledger, user.id, i.ports, i.tcp) then BlamesPort(reply, p.ledger, user.id, i.ports, i.tcp)
                 else if gate.Some? && !GateAdmits(c, p, gate.value, session, user, token, i) then reply == Denied(LimitExceeded)
                 else BlamesHost(reply, p.ledger, user.id, hosts, cap))
  {
    if FitsFrame(i) {
      PortsPassIff(p.ledger, user.id, i.ports, i.tcp);
      if !AllClaimable(p.ledger, user.id, i.ports, i.tcp) {
        PortReply(c, p, gate, session, user, token, i);
      } else {
        HostReply(c, p, gate, session, user, token, i);
      }
    }
  }
}
