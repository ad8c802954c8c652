/** The negative-cache sweep is unobservable to the whole relay: a relay that
    sweeps and one that never does serve every run alike. */
module RelaySweep {
  import opened Prelude
  import opened Labels
  import opened Ownership
  import opened Routing
  import opened Licences
  import opened GateRuns
  import opened Enforcement
  import opened Relay
  import opened RelayLicences

  /** The reply a request gets, if it is being served. */
  ghost function ReplyOf(st: State, gate: Option<Policy>, e: Event): Option<ControlReply> {
    if e.ClaimRequest? && Serving(st, e.session) then
      var x := st.sessions[e.session];
      Some(HandleClaim(st.gate.cache, st.pool, gate, e.session, x.user, x.token, e.input).reply)
    else if e.ReleaseRequest? && Serving(st, e.session) then
      var x := st.sessions[e.session];
      Some(HandleRelease(st.gate.cache, st.pool, gate, x.user, x.token, e.hosts, e.ports, e.deactivated).reply)
    else None
  }

  ghost function RepliesOf(st: State, gate: Option<Policy>, events: seq<Event>, sweeps: bool): seq<Option<ControlReply>>
    decreases |events|
  {
    if events == [] then []
    else [ReplyOf(st, gate, events[0])] + RepliesOf(Step(st, gate, events[0], sweeps), gate, events[1..], sweeps)
  }

  /** The clock reading an event authenticates at; 0 if it does not reach the
      gate or the clock failed. */
  function ReadingOf(e: Event): int {
    if (e.Connect? || e.Tick?) && e.presented.local.None? then e.presented.now else 0
  }

  predicate ClockForward(events: seq<Event>, since: int) {
    && (forall i :: 0 <= i < |events| && ReadingOf(events[i]) != 0 ==> since <= ReadingOf(events[i]))
    && (forall i, j :: 0 <= i < j < |events| && ReadingOf(events[i]) != 0 && ReadingOf(events[j]) != 0
                       ==> ReadingOf(events[i]) <= ReadingOf(events[j]))
  }

  /** Two relays that differ only in negative rows that expired before `since`. */
  ghost predicate Alike(swept: State, full: State, policy: Policy, since: int) {
    && swept.pool == full.pool && swept.sessions == full.sessions && swept.nextSession == full.nextSession
    && swept.gate.budget == full.gate.budget
    && Hides(swept.gate.cache, full.gate.cache, policy, since)
    && (forall s :: s in full.sessions ==> full.sessions[s].user.name != "")
  }

  function Later(since: int, reading: int): int {
    if reading != 0 then reading else since
  }

  lemma EnforceIgnoresHidden(p: Pool, swept: Cache, full: Cache, policy: Policy, since: int, user: User, cap: int, now: int)
    requires Hides(swept, full, policy, since) && user.name != ""
    ensures Enforce(p, swept, policy, user, cap, now) == Enforce(p, full, policy, user, cap, now)
  {
    HiddenRowsQualifyForNobody(swept, full, policy, since, user.name, SaturatingSub(now, policy.pruneGrace), now);
    HiddenRowsQualifyForNobody(swept, full, policy, since, user.name, SaturatingSub(now, policy.staleness), now);
  }

  lemma AuthenticationsAlike(swept: Gate, full: Gate, p: Pool, policy: Policy, since: int, w: Presented)
    requires swept.budget == full.budget && Hides(swept.cache, full.cache, policy, since)
    requires w.local.None? && w.now != 0 ==> since <= w.now
    requires w.local.Some? ==> w.local.value.name != ""
    requires w.reply.Granted? ==> w.reply.customer != ""
    ensures var a, b := AuthenticateAny(swept, p, Some(policy), w, true), AuthenticateAny(full, p, Some(policy), w, false);
            && a.pool == b.pool && a.user == b.user && a.gate.budget == b.gate.budget
            && Hides(a.gate.cache, b.gate.cache, policy, Later(since, if w.local.None? then w.now else 0))
            && (a.user.Some? ==> a.user.value.name != "")
  {
    if w.local.None? {
      var e := Authenticate(w.token, w.now, w.instant, w.reply);
      EventHides(swept, full, policy, since, e);
      var verdict := ReplyTo(swept, policy, e, true).verdict;
      if verdict.Customer().Some? {
        ResolveUserFacts(p.ledger, verdict.Customer().value);
        var r := ResolveUser(p.ledger, verdict.Customer().value);
        if verdict.Admit? && r.user.Some? {
          EnforceIgnoresHidden(p.(ledger := r.ledger), GateStep(swept, policy, e, true).cache, GateStep(full, policy, e, false).cache,
                               policy, Later(since, w.now), r.user.value, verdict.cap, w.now);
        }
      }
    }
  }

  lemma GatesPassAlike(swept: Gate, full: Gate, t: Routes, policy: Policy, since: int, user: User, token: string,
                       hosts: seq<string>, ports: seq<PortNumber>, activate: ActivateAnswer, now: int)
    requires swept.budget == full.budget && Hides(swept.cache, full.cache, policy, since) && user.name != ""
    ensures var a := PassGate(swept.cache, t, policy, user, token, hosts, ports, activate, now);
            var b := PassGate(full.cache, t, policy, user, token, hosts, ports, activate, now);
            && (a.Passed? <==> b.Passed?) && (a.Passed? ==> a.cap == b.cap) && Hides(a.cache, b.cache, policy, since)
  {
    var a, b := EnsureActivated(swept.cache, policy, token, activate), EnsureActivated(full.cache, policy, token, activate);
    assert a.ok == b.ok && Hides(a.cache, b.cache, policy, since) by {
      EventHides(swept, full, policy, since, Activate(token, activate));
    }
    assert CapFor(a.cache, policy, user.name, now) == CapFor(b.cache, policy, user.name, now) by {
      HiddenRowsQualifyForNobody(a.cache, b.cache, policy, since, user.name, SaturatingSub(now, policy.staleness), now);
    }
  }

  lemma ClaimsAlike(swept: Gate, full: Gate, p: Pool, policy: Policy, since: int, session: nat, user: User, token: string, i: ClaimInput)
    requires swept.budget == full.budget && Hides(swept.cache, full.cache, policy, since) && user.name != ""
    ensures var a := HandleClaim(swept.cache, p, Some(policy), session, user, token, i);
            var b := HandleClaim(full.cache, p, Some(policy), session, user, token, i);
            a.reply == b.reply && a.pool == b.pool && Hides(a.cache, b.cache, policy, since)
  {
    GatesPassAlike(swept, full, p.routes, policy, since, user, token, LowerAll(i.hosts), i.ports, i.activate, i.now);
  }

  lemma ReleasesAlike(swept: Gate, full: Gate, p: Pool, policy: Policy, since: int, user: User, token: string,
                      hosts: seq<string>, ports: seq<PortNumber>, ok: bool)
    requires swept.budget == full.budget && Hides(swept.cache, full.cache, policy, since)
    ensures var a := HandleRelease(swept.cache, p, Some(policy), user, token, hosts, ports, ok);
            var b := HandleRelease(full.cache, p, Some(policy), user, token, hosts, ports, ok);
            a.reply == b.reply && a.pool == b.pool && Hides(a.cache, b.cache, policy, since)
  {
    EventHides(swept, full, policy, since, Deactivate(token, ok));
  }

  lemma TicksAlike(swept: Gate, full: Gate, p: Pool, policy: Policy, since: int, session: nat, user: User, w: Presented, capNow: int)
    requires swept.budget == full.budget && Hides(swept.cache, full.cache, policy, since) && user.name != ""
    requires w.local.None? && w.now != 0 ==> since <= w.now
    requires w.local.Some? ==> w.local.value.name != ""
    requires w.reply.Granted? ==> w.reply.customer != ""
    ensures var a := HandleTick(swept, p, Some(policy), session, user, w, capNow, true);
            var b := HandleTick(full, p, Some(policy), session, user, w, capNow, false);
            && a.close == b.close && a.pool == b.pool && a.gate.budget == b.gate.budget
            && Hides(a.gate.cache, b.gate.cache, policy, Later(since, if w.local.None? then w.now else 0))
  {
    AuthenticationsAlike(swept, full, p, policy, since, w);
    var a, b := AuthenticateAny(swept, p, Some(policy), w, true), AuthenticateAny(full, p, Some(policy), w, false);
    HiddenRowsQualifyForNobody(a.gate.cache, b.gate.cache, policy, Later(since, if w.local.None? then w.now else 0),
                               user.name, SaturatingSub(capNow, policy.staleness), capNow);
  }

  lemma HidesLater(swept: Cache, full: Cache, policy: Policy, since: int, later: int)
    requires Hides(swept, full, policy, since) && since <= later
    ensures Hides(swept, full, policy, later)
  {
  }

  lemma ConnectsAlike(swept: State, full: State, policy: Policy, since: int, w: Presented)
    requires Alike(swept, full, policy, since) && Named(Connect(w))
    requires ReadingOf(Connect(w)) != 0 ==> since <= ReadingOf(Connect(w))
    ensures Alike(Step(swept, Some(policy), Connect(w), true), Step(full, Some(policy), Connect(w), false), policy,
                  Later(since, ReadingOf(Connect(w))))
  {
    AuthenticationsAlike(swept.gate, full.gate, full.pool, policy, since, w);
  }

  lemma RequestsAlike(swept: State, full: State, policy: Policy, since: int, e: Event)
    requires Alike(swept, full, policy, since) && (e.ClaimRequest? || e.ReleaseRequest?)
    ensures ReplyOf(swept, Some(policy), e) == ReplyOf(full, Some(policy), e)
    ensures Alike(Step(swept, Some(policy), e, true), Step(full, Some(policy), e, false), policy, since)
  {
    if Serving(full, e.session) {
      var x := full.sessions[e.session];
      match e
      case ClaimRequest(s, i) =>
        ClaimsAlike(swept.gate, full.gate, full.pool, policy, since, s, x.user, x.token, i);
      case ReleaseRequest(_, hosts, ports, ok) =>
        ReleasesAlike(swept.gate, full.gate, full.pool, policy, since, x.user, x.token, hosts, ports, ok);
    }
  }

  lemma StepsAlike(swept: State, full: State, policy: Policy, since: int, e: Event)
    requires Alike(swept, full, policy, since) && Named(e)
    requires ReadingOf(e) != 0 ==> since <= ReadingOf(e)
    ensures ReplyOf(swept, Some(policy), e) == ReplyOf(full, Some(policy), e)
    ensures Alike(Step(swept, Some(policy), e, true), Step(full, Some(policy), e, false), policy, Later(since, ReadingOf(e)))
  {
    match e
    case Connect(w) => ConnectsAlike(swept, full, policy, since, w);
    case ClaimRequest(_, _) => RequestsAlike(swept, full, policy, since, e);
    case ReleaseRequest(_, _, _, _) => RequestsAlike(swept, full, policy, since, e);
    case Tick(s, w, capNow) =>
      if Serving(full, s) {
        TicksAlike(swept.gate, full.gate, full.pool, policy, since, s, full.sessions[s].user,
                   w.(token := full.sessions[s].token), capNow);
      } else {
        HidesLater(swept.gate.cache, full.gate.cache, policy, since, Later(since, ReadingOf(e)));
      }
    case _ =>
  }

  lemma {:induction false} RunsAlike(swept: State, full: State, policy: Policy, since: int, events: seq<Event>)
    requires Alike(swept, full, policy, since) && ClockForward(events, since)
    requires forall i :: 0 <= i < |events| ==> Named(events[i])
    ensures RepliesOf(swept, Some(policy), events, true) == RepliesOf(full, Some(policy), events, false)
    ensures var a, b := Run(swept, Some(policy), events, true), Run(full, Some(policy), events, false);
            a.pool == b.pool && a.sessions == b.sessions
    decreases |events|
  {
    if events == [] {
    } else {
      var e := events[0];
      assert Named(e);
      StepsAlike(swept, full, policy, since, e);
      RunsAlike(Step(swept, Some(policy), e, true), Step(full, Some(policy), e, false), policy, Later(since, ReadingOf(e)), events[1..]);
    }
  }

  /** From start-up, under a clock that never goes backwards and with named users:
      a relay that sweeps its negative cache and one that never does give every
      request the same reply and end with the same owners, routes and sessions. */
  lemma SweepIsUnobservableToRelay(domain: string, policy: Policy, instant: real, since: int, events: seq<Event>)
    requires ClockForward(events, since) && forall i :: 0 <= i < |events| ==> Named(events[i])
    ensures var st := Booted(domain, policy, instant);
            && RepliesOf(st, Some(policy), events, true) == RepliesOf(st, Some(policy), events, false)
            && Run(st, Some(policy), events, true).pool == Run(st, Some(policy), events, false).pool
            && Run(st, Some(policy), events, true).sessions == Run(st, Some(policy), events, false).sessions
  {
    RunsAlike(Booted(domain, policy, instant), Booted(domain, policy, instant), policy, since, events);
  }
}
