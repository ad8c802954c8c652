/** Grandfathering over whole runs: under a clock that never goes back, what was
    claimed earlier is older, so a downgrade never takes it and keeps what was
    claimed later. */
module RelayAges {
  import opened Prelude
  import opened Labels
  import opened AgeOrder
  import opened Ownership
  import opened Licences
  import opened GateRuns
  import opened Enforcement
  import opened Relay

  // ----- the wall clock of a run -----

  /** The readings an event dates rows with are in order and not before `since`. */
  predicate ReadsForward(e: Event, since: int) {
    match e
    case ClaimRequest(_, i) =>
      && (forall k :: 0 <= k < |i.hosts| ==> since <= i.clock(k))
      && (forall j, k :: 0 <= j < k < |i.hosts| ==> i.clock(j) <= i.clock(k))
    case AdminAddHost(_, _, at) => since <= at
    case AdminAddPort(_, _, at) => since <= at
    case _ => true
  }

  /** The last reading so far. */
  function Latest(e: Event, since: int): int {
    match e
    case ClaimRequest(_, i) => if i.hosts == [] then since else i.clock(|i.hosts| - 1)
    case AdminAddHost(_, _, at) => at
    case AdminAddPort(_, _, at) => at
    case _ => since
  }

  predicate ClockForward(events: seq<Event>, since: int)
    decreases |events|
  {
    events == [] || (ReadsForward(events[0], since) && ClockForward(events[1..], Latest(events[0], since)))
  }

  function LatestOf(events: seq<Event>, since: int): int
    decreases |events|
  {
    if events == [] then since else LatestOf(events[1..], Latest(events[0], since))
  }

  // ----- one step -----

  /** No row is dated after `now`. */
  ghost predicate DatedBy(r: Ledger, now: int) {
    && (forall l :: l in r.hosts ==> r.hosts[l].createdAt <= now)
    && (forall n :: n in r.ports ==> r.ports[n].createdAt <= now)
  }

  /** From `r` to `q` rows only come and go: those that stay are unchanged, and
      the new ones are dated in order and numbered after all of `r`. */
  ghost predicate Extends(r: Ledger, q: Ledger, since: int) {
    && (forall l :: l in q.hosts && l in r.hosts ==> q.hosts[l] == r.hosts[l])
    && (forall l :: l in q.hosts && l !in r.hosts ==> since <= q.hosts[l].createdAt)
    && (forall l, a :: l in q.hosts && l !in r.hosts && a in r.hosts ==> r.hosts[a].id < q.hosts[l].id)
    && (forall n :: n in q.ports && n in r.ports ==> q.ports[n] == r.ports[n])
    && (forall n :: n in q.ports && n !in r.ports ==> since <= q.ports[n].createdAt)
  }

  /** Rows only removed. */
  lemma FewerRowsExtend(r: Ledger, q: Ledger, since: int)
    requires DatedBy(r, since)
    requires forall l :: l in q.hosts ==> l in r.hosts && q.hosts[l] == r.hosts[l]
    requires forall n :: n in q.ports ==> n in r.ports && q.ports[n] == r.ports[n]
    ensures DatedBy(q, since) && Extends(r, q, since)
  {
  }

  lemma ClaimExtends(r: Ledger, user: int, fqdn: string, max: Option<int>, now: int, since: int)
    requires DatedBy(r, since) && since <= now
    ensures var q := ClaimHost(r, user, fqdn, max, now).ledger;
            DatedBy(q, now) && Extends(r, q, since)
  {
    ClaimHostAddsRow(r, user, fqdn, max, now);
  }

  lemma ExtendsTrans(r: Ledger, q: Ledger, z: Ledger, since: int, later: int)
    requires Extends(r, q, since) && Extends(q, z, later) && since <= later
    requires forall l :: l in r.hosts ==> l in q.hosts
    requires forall n :: n in r.ports ==> n in q.ports
    ensures Extends(r, z, since)
  {
  }

  /** Registering a list in clock order. */
  lemma {:induction false} RegisterExtends(r: Ledger, user: int, hosts: seq<string>, k: nat, max: Option<int>, clock: nat -> int, since: int)
    requires k <= |hosts| && DatedBy(r, since)
    requires forall j :: k <= j < |hosts| ==> since <= clock(j)
    requires forall i, j :: k <= i < j < |hosts| ==> clock(i) <= clock(j)
    ensures var q := RegisterFrom(r, user, hosts, k, max, clock).ledger;
            && DatedBy(q, if k < |hosts| then clock(|hosts| - 1) else since)
            && Extends(r, q, since)
    decreases |hosts| - k
  {
    if k == |hosts| {
    } else {
      var c := ClaimHost(r, user, hosts[k], max, clock(k));
      ClaimExtends(r, user, hosts[k], max, clock(k), since);
      ClaimHostAddsRow(r, user, hosts[k], max, clock(k));
      ClaimHostFacts(r, user, hosts[k], max, clock(k));
      if c.outcome == Owned {
        RegisterExtends(c.ledger, user, hosts, k + 1, max, clock, clock(k));
        ExtendsTrans(r, c.ledger, RegisterFrom(c.ledger, user, hosts, k + 1, max, clock).ledger, since, clock(k));
      }
    }
  }

  /** Within one list, too: a host is older than every later one it takes to
      register. `a` is there already or asked for before position `j`, where `b`
      is first asked for. */
  lemma {:induction false} EarlierInListIsOlder(r: Ledger, user: int, hosts: seq<string>, k: nat, i: nat, j: nat, max: Option<int>,
                                                clock: nat -> int, since: int, a: string, b: string)
    requires k <= j < |hosts| && DatedBy(r, since)
    requires forall n :: k <= n < |hosts| ==> since <= clock(n)
    requires forall m, n :: k <= m < n < |hosts| ==> clock(m) <= clock(n)
    requires RegisterFrom(r, user, hosts, k, max, clock).outcome == Owned
    requires a in r.hosts || (k <= i < j && LabelOf(r.domain, hosts[i]) == Some(a))
    requires LabelOf(r.domain, hosts[j]) == Some(b) && b !in r.hosts
    requires forall n :: k <= n < j ==> LabelOf(r.domain, hosts[n]) != Some(b)
    ensures var q := RegisterFrom(r, user, hosts, k, max, clock).ledger;
            a in q.hosts && b in q.hosts && Older(HostItemOf(q, a), HostItemOf(q, b))
    decreases j - k
  {
    var c := ClaimHost(r, user, hosts[k], max, clock(k));
    ClaimExtends(r, user, hosts[k], max, clock(k), since);
    ClaimHostAddsRow(r, user, hosts[k], max, clock(k));
    ClaimHostFacts(r, user, hosts[k], max, clock(k));
    if k == j {
      RegisterKeepsRows(c.ledger, user, hosts, k + 1, max, clock);
    } else {
      EarlierInListIsOlder(c.ledger, user, hosts, k + 1, i, j, max, clock, clock(k), a, b);
    }
  }

  lemma {:induction false} RegisterKeepsRows(r: Ledger, user: int, hosts: seq<string>, k: nat, max: Option<int>, clock: nat -> int)
    requires k <= |hosts|
    ensures var q := RegisterFrom(r, user, hosts, k, max, clock).ledger;
            forall l :: l in r.hosts ==> l in q.hosts && q.hosts[l] == r.hosts[l]
    decreases |hosts| - k
  {
    if k == |hosts| {
    } else {
      ClaimHostAddsRow(r, user, hosts[k], max, clock(k));
      RegisterKeepsRows(ClaimHost(r, user, hosts[k], max, clock(k)).ledger, user, hosts, k + 1, max, clock);
    }
  }

  /** A claim leaves the ledger alone or registers its hosts under some cap. */
  lemma ClaimLedger(c: Cache, p: Pool, gate: Option<Policy>, session: nat, user: User, token: string, i: ClaimInput)
    returns (cap: Option<int>)
    ensures var r := HandleClaim(c, p, gate, session, user, token, i).pool.ledger;
            r == p.ledger || r == RegisterFrom(p.ledger, user.id, LowerAll(i.hosts), 0, cap, i.clock).ledger
  {
    cap := None;
    if gate.Some? {
      var g := PassGate(c, p.routes, gate.value, user, token, LowerAll(i.hosts), i.ports, i.activate, i.now);
      if g.Passed? {
        cap := g.cap;
      }
    }
  }

  lemma ClaimStepExtends(c: Cache, p: Pool, gate: Option<Policy>, session: nat, user: User, token: string, i: ClaimInput, since: int)
    requires DatedBy(p.ledger, since) && ReadsForward(ClaimRequest(session, i), since)
    ensures var r := HandleClaim(c, p, gate, session, user, token, i).pool.ledger;
            DatedBy(r, Latest(ClaimRequest(session, i), since)) && Extends(p.ledger, r, since)
  {
    var r := HandleClaim(c, p, gate, session, user, token, i).pool.ledger;
    var cap := ClaimLedger(c, p, gate, session, user, token, i);
    if r != p.ledger {
      RegisterExtends(p.ledger, user.id, LowerAll(i.hosts), 0, cap, i.clock, since);
    }
  }

  /** Enforcement prunes the ledger or leaves it alone. */
  lemma EnforceLedger(p: Pool, c: Cache, policy: Policy, user: User, cap: int, now: int)
    ensures var r := Enforce(p, c, policy, user, cap, now).ledger;
            r == p.ledger || exists n :: r == PruneTo(p.ledger, user.id, n)
  {
  }

  /** Authentication prunes at most one user's rows. */
  lemma AuthenticateLedger(g: Gate, p: Pool, gate: Option<Policy>, w: Presented)
    ensures var r := AuthenticateAny(g, p, gate, w).pool.ledger;
            || (r.hosts == p.ledger.hosts && r.ports == p.ledger.ports)
            || exists u, n :: r.hosts == PruneTo(p.ledger, u, n).hosts && r.ports == PruneTo(p.ledger, u, n).ports
  {
    if w.local.None? && gate.Some? {
      var e := Authenticate(w.token, w.now, w.instant, w.reply);
      var g', verdict := GateStep(g, gate.value, e, true), ReplyTo(g, gate.value, e, true).verdict;
      if verdict.Admit? {
        var r := ResolveUser(p.ledger, verdict.customer);
        if r.user.Some? {
          EnforceLedger(p.(ledger := r.ledger), g'.cache, gate.value, r.user.value, verdict.cap, w.now);
          PruneIgnoresAccounts(p.ledger, r.ledger);
        }
      }
    }
  }

  lemma PruneIgnoresAccounts(r: Ledger, q: Ledger)
    requires q.hosts == r.hosts && q.ports == r.ports
    ensures forall u, n :: PruneTo(q, u, n).hosts == PruneTo(r, u, n).hosts && PruneTo(q, u, n).ports == PruneTo(r, u, n).ports
  {
    forall u, n ensures PruneTo(q, u, n).hosts == PruneTo(r, u, n).hosts && PruneTo(q, u, n).ports == PruneTo(r, u, n).ports {
      assert Items(q, u) == Items(r, u);
    }
  }

  lemma AuthenticateExtends(g: Gate, p: Pool, gate: Option<Policy>, w: Presented, since: int)
    requires DatedBy(p.ledger, since)
    ensures var r := AuthenticateAny(g, p, gate, w).pool.ledger;
            DatedBy(r, since) && Extends(p.ledger, r, since)
  {
    AuthenticateLedger(g, p, gate, w);
    FewerRowsExtend(p.ledger, AuthenticateAny(g, p, gate, w).pool.ledger, since);
  }

  lemma AdminAddExtends(r: Ledger, name: string, port: PortNumber, userName: string, at: int, since: int)
    requires DatedBy(r, since) && since <= at
    ensures DatedBy(AddHost(r, name, userName, at), at) && Extends(r, AddHost(r, name, userName, at), since)
    ensures DatedBy(AddPort(r, port, userName, at), at) && Extends(r, AddPort(r, port, userName, at), since)
  {
    assert forall l :: l in r.hosts ==> r.hosts[l].id in RowIds(r.hosts);
  }

  lemma StepExtends(st: State, gate: Option<Policy>, e: Event, since: int)
    requires DatedBy(st.pool.ledger, since) && ReadsForward(e, since)
    ensures DatedBy(Step(st, gate, e).pool.ledger, Latest(e, since))
    ensures Extends(st.pool.ledger, Step(st, gate, e).pool.ledger, since)
  {
    match e
    case Connect(w) => AuthenticateExtends(st.gate, st.pool, gate, w, since);
    case ClaimRequest(s, i) =>
      if Serving(st, s) {
        ClaimStepExtends(st.gate.cache, st.pool, gate, s, st.sessions[s].user, st.sessions[s].token, i, since);
      }
    case Tick(s, w, _) =>
      if Serving(st, s) {
        AuthenticateExtends(st.gate, st.pool, gate, w.(token := st.sessions[s].token), since);
      }
    case AdminAddHost(name, userName, at) => AdminAddExtends(st.pool.ledger, name, 0, userName, at, since);
    case AdminAddPort(port, userName, at) => AdminAddExtends(st.pool.ledger, "", port, userName, at, since);
    case AdminAddUser(name) =>
    case _ => FewerRowsExtend(st.pool.ledger, Step(st, gate, e).pool.ledger, since);
  }

  // ----- runs -----

  lemma {:induction false} RunIsDated(st: State, gate: Option<Policy>, events: seq<Event>, since: int)
    requires DatedBy(st.pool.ledger, since) && ClockForward(events, since)
    ensures DatedBy(Run(st, gate, events).pool.ledger, LatestOf(events, since))
    decreases |events|
  {
    if events == [] {
    } else {
      StepExtends(st, gate, events[0], since);
      RunIsDated(Step(st, gate, events[0]), gate, events[1..], Latest(events[0], since));
    }
  }

  /** The label is registered throughout the run. */
  ghost predicate HeldThroughout(st: State, gate: Option<Policy>, events: seq<Event>, l: string)
    decreases |events|
  {
    l in st.pool.ledger.hosts && (events != [] ==> HeldThroughout(Step(st, gate, events[0]), gate, events[1..], l))
  }

  /** If both are registered, `a` is older than `b`. */
  ghost predicate OlderIfHeld(r: Ledger, a: string, b: string) {
    a in r.hosts && b in r.hosts ==> Older(HostItemOf(r, a), HostItemOf(r, b))
  }

  lemma {:induction false} EarlierStaysOlder(st: State, gate: Option<Policy>, events: seq<Event>, since: int, a: string, b: string)
    requires DatedBy(st.pool.ledger, since) && ClockForward(events, since)
    requires HeldThroughout(st, gate, events, a) && OlderIfHeld(st.pool.ledger, a, b)
    ensures a in Run(st, gate, events).pool.ledger.hosts && OlderIfHeld(Run(st, gate, events).pool.ledger, a, b)
    decreases |events|
  {
    if events == [] {
    } else {
      var st' := Step(st, gate, events[0]);
      StepExtends(st, gate, events[0], since);
      assert a in st'.pool.ledger.hosts;
      EarlierStaysOlder(st', gate, events[1..], Latest(events[0], since), a, b);
    }
  }

  /** The older of two labels of a user is pruned only together with the younger. */
  lemma PruneTakesYoungerFirst(r: Ledger, user: int, cap: int, u: int, a: string, b: string)
    requires a in r.hosts && b in r.hosts && r.hosts[a].user == r.hosts[b].user == u
    requires Older(HostItemOf(r, a), HostItemOf(r, b))
    ensures b in PruneTo(r, user, cap).hosts ==> a in PruneTo(r, user, cap).hosts
  {
    if user == u {
      assert HostItemOf(r, a) in Items(r, user) && HostItemOf(r, b) in Items(r, user);
      RankBelow(HostItemOf(r, a), HostItemOf(r, b), Items(r, user));
    }
  }

  lemma AuthenticateTakesYoungerFirst(g: Gate, p: Pool, gate: Option<Policy>, w: Presented, u: int, a: string, b: string)
    requires a in p.ledger.hosts && b in p.ledger.hosts && p.ledger.hosts[a].user == p.ledger.hosts[b].user == u
    requires Older(HostItemOf(p.ledger, a), HostItemOf(p.ledger, b))
    ensures var r := AuthenticateAny(g, p, gate, w).pool.ledger;
            b in r.hosts ==> a in r.hosts
  {
    AuthenticateLedger(g, p, gate, w);
    var r := AuthenticateAny(g, p, gate, w).pool.ledger;
    if r.hosts != p.ledger.hosts {
      var user, n :| r.hosts == PruneTo(p.ledger, user, n).hosts && r.ports == PruneTo(p.ledger, user, n).ports;
      PruneTakesYoungerFirst(p.ledger, user, n, u, a, b);
    }
  }

  /** First come, first kept. After any run from start-up under a clock that never
      goes back: if `a` was registered before `b` and has been ever since, then
      `a` is the older, and if both are the same user's, no handshake or tick
      that follows takes `a` away and leaves `b`. */
  lemma EarlierClaimOutlivesLater(domain: string, policy: Policy, instant: real, gate: Option<Policy>, since: int,
                                  before: seq<Event>, after: seq<Event>, a: string, b: string, next: Event)
    requires ClockForward(before, since) && ClockForward(after, LatestOf(before, since))
    requires HeldThroughout(Run(Booted(domain, policy, instant), gate, before), gate, after, a)
    requires b !in Run(Booted(domain, policy, instant), gate, before).pool.ledger.hosts
    requires b in Run(Run(Booted(domain, policy, instant), gate, before), gate, after).pool.ledger.hosts
    ensures var st := Run(Run(Booted(domain, policy, instant), gate, before), gate, after);
            && a in st.pool.ledger.hosts && Older(HostItemOf(st.pool.ledger, a), HostItemOf(st.pool.ledger, b))
            && (st.pool.ledger.hosts[a].user == st.pool.ledger.hosts[b].user && (next.Connect? || next.Tick?) ==>
                  (b in Step(st, gate, next).pool.ledger.hosts ==> a in Step(st, gate, next).pool.ledger.hosts))
  {
    var st0 := Booted(domain, policy, instant);
    var st1 := Run(st0, gate, before);
    RunIsDated(st0, gate, before, since);
    EarlierStaysOlder(st1, gate, after, LatestOf(before, since), a, b);
    var st := Run(st1, gate, after);
    if st.pool.ledger.hosts[a].user == st.pool.ledger.hosts[b].user {
      var u := st.pool.ledger.hosts[a].user;
      match next
      case Connect(w) => AuthenticateTakesYoungerFirst(st.gate, st.pool, gate, w, u, a, b);
      case Tick(s, w, _) =>
        if Serving(st, s) {
          AuthenticateTakesYoungerFirst(st.gate, st.pool, gate, w.(token := st.sessions[s].token), u, a, b);
        }
      case _ =>
    }
  }
}
