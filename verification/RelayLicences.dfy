/** Licence guarantees of whole relay runs: the gate inside the relay performs a
    gate run, so what is proved of gate runs holds of the relay's sessions. */
module RelayLicences {
  import opened Prelude
  import opened Labels
  import opened AgeOrder
  import opened Ownership
  import opened Routing
  import opened Licences
  import opened GateRuns
  import opened Enforcement
  import opened Relay
  import opened Registration
  import opened ClaimReplies

  function AuthEvent(w: Presented): seq<GateEvent> {
    if w.local.Some? then [] else [Authenticate(w.token, w.now, w.instant, w.reply)]
  }

  /** Does this release leave its user with nothing, and so the key unneeded? */
  predicate ReleasesLast(p: Pool, user: int, hosts: seq<string>, ports: seq<PortNumber>) {
    && |hosts| + |ports| <= MAX_CLAIM_ENTRIES
    && (ReleasableHosts(p.ledger, user, LowerAll(hosts)) != {} || ReleasablePorts(p.ledger, user, ports) != {})
    && Count(Release(p.ledger, user, LowerAll(hosts), ports), user) == 0
  }

  /** What a relay event asks of the licence gate. */
  function GateEventsOf(st: State, e: Event): seq<GateEvent> {
    match e
    case Connect(w) => AuthEvent(w)
    case Tick(s, w, _) => if Serving(st, s) then AuthEvent(w.(token := st.sessions[s].token)) else []
    case ClaimRequest(s, i) =>
      if Serving(st, s) && |i.hosts| + |i.ports| <= MAX_CLAIM_ENTRIES
         && PortRefusal(st.pool.ledger, st.sessions[s].user.id, i.ports, i.tcp).None?
      then [Activate(st.sessions[s].token, i.activate)] else []
    case ReleaseRequest(s, hosts, ports, ok) =>
      if Serving(st, s) && ReleasesLast(st.pool, st.sessions[s].user.id, hosts, ports)
      then [Deactivate(st.sessions[s].token, ok)] else []
    case _ => []
  }

  ghost function GateHistory(st: State, policy: Policy, events: seq<Event>): seq<GateEvent>
    decreases |events|
  {
    if events == [] then [] else GateEventsOf(st, events[0]) + GateHistory(Step(st, Some(policy), events[0]), policy, events[1..])
  }

  lemma RegisterAndRouteKeepsCache(c: Cache, p: Pool, who: Handle, cap: Option<int>,
                                   hosts: seq<string>, ports: seq<PortNumber>, clock: nat -> int)
    ensures RegisterAndRoute(c, p, who, cap, hosts, ports, clock).cache == c
  {
  }

  lemma ClaimGate(st: State, policy: Policy, s: nat, i: ClaimInput)
    requires Serving(st, s)
    ensures var c, x := st.gate.cache, st.sessions[s];
            HandleClaim(c, st.pool, Some(policy), s, x.user, x.token, i).cache ==
            if GateEventsOf(st, ClaimRequest(s, i)) == [] then c else EnsureActivated(c, policy, x.token, i.activate).cache
  {
    var c, x := st.gate.cache, st.sessions[s];
    var hosts := LowerAll(i.hosts);
    var g := PassGate(c, st.pool.routes, policy, x.user, x.token, hosts, i.ports, i.activate, i.now);
    if g.Passed? {
      RegisterAndRouteKeepsCache(g.cache, st.pool, Handle(s, x.user.id), g.cap, hosts, i.ports, i.clock);
    }
  }

  /** One relay step moves the gate by exactly the gate events it asks for. */
  lemma StepRunsGate(st: State, policy: Policy, e: Event, log: seq<Record>)
    ensures TracedRun(Traced(st.gate, log), policy, GateEventsOf(st, e)).gate == Step(st, Some(policy), e).gate
  {
    var es := GateEventsOf(st, e);
    if es == [] {
      if e.ClaimRequest? && Serving(st, e.session) {
        ClaimGate(st, policy, e.session, e.input);
      }
    } else {
      assert es[1..] == [];
      assert TracedRun(Traced(st.gate, log), policy, es) == TracedStep(Traced(st.gate, log), policy, es[0]);
      if e.ClaimRequest? {
        ClaimGate(st, policy, e.session, e.input);
      }
    }
  }

  lemma {:induction false} TracedRunAppend(t: Traced, policy: Policy, a: seq<GateEvent>, b: seq<GateEvent>)
    ensures TracedRun(t, policy, a + b) == TracedRun(TracedRun(t, policy, a), policy, b)
    decreases |a|
  {
    if a == [] {
      assert a + b == b;
    } else {
      assert (a + b)[1..] == a[1..] + b;
      TracedRunAppend(TracedStep(t, policy, a[0]), policy, a[1..], b);
    }
  }

  /** A relay run drives its gate through a gate run. */
  lemma {:induction false} RunDrivesGate(st: State, policy: Policy, events: seq<Event>, log: seq<Record>)
    ensures TracedRun(Traced(st.gate, log), policy, GateHistory(st, policy, events)).gate == Run(st, Some(policy), events).gate
    decreases |events|
  {
    if events == [] {
    } else {
      var es := GateEventsOf(st, events[0]);
      var st' := Step(st, Some(policy), events[0]);
      StepRunsGate(st, policy, events[0], log);
      TracedRunAppend(Traced(st.gate, log), policy, es, GateHistory(st', policy, events[1..]));
      RunDrivesGate(st', policy, events[1..], TracedRun(Traced(st.gate, log), policy, es).log);
    }
  }

  /** A backend that grants a key names the customer. */
  predicate NamesCustomers(e: Event) {
    && (e.Connect? && e.presented.reply.Granted? ==> e.presented.reply.customer != "")
    && (e.Tick? && e.presented.reply.Granted? ==> e.presented.reply.customer != "")
  }

  /** Every user the event brings in has a name. */
  predicate Named(e: Event) {
    && NamesCustomers(e)
    && ((e.Connect? || e.Tick?) && e.presented.local.Some? ==> e.presented.local.value.name != "")
  }

  lemma {:induction false} HistoryNamesCustomers(st: State, policy: Policy, events: seq<Event>)
    requires forall i :: 0 <= i < |events| ==> NamesCustomers(events[i])
    ensures forall i :: 0 <= i < |GateHistory(st, policy, events)| ==> NamesCustomer(GateHistory(st, policy, events)[i])
    decreases |events|
  {
    if events == [] {
    } else {
      assert NamesCustomers(events[0]);
      HistoryNamesCustomers(Step(st, Some(policy), events[0]), policy, events[1..]);
    }
  }

  /** The definite backend answers a relay run has received. */
  ghost function AnswersOf(domain: string, policy: Policy, instant: real, events: seq<Event>): seq<Record> {
    TracedRun(Start(policy, instant), policy, GateHistory(Booted(domain, policy, instant), policy, events)).log
  }

  // ----- accounts -----

  /** Every account of `r` is in `q` under the same id. */
  ghost predicate AccountsKept(r: Ledger, q: Ledger) {
    && (forall a :: a in r.users ==> a in q.users && q.users[a] == r.users[a])
    && (UserIdsUnique(r) ==> UserIdsUnique(q))
  }

  predicate HasAccount(r: Ledger, user: User) {
    user.name in r.users && r.users[user.name] == user.id
  }

  /** No two accounts share an id, and every session the gate opened belongs to
      the account of its user's name. */
  ghost predicate AccountsMatch(st: State) {
    && UserIdsUnique(st.pool.ledger)
    && (forall s :: s in st.sessions && st.sessions[s].licensed ==> HasAccount(st.pool.ledger, st.sessions[s].user))
  }

  lemma AuthenticateKeepsAccounts(g: Gate, p: Pool, gate: Option<Policy>, w: Presented)
    ensures var a := AuthenticateAny(g, p, gate, w);
            && AccountsKept(p.ledger, a.pool.ledger)
            && (w.local.None? && a.user.Some? ==> HasAccount(a.pool.ledger, a.user.value))
  {
    if w.local.None? && gate.Some? {
      var verdict := ReplyTo(g, gate.value, Authenticate(w.token, w.now, w.instant, w.reply), true).verdict;
      if verdict.Customer().Some? {
        ResolveUserFacts(p.ledger, verdict.Customer().value);
      }
    }
  }

  lemma ClaimKeepsAccounts(c: Cache, p: Pool, gate: Option<Policy>, session: nat, user: User, token: string, i: ClaimInput)
    ensures HandleClaim(c, p, gate, session, user, token, i).pool.ledger.users == p.ledger.users
  {
    forall cap ensures RegisterFrom(p.ledger, user.id, LowerAll(i.hosts), 0, cap, i.clock).ledger.users == p.ledger.users {
      RegisterFromFacts(p.ledger, user.id, LowerAll(i.hosts), 0, cap, i.clock);
    }
  }

  lemma StepKeepsAccounts(st: State, gate: Option<Policy>, e: Event)
    requires AccountsMatch(st)
    ensures AccountsMatch(Step(st, gate, e))
  {
    match e
    case Connect(w) => AuthenticateKeepsAccounts(st.gate, st.pool, gate, w);
    case ClaimRequest(s, i) =>
      if Serving(st, s) {
        ClaimKeepsAccounts(st.gate.cache, st.pool, gate, s, st.sessions[s].user, st.sessions[s].token, i);
      }
    case Tick(s, w, _) =>
      if Serving(st, s) {
        AuthenticateKeepsAccounts(st.gate, st.pool, gate, w.(token := st.sessions[s].token));
      }
    case AdminAddUser(name) => ResolveUserFacts(st.pool.ledger, name);
    case _ =>
  }

  /** Over every run, admin additions and removals included, user ids stay unique
      and the sessions opened by the gate keep their accounts. */
  lemma {:induction false} RunKeepsAccounts(st: State, gate: Option<Policy>, events: seq<Event>)
    requires AccountsMatch(st)
    ensures AccountsMatch(Run(st, gate, events))
    decreases |events|
  {
    if events == [] {
    } else {
      StepKeepsAccounts(st, gate, events[0]);
      RunKeepsAccounts(Step(st, gate, events[0]), gate, events[1..]);
    }
  }

  /** An id names its account: resolving `name` to the id of a user's account
      means it is their name. */
  lemma SameIdSameName(r: Ledger, name: string, user: User)
    requires UserIdsUnique(r) && HasAccount(r, user)
    requires ResolveUser(r, name).user.Some? && ResolveUser(r, name).user.value.id == user.id
    ensures name == user.name
  {
    ResolveUserFacts(r, name);
  }

  // ----- licensed sessions -----

  /** Live traffic is backed by a live grant. After any run from start-up, if a
      session that is not on a local token survives a tick at `now`, then the most
      recent definite answer for its key is a grant of a mapped benefit, received
      at most max(0, cache TTL, staleness) before `now`, to the customer whose
      account the session belongs to, and the claim gate does not deny that
      account everything. A session the gate opened has the customer's name. */
  lemma {:induction false} SurvivingTickHasLiveGrant(domain: string, policy: Policy, instant: real, events: seq<Event>,
                                                     s: nat, w: Presented, capNow: int)
    requires forall i :: 0 <= i < |events| ==> NamesCustomers(events[i])
    requires w.local.None? && (w.reply.Granted? ==> w.reply.customer != "")
    requires Serving(Run(Booted(domain, policy, instant), Some(policy), events), s)
    ensures var st := Run(Booted(domain, policy, instant), Some(policy), events);
            var st' := Step(st, Some(policy), Tick(s, w, capNow));
            var x := st.sessions[s];
            var e := Authenticate(x.token, w.now, w.instant, w.reply);
            var last := LastAnswer(TracedStep(Traced(st.gate, AnswersOf(domain, policy, instant, events)), policy, e).log, x.token);
            !st'.sessions[s].closing ==>
              && last.Some? && last.value.answer.Granted?
              && last.value.answer.benefit in policy.benefits
              && last.value.at <= w.now <= last.value.at + Max(0, Max(policy.cacheTtl, policy.staleness))
              && (var account := ResolveUser(st.pool.ledger, last.value.answer.customer).user;
                  account.Some? && account.value.id == x.user.id)
              && (x.licensed ==> last.value.answer.customer == x.user.name)
              && CapFor(st'.gate.cache, policy, x.user.name, capNow) != DenyAll
  {
    var st := Run(Booted(domain, policy, instant), Some(policy), events);
    var x := st.sessions[s];
    var history := GateHistory(Booted(domain, policy, instant), policy, events);
    var t := TracedRun(Start(policy, instant), policy, history);
    RunDrivesGate(Booted(domain, policy, instant), policy, events, []);
    assert t.gate == st.gate;
    HistoryNamesCustomers(Booted(domain, policy, instant), policy, events);
    RunKeepsRow(Start(policy, instant), policy, history, x.token);
    AcceptanceMatchesLog(t, policy, Authenticate(x.token, w.now, w.instant, w.reply));
    RunKeepsAccounts(Booted(domain, policy, instant), Some(policy), events);
    var last := LastAnswer(TracedStep(t, policy, Authenticate(x.token, w.now, w.instant, w.reply)).log, x.token);
    if !Step(st, Some(policy), Tick(s, w, capNow)).sessions[s].closing && x.licensed {
      SameIdSameName(st.pool.ledger, last.value.answer.customer, x.user);
    }
  }

  /** No fail-open for the relay: after any run from start-up, a named user is
      uncapped at the claim gate exactly when no key's latest grant names them. */
  lemma UncappedIffNoKeyGranted(domain: string, policy: Policy, instant: real, events: seq<Event>, name: string, now: int)
    requires forall i :: 0 <= i < |events| ==> NamesCustomers(events[i])
    requires name != "" && now != 0
    ensures CapFor(Run(Booted(domain, policy, instant), Some(policy), events).gate.cache, policy, name, now) == Allow
       <==> NoGrantNames(AnswersOf(domain, policy, instant, events), name)
  {
    var history := GateHistory(Booted(domain, policy, instant), policy, events);
    var t := TracedRun(Start(policy, instant), policy, history);
    assert t.gate == Run(Booted(domain, policy, instant), Some(policy), events).gate by {
      RunDrivesGate(Booted(domain, policy, instant), policy, events, []);
    }
    assert CapFor(t.gate.cache, policy, name, now) == Allow <==> NoGrantNames(t.log, name) by {
      HistoryNamesCustomers(Booted(domain, policy, instant), policy, events);
      UncappedIffNeverGranted(policy, instant, history, name, now);
    }
  }

  // ----- names -----

  ghost predicate SessionsNamed(st: State) {
    forall s :: s in st.sessions ==> st.sessions[s].user.name != ""
  }

  lemma StepKeepsNames(st: State, gate: Option<Policy>, e: Event)
    requires SessionsNamed(st) && Named(e)
    ensures SessionsNamed(Step(st, gate, e))
  {
    if e.Connect? && e.presented.local.None? && gate.Some? {
      var w := e.presented;
      var verdict := ReplyTo(st.gate, gate.value, Authenticate(w.token, w.now, w.instant, w.reply), true).verdict;
      if verdict.Customer().Some? {
        ResolveUserFacts(st.pool.ledger, verdict.Customer().value);
      }
    }
  }

  lemma {:induction false} RunKeepsNames(st: State, gate: Option<Policy>, events: seq<Event>)
    requires SessionsNamed(st) && forall i :: 0 <= i < |events| ==> Named(events[i])
    ensures SessionsNamed(Run(st, gate, events))
    decreases |events|
  {
    if events == [] {
    } else {
      assert Named(events[0]);
      StepKeepsNames(st, gate, events[0]);
      RunKeepsNames(Step(st, gate, events[0]), gate, events[1..]);
    }
  }

  // ----- decisions, from the answers alone -----

  /** What every run from start-up establishes about gate, accounts and names. */
  ghost predicate Consistent(st: State, policy: Policy, log: seq<Record>) {
    CacheMatches(st.gate.cache, policy, log) && SessionsNamed(st) && AccountsMatch(st)
  }

  lemma RunIsConsistent(domain: string, policy: Policy, instant: real, events: seq<Event>)
    requires forall i :: 0 <= i < |events| ==> Named(events[i])
    ensures Consistent(Run(Booted(domain, policy, instant), Some(policy), events), policy, AnswersOf(domain, policy, instant, events))
  {
    var st := Booted(domain, policy, instant);
    assert forall i :: 0 <= i < |events| ==> Named(events[i]) ==> NamesCustomers(events[i]);
    RunDrivesGate(st, policy, events, []);
    HistoryNamesCustomers(st, policy, events);
    RunKeepsCache(Start(policy, instant), policy, GateHistory(st, policy, events));
    RunKeepsNames(st, Some(policy), events);
    RunKeepsAccounts(st, Some(policy), events);
  }

  /** The answers after a credential was presented: a licence key may have been
      asked about, a local token never is. */
  ghost function AnswersAfter(g: Gate, log: seq<Record>, policy: Policy, w: Presented): seq<Record> {
    if w.local.Some? then log
    else TracedStep(Traced(g, log), policy, Authenticate(w.token, w.now, w.instant, w.reply)).log
  }

  /** Who a credential belongs to: a local token's user, or the account of the
      customer its key is granted to. */
  ghost function Owner(r: Ledger, log: seq<Record>, log': seq<Record>, policy: Policy, w: Presented): Option<User> {
    if w.local.Some? then w.local
    else
      var customer := Grantee(log, log', policy, w.token, w.now);
      if customer.None? then None else ResolveUser(r, customer.value).user
  }

  lemma AuthenticatesOwner(g: Gate, p: Pool, policy: Policy, log: seq<Record>, w: Presented)
    requires CacheMatches(g.cache, policy, log)
    requires w.reply.Granted? ==> w.reply.customer != ""
    ensures var a, log' := AuthenticateAny(g, p, Some(policy), w), AnswersAfter(g, log, policy, w);
            && a.user == Owner(p.ledger, log, log', policy, w)
            && CacheMatches(a.gate.cache, policy, log')
  {
    if w.local.None? {
      var t, e := Traced(g, log), Authenticate(w.token, w.now, w.instant, w.reply);
      AuthenticatesGrantee(t, policy, e);
      forall key ensures RowMatches(TracedStep(t, policy, e).gate.cache, policy, TracedStep(t, policy, e).log, key) {
        StepKeepsRow(t, policy, e, key);
      }
    }
  }

  /** The sessions after a handshake: one more exactly if its credential has an
      owner, and then it is that user's. */
  ghost function SessionsAfter(st: State, policy: Policy, log: seq<Record>, w: Presented): map<nat, Session> {
    var owner := Owner(st.pool.ledger, log, AnswersAfter(st.gate, log, policy, w), policy, w);
    if owner.Some? then st.sessions[st.nextSession := Session(owner.value, w.token, w.local.None?, false)] else st.sessions
  }

  /** After any run from start-up, a handshake opens a session if and only if its
      credential has an owner, and the session is that user's. */
  lemma ConnectOpensIffOwned(domain: string, policy: Policy, instant: real, events: seq<Event>, w: Presented)
    requires (forall i :: 0 <= i < |events| ==> Named(events[i])) && Named(Connect(w))
    ensures var st := Run(Booted(domain, policy, instant), Some(policy), events);
            Step(st, Some(policy), Connect(w)).sessions == SessionsAfter(st, policy, AnswersOf(domain, policy, instant, events), w)
  {
    RunIsConsistent(domain, policy, instant, events);
    var st := Run(Booted(domain, policy, instant), Some(policy), events);
    AuthenticatesOwner(st.gate, st.pool, policy, AnswersOf(domain, policy, instant, events), w);
  }

  // ----- grants -----

  /** What enforcement leaves of `p` for `user` when a key worth `own` tunnels was
      just granted: the oldest rows up to the best grant of the prune window, and
      routes to no more than the best live grant covers. */
  ghost predicate EnforcesBestGrants(p: Pool, q: Pool, policy: Policy, log: seq<Record>, user: User, own: int, now: int) {
    var rows, early := Items(p.ledger, user.id), SaturatingSub(now, policy.pruneGrace);
    var late := SaturatingSub(now, policy.staleness);
    && (forall v :: v != user.id ==> Items(q.ledger, v) == Items(p.ledger, v))
    && (NoLiveGrant(log, policy, user.name, early, now) ==> Items(q.ledger, user.id) == rows && q.routes == p.routes)
    && (forall m :: BestGrantIs(log, policy, user.name, early, now, m) ==>
          && Items(q.ledger, user.id) == Oldest(rows, Max(m, own))
          && (NoLiveGrant(log, policy, user.name, late, now) ==> StopsExactly(p, q.routes, user.id, Oldest(rows, Max(m, own)))))
    && (forall m :: BestGrantIs(log, policy, user.name, late, now, m) ==> StopsExactly(p, q.routes, user.id, Oldest(rows, Max(m, own))))
  }

  /** The same ledger with other accounts stops the same routes. */
  lemma StopsIgnoresAccounts(p: Pool, p1: Pool, t: Routes, user: int, keep: set<Item>)
    requires p1 == p.(ledger := p.ledger.(users := p1.ledger.users)) && StopsExactly(p1, t, user, keep)
    ensures StopsExactly(p, t, user, keep)
  {
    forall h ensures StopsHost(p.ledger, user, keep, h) <==> StopsHost(p1.ledger, user, keep, h) {
      if StopsHost(p.ledger, user, keep, h) {
        var l :| IsDropped(p.ledger, user, keep, h, l);
        assert IsDropped(p1.ledger, user, keep, h, l);
      }
      if StopsHost(p1.ledger, user, keep, h) {
        var l :| IsDropped(p1.ledger, user, keep, h, l);
        assert IsDropped(p.ledger, user, keep, h, l);
      }
    }
  }

  lemma EnforceFollowsLog(p: Pool, p1: Pool, c: Cache, policy: Policy, log: seq<Record>, user: User, own: int, now: int)
    requires CacheMatches(c, policy, log) && user.name != "" && policy.staleness <= policy.pruneGrace
    requires p1 == p.(ledger := p.ledger.(users := p1.ledger.users))
    ensures EnforcesBestGrants(p, Enforce(p1, c, policy, user, own, now), policy, log, user, own, now)
  {
    var q := Enforce(p1, c, policy, user, own, now);
    var early, late := SaturatingSub(now, policy.pruneGrace), SaturatingSub(now, policy.staleness);
    assert forall v :: Items(p1.ledger, v) == Items(p.ledger, v);
    CapMatchesLog(c, policy, log, user.name, early, now);
    CapMatchesLog(c, policy, log, user.name, late, now);
    EnforceExactly(p1, c, policy, user, own, now);
    var pruned, live := PrunedCap(c, policy, user.name, now), LiveCap(c, policy, user.name, now);
    if pruned.Cap? {
      var cap := Max((if live.Cap? then live else pruned).max, own);
      StopsIgnoresAccounts(p, p1, q.routes, user.id, Oldest(Items(p.ledger, user.id), cap));
    }
  }

  /** After any run from start-up, when the backend grants a key a mapped benefit
      the customer's account is cut to what the answers received, this one
      included, entitle it to: the oldest rows, and routes to the oldest of them. */
  lemma {:induction false} GrantEnforcesBestGrants(domain: string, policy: Policy, instant: real, events: seq<Event>, w: Presented)
    requires (forall i :: 0 <= i < |events| ==> Named(events[i])) && Named(Connect(w))
    requires policy.staleness <= policy.pruneGrace
    requires w.local.None? && w.reply.Granted? && w.reply.benefit in policy.benefits
    requires Calls(Run(Booted(domain, policy, instant), Some(policy), events).gate, policy,
                   Authenticate(w.token, w.now, w.instant, w.reply))
    ensures var st := Run(Booted(domain, policy, instant), Some(policy), events);
            var log := AnswersOf(domain, policy, instant, events);
            var account := ResolveUser(st.pool.ledger, w.reply.customer).user;
            account.Some? ==>
              EnforcesBestGrants(st.pool, AuthenticateAny(st.gate, st.pool, Some(policy), w).pool, policy,
                                 AnswersAfter(st.gate, log, policy, w), account.value, policy.benefits[w.reply.benefit], w.now)
  {
    var st := Run(Booted(domain, policy, instant), Some(policy), events);
    var log := AnswersOf(domain, policy, instant, events);
    RunIsConsistent(domain, policy, instant, events);
    AuthenticatesOwner(st.gate, st.pool, policy, log, w);
    var r := ResolveUser(st.pool.ledger, w.reply.customer);
    if r.user.Some? {
      var a := AuthenticateAny(st.gate, st.pool, Some(policy), w);
      EnforceFollowsLog(st.pool, st.pool.(ledger := r.ledger), a.gate.cache, policy, AnswersAfter(st.gate, log, policy, w),
                        r.user.value, policy.benefits[w.reply.benefit], w.now);
    }
  }

  // ----- ticks -----

  /** The claim gate does not deny `name` everything: no key's latest grant names
      them, or one of those grants is mapped and within staleness. */
  ghost predicate NotDenied(log: seq<Record>, policy: Policy, name: string, now: int) {
    now != 0 && (NoGrantNames(log, name) || !NoLiveGrant(log, policy, name, SaturatingSub(now, policy.staleness), now))
  }

  /** The credential of session `s`, presented again, still belongs to its user,
      who is not denied everything. */
  ghost predicate StillEntitled(st: State, policy: Policy, log: seq<Record>, s: nat, w: Presented, capNow: int)
    requires s in st.sessions
  {
    var x, w' := st.sessions[s], w.(token := st.sessions[s].token);
    var log' := AnswersAfter(st.gate, log, policy, w');
    var owner := Owner(st.pool.ledger, log, log', policy, w');
    owner.Some? && owner.value.id == x.user.id && NotDenied(log', policy, x.user.name, capNow)
  }

  /** The same for a session opened on a key: the key is still granted to its
      user, who is not denied everything. */
  ghost predicate StillGranted(st: State, policy: Policy, log: seq<Record>, s: nat, w: Presented, capNow: int)
    requires s in st.sessions
  {
    var x, w' := st.sessions[s], w.(token := st.sessions[s].token);
    var log' := AnswersAfter(st.gate, log, policy, w');
    Grantee(log, log', policy, x.token, w.now) == Some(x.user.name) && NotDenied(log', policy, x.user.name, capNow)
  }

  /** A key belongs to a user with an account exactly if it is granted to them by
      name. */
  lemma OwnerByName(r: Ledger, log: seq<Record>, log': seq<Record>, policy: Policy, w: Presented, user: User)
    requires UserIdsUnique(r) && HasAccount(r, user) && user.name != "" && w.local.None?
    ensures var owner := Owner(r, log, log', policy, w);
            owner.Some? && owner.value.id == user.id <==> Grantee(log, log', policy, w.token, w.now) == Some(user.name)
  {
    var customer := Grantee(log, log', policy, w.token, w.now);
    if customer.Some? && ResolveUser(r, customer.value).user.Some? && ResolveUser(r, customer.value).user.value.id == user.id {
      SameIdSameName(r, customer.value, user);
    }
  }

  lemma ConsistentTick(st: State, policy: Policy, log: seq<Record>, s: nat, w: Presented, capNow: int)
    requires Consistent(st, policy, log) && Serving(st, s) && Named(Tick(s, w, capNow))
    ensures !Step(st, Some(policy), Tick(s, w, capNow)).sessions[s].closing <==> StillEntitled(st, policy, log, s, w, capNow)
  {
    var x, w' := st.sessions[s], w.(token := st.sessions[s].token);
    AuthenticatesOwner(st.gate, st.pool, policy, log, w');
    var a := AuthenticateAny(st.gate, st.pool, Some(policy), w');
    CapMatchesLog(a.gate.cache, policy, AnswersAfter(st.gate, log, policy, w'), x.user.name,
                  SaturatingSub(capNow, policy.staleness), capNow);
  }

  /** After any run from start-up, a session survives a tick if and only if its
      credential still belongs to its user and the claim gate does not deny that
      user everything, both read from the answers received; if the gate opened it
      on a key, that key must still be granted to its user by name. */
  lemma {:induction false} TickSurvivesIff(domain: string, policy: Policy, instant: real, events: seq<Event>,
                                           s: nat, w: Presented, capNow: int)
    requires (forall i :: 0 <= i < |events| ==> Named(events[i])) && Named(Tick(s, w, capNow))
    requires Serving(Run(Booted(domain, policy, instant), Some(policy), events), s)
    ensures var st := Run(Booted(domain, policy, instant), Some(policy), events);
            var log := AnswersOf(domain, policy, instant, events);
            var survives := !Step(st, Some(policy), Tick(s, w, capNow)).sessions[s].closing;
            && (survives <==> StillEntitled(st, policy, log, s, w, capNow))
            && (st.sessions[s].licensed && w.local.None? ==> (survives <==> StillGranted(st, policy, log, s, w, capNow)))
  {
    var st := Run(Booted(domain, policy, instant), Some(policy), events);
    var log := AnswersOf(domain, policy, instant, events);
    RunIsConsistent(domain, policy, instant, events);
    ConsistentTick(st, policy, log, s, w, capNow);
    if st.sessions[s].licensed && w.local.None? {
      var x, w' := st.sessions[s], w.(token := st.sessions[s].token);
      OwnerByName(st.pool.ledger, log, AnswersAfter(st.gate, log, policy, w'), policy, w', x.user);
    }
  }

  // ----- claims -----

  /** The user's licences cover a claim: the clock works, and either no key's
      latest grant names them, or their best live grant covers the routes after
      the claim and the new rows. */
  ghost predicate Covered(st: State, policy: Policy, log: seq<Record>, s: nat, i: ClaimInput)
    requires s in st.sessions
  {
    var user, hosts := st.sessions[s].user, LowerAll(i.hosts);
    && i.now != 0
    && (|| (NoGrantNames(log, user.name) && Registrable(st.pool.ledger, user.id, hosts, None))
        || exists m :: && BestGrantIs(log, policy, user.name, SaturatingSub(i.now, policy.staleness), i.now, m)
                       && RoutesAfter(st.pool, s, user, i) <= m
                       && Registrable(st.pool.ledger, user.id, hosts, Some(m)))
  }

  lemma ConsistentClaim(st: State, policy: Policy, log: seq<Record>, s: nat, i: ClaimInput)
    requires Consistent(st, policy, log) && s in st.sessions
    ensures var user := st.sessions[s].user;
            && (|| CapFor(st.gate.cache, policy, user.name, i.now).Allow?
                || (CapFor(st.gate.cache, policy, user.name, i.now).Cap?
                    && RoutesAfter(st.pool, s, user, i) <= CapFor(st.gate.cache, policy, user.name, i.now).max))
            && Registrable(st.pool.ledger, user.id, LowerAll(i.hosts), RowCap(st.gate.cache, Some(policy), user, i.now))
            <==> Covered(st, policy, log, s, i)
  {
    var user := st.sessions[s].user;
    var since, cap := SaturatingSub(i.now, policy.staleness), CapFor(st.gate.cache, policy, user.name, i.now);
    CapMatchesLog(st.gate.cache, policy, log, user.name, since, i.now);
    if cap.Cap? {
      assert BestGrantIs(log, policy, user.name, since, i.now, cap.max);
    }
  }

  /** After any run from start-up, a claim being served is granted if and only if
      its frame fits, its ports are claimable, no activation limit is hit and the
      user's licences, read from the answers received, cover it. */
  lemma {:induction false} ClaimGrantedIffCovered(domain: string, policy: Policy, instant: real, events: seq<Event>,
                                                  s: nat, i: ClaimInput)
    requires forall j :: 0 <= j < |events| ==> Named(events[j])
    requires Serving(Run(Booted(domain, policy, instant), Some(policy), events), s)
    ensures var st := Run(Booted(domain, policy, instant), Some(policy), events);
            var x := st.sessions[s];
            var reply := HandleClaim(st.gate.cache, st.pool, Some(policy), s, x.user, x.token, i).reply;
            reply == GrantedClaim(LowerAll(i.hosts), i.ports) <==>
              && FitsFrame(i)
              && AllClaimable(st.pool.ledger, x.user.id, i.ports, i.tcp)
              && !HitsActivationLimit(st.gate.cache, policy, x.token, i.activate)
              && Covered(st, policy, AnswersOf(domain, policy, instant, events), s, i)
  {
    var st := Run(Booted(domain, policy, instant), Some(policy), events);
    RunIsConsistent(domain, policy, instant, events);
    ConsistentClaim(st, policy, AnswersOf(domain, policy, instant, events), s, i);
    ClaimGrantedIff(st.gate.cache, st.pool, Some(policy), s, st.sessions[s].user, st.sessions[s].token, i);
  }
}
