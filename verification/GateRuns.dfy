/** Runs of the licence gate: any sequence of authentications, activations and
    cap queries, with arbitrary clocks and arbitrary backend answers. The
    theorems relate what the gate decides to the backend answers it received. */
module GateRuns {
  import opened Prelude
  import opened Licences
  import opened TokenBucket

  datatype Gate = Gate(cache: Cache, budget: Bucket)

  /** `instant` is the monotonic clock of the call budget; `reply` is what the
      backend answers if it is called. */
  datatype GateEvent =
    | Authenticate(key: string, now: int, instant: real, reply: Answer)
    | Activate(key: string, answer: ActivateAnswer)
    | Deactivate(key: string, deactivated: bool)
    | QueryCap(name: string, capNow: int)

  datatype Reply = Auth(verdict: Verdict) | Activation(ok: bool) | Done | CapIs(decision: CapDecision)

  /** A definite backend answer, and when it was received. */
  datatype Record = Record(key: string, at: int, answer: Answer)

  function BudgetOf(policy: Policy): (lim: Limits)
    ensures ValidLimits(lim)
  {
    BudgetLimits(policy.validateRate, policy.validateBurst)
  }

  /** Is the backend actually called by this event? */
  predicate Calls(g: Gate, policy: Policy, e: GateEvent) {
    && e.Authenticate?
    && Consults(g.cache, policy, e.key, e.now)
    && Take(g.budget, BudgetOf(policy), e.instant).ok
  }

  function EffectiveAnswer(g: Gate, policy: Policy, e: GateEvent): Answer
    requires e.Authenticate?
  {
    if Calls(g, policy, e) then e.reply else Unavailable
  }

  function GateStep(g: Gate, policy: Policy, e: GateEvent, sweeps: bool): Gate {
    match e
    case Authenticate(key, now, instant, reply) =>
      Gate(CheckKey(g.cache, policy, key, now, EffectiveAnswer(g, policy, e), sweeps).cache,
           if Consults(g.cache, policy, key, now) then Take(g.budget, BudgetOf(policy), instant).bucket else g.budget)
    case Activate(key, answer) => g.(cache := EnsureActivated(g.cache, policy, key, answer).cache)
    case Deactivate(key, ok) => g.(cache := ReleaseActivation(g.cache, key, ok))
    case QueryCap(_, _) => g
  }

  ghost function ReplyTo(g: Gate, policy: Policy, e: GateEvent, sweeps: bool): Reply {
    match e
    case Authenticate(key, now, _, _) =>
      Auth(CheckKey(g.cache, policy, key, now, EffectiveAnswer(g, policy, e), sweeps).verdict)
    case Activate(key, answer) => Activation(EnsureActivated(g.cache, policy, key, answer).ok)
    case Deactivate(_, _) => Done
    case QueryCap(name, now) => CapIs(CapFor(g.cache, policy, name, now))
  }

  /** What this event adds to the log of definite answers. */
  function Recorded(g: Gate, policy: Policy, e: GateEvent): seq<Record> {
    if Calls(g, policy, e) && e.reply != Unavailable then [Record(e.key, e.now, e.reply)] else []
  }

  /** A gate together with the definite answers it has received so far. */
  datatype Traced = Traced(gate: Gate, log: seq<Record>)

  function TracedStep(t: Traced, policy: Policy, e: GateEvent): Traced {
    Traced(GateStep(t.gate, policy, e, true), t.log + Recorded(t.gate, policy, e))
  }

  function TracedRun(t: Traced, policy: Policy, events: seq<GateEvent>): Traced
    decreases |events|
  {
    if events == [] then t else TracedRun(TracedStep(t, policy, events[0]), policy, events[1..])
  }

  function Start(policy: Policy, instant: real): Traced {
    Traced(Gate(map[], Bucket(BudgetOf(policy).burst, instant)), [])
  }

  /** A grant always names a customer; the client rejects an empty id. */
  predicate NamesCustomer(e: GateEvent) {
    e.Authenticate? && e.reply.Granted? ==> e.reply.customer != ""
  }

  // ----- reading the log -----

  function LastAnswer(log: seq<Record>, key: string): Option<Record> {
    if log == [] then None
    else if log[|log| - 1].key == key then Some(log[|log| - 1])
    else LastAnswer(log[..|log| - 1], key)
  }

  /** The customer named by the latest grant of `key`. */
  function LastGrantee(log: seq<Record>, key: string): Option<string> {
    if log == [] then None
    else if log[|log| - 1].key == key && log[|log| - 1].answer.Granted? then Some(log[|log| - 1].answer.customer)
    else LastGrantee(log[..|log| - 1], key)
  }

  /** The tunnels a benefit is worth, if the operator mapped it. */
  function MappedCap(policy: Policy, benefit: string): Option<int> {
    if benefit in policy.benefits then Some(policy.benefits[benefit]) else None
  }

  /** What the cache must hold for one key, given the answers received: the row
      of the latest answer, under the customer of the latest grant. Only a key
      never granted may be missing after its last "not licensed". */
  ghost predicate RowMatches(c: Cache, policy: Policy, log: seq<Record>, key: string) {
    var last, grantee := LastAnswer(log, key), LastGrantee(log, key);
    && (last.None? ==> key !in c)
    && (last.Some? && last.value.answer.Granted? ==>
          && grantee == Some(last.value.answer.customer)
          && key in c && c[key].granted
          && c[key].customer == last.value.answer.customer
          && c[key].benefit == last.value.answer.benefit
          && c[key].validatedAt == last.value.at
          && c[key].maxTunnels == MappedCap(policy, c[key].benefit))
    && (last.Some? && !last.value.answer.Granted? && key in c ==>
          !c[key].granted && c[key].validatedAt == last.value.at)
    && (grantee.Some? ==> grantee.value != "" && key in c)
    && (key in c ==> c[key].customer == if grantee.Some? then grantee.value else "")
    && (key in c && c[key].customer == "" ==> c[key].activation.None?)
  }

  lemma LastOfAppend(log: seq<Record>, r: Record, key: string)
    ensures LastAnswer(log + [r], key) == if r.key == key then Some(r) else LastAnswer(log, key)
    ensures LastGrantee(log + [r], key) ==
            if r.key == key && r.answer.Granted? then Some(r.answer.customer) else LastGrantee(log, key)
  {
  }

  /** An authentication touches its own row; at most it sweeps away others that
      name no customer. */
  lemma CheckKeyOther(c: Cache, policy: Policy, key: string, now: int, answer: Answer, other: string)
    requires other != key
    ensures var c' := CheckKey(c, policy, key, now, answer, true).cache;
            && (other in c' ==> other in c && c'[other] == c[other])
            && (other in c && c[other].customer != "" ==> other in c')
  {
  }

  lemma StepLog(t: Traced, policy: Policy, e: GateEvent, key: string)
    ensures var log' := TracedStep(t, policy, e).log;
            var records := Calls(t.gate, policy, e) && e.reply != Unavailable && e.key == key;
            && LastAnswer(log', key) == (if records then Some(Record(key, e.now, e.reply)) else LastAnswer(t.log, key))
            && LastGrantee(log', key) ==
               (if records && e.reply.Granted? then Some(e.reply.customer) else LastGrantee(t.log, key))
  {
    var rec := Recorded(t.gate, policy, e);
    if rec != [] {
      LastOfAppend(t.log, rec[0], key);
      assert TracedStep(t, policy, e).log == t.log + [rec[0]];
    } else {
      assert TracedStep(t, policy, e).log == t.log;
    }
  }

  lemma AuthenticateKeepsOwnRow(t: Traced, policy: Policy, e: GateEvent)
    requires e.Authenticate? && RowMatches(t.gate.cache, policy, t.log, e.key) && NamesCustomer(e)
    ensures var t' := TracedStep(t, policy, e);
            RowMatches(t'.gate.cache, policy, t'.log, e.key)
  {
    StepLog(t, policy, e, e.key);
  }

  lemma AuthenticateKeepsOtherRow(t: Traced, policy: Policy, e: GateEvent, key: string)
    requires e.Authenticate? && key != e.key && RowMatches(t.gate.cache, policy, t.log, key)
    ensures var t' := TracedStep(t, policy, e);
            RowMatches(t'.gate.cache, policy, t'.log, key)
  {
    StepLog(t, policy, e, key);
    CheckKeyOther(t.gate.cache, policy, e.key, e.now, EffectiveAnswer(t.gate, policy, e), key);
  }

  lemma StepKeepsRow(t: Traced, policy: Policy, e: GateEvent, key: string)
    requires RowMatches(t.gate.cache, policy, t.log, key) && NamesCustomer(e)
    ensures var t' := TracedStep(t, policy, e);
            RowMatches(t'.gate.cache, policy, t'.log, key)
  {
    if e.Authenticate? {
      if e.key == key {
        AuthenticateKeepsOwnRow(t, policy, e);
      } else {
        AuthenticateKeepsOtherRow(t, policy, e, key);
      }
    } else {
      assert TracedStep(t, policy, e).log == t.log;
    }
  }

  lemma {:induction false} RunKeepsRow(t: Traced, policy: Policy, events: seq<GateEvent>, key: string)
    requires RowMatches(t.gate.cache, policy, t.log, key)
    requires forall i :: 0 <= i < |events| ==> NamesCustomer(events[i])
    ensures var t' := TracedRun(t, policy, events);
            RowMatches(t'.gate.cache, policy, t'.log, key)
    decreases |events|
  {
    if events == [] {
    } else {
      StepKeepsRow(t, policy, events[0], key);
      RunKeepsRow(TracedStep(t, policy, events[0]), policy, events[1..], key);
    }
  }

  // ----- authentication soundness -----

  lemma AcceptanceMatchesLog(t: Traced, policy: Policy, e: GateEvent)
    requires e.Authenticate? && NamesCustomer(e) && RowMatches(t.gate.cache, policy, t.log, e.key)
    ensures var after := TracedStep(t, policy, e);
            var verdict := ReplyTo(t.gate, policy, e, true).verdict;
            var last := LastAnswer(after.log, e.key);
            verdict.Customer().Some? ==>
              && last.Some? && last.value.answer.Granted?
              && last.value.answer.benefit in policy.benefits
              && verdict.Customer().value == last.value.answer.customer != ""
              && last.value.at <= e.now <= last.value.at + Max(0, Max(policy.cacheTtl, policy.staleness))
              && !IsLocalToken(e.key)
  {
    StepLog(t, policy, e, e.key);
  }

  /** After any run and under any clock: if the gate accepts a key at `now`, the
      most recent definite answer for that key was a grant with a mapped benefit,
      received at some t <= now <= t + max(0, cache TTL, staleness), and the user
      is that grant's customer. */
  lemma AcceptedOnlyOnLatestGrant(policy: Policy, instant: real, events: seq<GateEvent>, e: GateEvent)
    requires forall i :: 0 <= i < |events| ==> NamesCustomer(events[i])
    requires e.Authenticate? && NamesCustomer(e)
    ensures var t := TracedRun(Start(policy, instant), policy, events);
            var after := TracedStep(t, policy, e);
            var verdict := ReplyTo(t.gate, policy, e, true).verdict;
            var last := LastAnswer(after.log, e.key);
            verdict.Customer().Some? ==>
              && last.Some? && last.value.answer.Granted?
              && last.value.answer.benefit in policy.benefits
              && verdict.Customer().value == last.value.answer.customer != ""
              && last.value.at <= e.now <= last.value.at + Max(0, Max(policy.cacheTtl, policy.staleness))
              && !IsLocalToken(e.key)
  {
    RunKeepsRow(Start(policy, instant), policy, events, e.key);
    AcceptanceMatchesLog(TracedRun(Start(policy, instant), policy, events), policy, e);
  }

  /** The bound without the floor at zero: an accepted grant is at most
      max(cache TTL, staleness) old. */
  ghost predicate MeetsPlainBound(policy: Policy, instant: real, events: seq<GateEvent>, e: GateEvent)
    requires e.Authenticate?
  {
    var t := TracedRun(Start(policy, instant), policy, events);
    var last := LastAnswer(TracedStep(t, policy, e).log, e.key);
    ReplyTo(t.gate, policy, e, true).verdict.Customer().Some? ==>
      last.Some? && last.value.at <= e.now <= last.value.at + Max(policy.cacheTtl, policy.staleness)
  }

  /** The bound on every run of a gate with this policy. */
  ghost predicate AlwaysMeetsPlainBound(policy: Policy) {
    forall instant: real, events: seq<GateEvent>, e: GateEvent ::
      e.Authenticate? && NamesCustomer(e) && (forall i :: 0 <= i < |events| ==> NamesCustomer(events[i]))
      ==> MeetsPlainBound(policy, instant, events, e)
  }

  /** With both windows negative, the very first grant of any mapped benefit is
      accepted on the spot and breaks the plain bound. */
  lemma NegativeWindowsBreakPlainBound(policy: Policy, benefit: string)
    requires Max(policy.cacheTtl, policy.staleness) < 0 && benefit in policy.benefits
    ensures !MeetsPlainBound(policy, 0.0, [], Authenticate("k", 7, 0.0, Granted("a", benefit)))
  {
    var t, e := Start(policy, 0.0), Authenticate("k", 7, 0.0, Granted("a", benefit));
    assert TracedRun(t, policy, []) == t;
    assert !IsLocalToken("k");
    assert Calls(t.gate, policy, e);
    StepLog(t, policy, e, "k");
  }

  /** One such gate: both windows five seconds below zero. */
  lemma NegativeWindowsWitness()
    ensures var policy := Policy(-5, -5, -5, false, map["b" := 1], 0, 10);
            !MeetsPlainBound(policy, 0.0, [], Authenticate("k", 7, 0.0, Granted("a", "b")))
  {
    NegativeWindowsBreakPlainBound(Policy(-5, -5, -5, false, map["b" := 1], 0, 10), "b");
  }

  /** The plain bound holds on every run exactly when one of the two windows is
      not negative, or no benefit is mapped and so no key is ever accepted. */
  lemma PlainBoundIffWindowNotNegative(policy: Policy)
    ensures AlwaysMeetsPlainBound(policy) <==> Max(policy.cacheTtl, policy.staleness) >= 0 || policy.benefits == map[]
  {
    if Max(policy.cacheTtl, policy.staleness) >= 0 || policy.benefits == map[] {
      forall instant: real, events: seq<GateEvent>, e: GateEvent
        | e.Authenticate? && NamesCustomer(e) && (forall i :: 0 <= i < |events| ==> NamesCustomer(events[i]))
        ensures MeetsPlainBound(policy, instant, events, e)
      {
        AcceptedOnlyOnLatestGrant(policy, instant, events, e);
      }
    } else {
      var benefit := Pick(policy.benefits.Keys);
      NegativeWindowsBreakPlainBound(policy, benefit);
    }
  }

  /** The converse: a key whose latest answer is a mapped grant is accepted, as
      that customer, throughout the cache window without any call, and
      throughout the staleness window whenever the backend cannot answer. */
  lemma LatestGrantIsHonored(policy: Policy, instant: real, events: seq<GateEvent>, e: GateEvent)
    requires forall i :: 0 <= i < |events| ==> NamesCustomer(events[i])
    requires e.Authenticate? && !IsLocalToken(e.key) && e.now != 0
    ensures var t := TracedRun(Start(policy, instant), policy, events);
            var last := LastAnswer(t.log, e.key);
            last.Some? && last.value.answer.Granted? && last.value.answer.benefit in policy.benefits ==>
              && (last.value.at <= e.now <= last.value.at + policy.cacheTtl ==>
                    && ReplyTo(t.gate, policy, e, true) == Auth(Honor(last.value.answer.customer))
                    && !Calls(t.gate, policy, e))
              && (last.value.at <= e.now <= last.value.at + policy.staleness && EffectiveAnswer(t.gate, policy, e) == Unavailable ==>
                    ReplyTo(t.gate, policy, e, true) == Auth(Honor(last.value.answer.customer)))
  {
    RunKeepsRow(Start(policy, instant), policy, events, e.key);
  }

  /** The customer a key authenticates as at `now`, from the answers alone:
      `before` are those received earlier, `after` includes what this very
      authentication was told. */
  ghost function Grantee(before: seq<Record>, after: seq<Record>, policy: Policy, key: string, now: int): Option<string> {
    var last := LastAnswer(after, key);
    if && !IsLocalToken(key) && now != 0
       && last.Some? && last.value.answer.Granted? && last.value.answer.benefit in policy.benefits
       && (after != before || last.value.at <= now <= last.value.at + Max(policy.cacheTtl, policy.staleness))
    then Some(last.value.answer.customer) else None
  }

  lemma AuthenticatesGrantee(t: Traced, policy: Policy, e: GateEvent)
    requires e.Authenticate? && NamesCustomer(e) && RowMatches(t.gate.cache, policy, t.log, e.key)
    ensures ReplyTo(t.gate, policy, e, true).verdict.Customer()
         == Grantee(t.log, TracedStep(t, policy, e).log, policy, e.key, e.now)
  {
    StepLog(t, policy, e, e.key);
    var c := t.gate.cache;
    if Recorded(t.gate, policy, e) != [] {
      assert TracedStep(t, policy, e).log != t.log;
    } else {
      assert TracedStep(t, policy, e).log == t.log;
    }
  }

  /** Acceptance, exactly: after any run, a key is accepted at `now` if and only
      if its latest definite answer is a mapped grant that was either given just
      now or received at most max(cache TTL, staleness) ago, and the user is that
      grant's customer. */
  lemma AcceptedIffLiveGrant(policy: Policy, instant: real, events: seq<GateEvent>, e: GateEvent)
    requires forall i :: 0 <= i < |events| ==> NamesCustomer(events[i])
    requires e.Authenticate? && NamesCustomer(e)
    ensures var t := TracedRun(Start(policy, instant), policy, events);
            ReplyTo(t.gate, policy, e, true).verdict.Customer()
            == Grantee(t.log, TracedStep(t, policy, e).log, policy, e.key, e.now)
  {
    RunKeepsRow(Start(policy, instant), policy, events, e.key);
    AuthenticatesGrantee(TracedRun(Start(policy, instant), policy, events), policy, e);
  }

  /** When the backend is asked: after any run, about every licence key whose
      latest answer is not within the cache TTL, budget permitting; and never
      about a local token, without a clock, or within the TTL of an answer for a
      key that was once granted. */
  lemma AskedUnlessFresh(policy: Policy, instant: real, events: seq<GateEvent>, e: GateEvent)
    requires forall i :: 0 <= i < |events| ==> NamesCustomer(events[i])
    requires e.Authenticate?
    ensures var t := TracedRun(Start(policy, instant), policy, events);
            var last := LastAnswer(t.log, e.key);
            var recent := last.Some? && last.value.at <= e.now <= last.value.at + policy.cacheTtl;
            && (!IsLocalToken(e.key) && e.now != 0 && !recent && Take(t.gate.budget, BudgetOf(policy), e.instant).ok ==>
                  Calls(t.gate, policy, e))
            && (IsLocalToken(e.key) || e.now == 0 || (recent && LastGrantee(t.log, e.key).Some?) ==> !Calls(t.gate, policy, e))
  {
    RunKeepsRow(Start(policy, instant), policy, events, e.key);
  }

  // ----- no fail-open -----

  /** No key's latest grant names this customer. */
  ghost predicate NoGrantNames(log: seq<Record>, name: string) {
    forall key :: LastGrantee(log, key) != Some(name)
  }

  /** After any run, a named user is uncapped exactly when no key's latest grant
      names them: revocations, ageing, unmapped benefits, sweeps and outages
      never turn a licensed customer into an uncapped one. */
  lemma UncappedIffNeverGranted(policy: Policy, instant: real, events: seq<GateEvent>, name: string, now: int)
    requires forall i :: 0 <= i < |events| ==> NamesCustomer(events[i])
    requires name != "" && now != 0
    ensures var t := TracedRun(Start(policy, instant), policy, events);
            CapFor(t.gate.cache, policy, name, now) == Allow <==> NoGrantNames(t.log, name)
  {
    var t := TracedRun(Start(policy, instant), policy, events);
    forall key ensures key in KeysOf(t.gate.cache, name) <==> LastGrantee(t.log, key) == Some(name) {
      RunKeepsRow(Start(policy, instant), policy, events, key);
      RowOfGrantee(t, policy, key, name);
    }
    if KeysOf(t.gate.cache, name) != {} {
      var key := Pick(KeysOf(t.gate.cache, name));
      assert LastGrantee(t.log, key) == Some(name);
    }
  }

  lemma RowOfGrantee(t: Traced, policy: Policy, key: string, name: string)
    requires RowMatches(t.gate.cache, policy, t.log, key) && name != ""
    ensures key in KeysOf(t.gate.cache, name) <==> LastGrantee(t.log, key) == Some(name)
  {
  }

  /** No key is ever granted to two different customers. */
  ghost predicate StableCustomers(log: seq<Record>) {
    forall i, j :: 0 <= i < |log| && 0 <= j < |log| && log[i].key == log[j].key && log[i].answer.Granted? && log[j].answer.Granted?
                   ==> log[i].answer.customer == log[j].answer.customer
  }

  lemma {:induction false} LogGrows(t: Traced, policy: Policy, events: seq<GateEvent>)
    ensures t.log <= TracedRun(t, policy, events).log
    decreases |events|
  {
    if events == [] {
    } else {
      LogGrows(TracedStep(t, policy, events[0]), policy, events[1..]);
    }
  }

  lemma {:induction false} GranteeIsLogged(log: seq<Record>, key: string)
    requires LastGrantee(log, key).Some?
    ensures exists i :: 0 <= i < |log| && log[i].key == key && log[i].answer.Granted?
                        && log[i].answer.customer == LastGrantee(log, key).value
  {
    if log != [] && !(log[|log| - 1].key == key && log[|log| - 1].answer.Granted?) {
      GranteeIsLogged(log[..|log| - 1], key);
      var i :| 0 <= i < |log| - 1 && log[..|log| - 1][i].key == key && log[..|log| - 1][i].answer.Granted?
               && log[..|log| - 1][i].answer.customer == LastGrantee(log, key).value;
      assert log[i] == log[..|log| - 1][i];
    } else {
      assert log[|log| - 1].key == key;
    }
  }

  lemma {:induction false} LoggedGrantPersists(log: seq<Record>, i: nat)
    requires i < |log| && log[i].answer.Granted?
    ensures LastGrantee(log, log[i].key).Some?
  {
    if i == |log| - 1 {
    } else {
      LoggedGrantPersists(log[..|log| - 1], i);
    }
  }

  /** Provided a key never changes customer: once the cache holds a row for a
      customer, no continuation of the run ever leaves them uncapped. */
  lemma NeverFailsOpen(policy: Policy, instant: real, events: seq<GateEvent>, t: Traced, more: seq<GateEvent>, name: string, now: int)
    requires t == TracedRun(Start(policy, instant), policy, events)
    requires forall i :: 0 <= i < |events| ==> NamesCustomer(events[i])
    requires forall i :: 0 <= i < |more| ==> NamesCustomer(more[i])
    requires name != "" && KeysOf(t.gate.cache, name) != {}
    requires StableCustomers(TracedRun(t, policy, more).log)
    ensures CapFor(TracedRun(t, policy, more).gate.cache, policy, name, now) != Allow
  {
    var key := Pick(KeysOf(t.gate.cache, name));
    RunKeepsRow(Start(policy, instant), policy, events, key);
    RowOutlivesRun(t, policy, more, key, name);
    RowMeansCapped(TracedRun(t, policy, more).gate.cache, policy, key, name, now);
  }

  lemma RowMeansCapped(c: Cache, policy: Policy, key: string, name: string, now: int)
    requires key in KeysOf(c, name)
    ensures CapFor(c, policy, name, now) != Allow
  {
  }

  lemma RowOutlivesRun(t: Traced, policy: Policy, more: seq<GateEvent>, key: string, name: string)
    requires RowMatches(t.gate.cache, policy, t.log, key) && name != "" && key in KeysOf(t.gate.cache, name)
    requires forall i :: 0 <= i < |more| ==> NamesCustomer(more[i])
    requires StableCustomers(TracedRun(t, policy, more).log)
    ensures key in KeysOf(TracedRun(t, policy, more).gate.cache, name)
  {
    var t' := TracedRun(t, policy, more);
    RunKeepsRow(t, policy, more, key);
    RowOfGrantee(t, policy, key, name);
    RowOfGrantee(t', policy, key, name);
    LogGrows(t, policy, more);
    StableGranteePersists(t.log, t'.log, key);
  }

  lemma {:induction false} StableGranteePersists(log: seq<Record>, log': seq<Record>, key: string)
    requires log <= log' && StableCustomers(log') && LastGrantee(log, key).Some?
    ensures LastGrantee(log', key) == LastGrantee(log, key)
    decreases |log'|
  {
    if log == log' {
    } else {
      var front := log'[..|log'| - 1];
      assert log <= front && StableCustomers(front);
      StableGranteePersists(log, front, key);
      GranteeIsLogged(log, key);
    }
  }

  /** The proviso is needed: a key re-granted to another customer leaves the
      first one without a row, hence uncapped. */
  lemma MovedKeyUncapsFormerCustomer()
    ensures var policy := Policy(0, 0, 0, false, map["b" := 1], 0, 10);
            var t := TracedRun(Start(policy, 0.0), policy,
                               [Authenticate("k", 1, 0.0, Granted("a", "b")), Authenticate("k", 2, 0.0, Granted("z", "b"))]);
            CapFor(t.gate.cache, policy, "a", 3) == Allow
  {
  }

  // ----- activations -----

  ghost predicate HoldsActivation(c: Cache, key: string, id: string) {
    key in c && c[key].activation == Some(id)
  }

  /** This event releases the key's activation. */
  predicate Releases(e: GateEvent, key: string) {
    e.Deactivate? && e.key == key && e.deactivated
  }

  lemma StepKeepsActivation(t: Traced, policy: Policy, e: GateEvent, key: string, id: string)
    requires RowMatches(t.gate.cache, policy, t.log, key) && HoldsActivation(t.gate.cache, key, id)
    requires NamesCustomer(e) && !Releases(e, key)
    ensures HoldsActivation(TracedStep(t, policy, e).gate.cache, key, id)
  {
    if e.Authenticate? && e.key != key {
      CheckKeyOther(t.gate.cache, policy, e.key, e.now, EffectiveAnswer(t.gate, policy, e), key);
    }
  }

  lemma {:induction false} RunKeepsActivation(t: Traced, policy: Policy, events: seq<GateEvent>, key: string, id: string)
    requires RowMatches(t.gate.cache, policy, t.log, key) && HoldsActivation(t.gate.cache, key, id)
    requires forall i :: 0 <= i < |events| ==> NamesCustomer(events[i]) && !Releases(events[i], key)
    ensures HoldsActivation(TracedRun(t, policy, events).gate.cache, key, id)
    decreases |events|
  {
    if events == [] {
    } else {
      StepKeepsRow(t, policy, events[0], key);
      StepKeepsActivation(t, policy, events[0], key, id);
      RunKeepsActivation(TracedStep(t, policy, events[0]), policy, events[1..], key, id);
    }
  }

  /** In every run from start-up: an activation, once held, is kept unchanged
      through every re-validation, revocation, sweep and further claim, until it
      is deliberately released. */
  lemma ActivationOutlivesRevalidation(policy: Policy, instant: real, events: seq<GateEvent>, t: Traced,
                                       more: seq<GateEvent>, key: string, id: string)
    requires t == TracedRun(Start(policy, instant), policy, events)
    requires forall i :: 0 <= i < |events| ==> NamesCustomer(events[i])
    requires HoldsActivation(t.gate.cache, key, id)
    requires forall i :: 0 <= i < |more| ==> NamesCustomer(more[i]) && !Releases(more[i], key)
    ensures HoldsActivation(TracedRun(t, policy, more).gate.cache, key, id)
  {
    RunKeepsRow(Start(policy, instant), policy, events, key);
    RunKeepsActivation(t, policy, more, key, id);
  }

  // ----- the pooled cap, from the answers alone -----

  /** The latest answer for `key` grants `name` a mapped benefit, and was received
      between `since` and `now`. */
  predicate LiveGrant(log: seq<Record>, policy: Policy, key: string, name: string, since: int, now: int) {
    var last := LastAnswer(log, key);
    && last.Some? && last.value.answer.Granted?
    && last.value.answer.customer == name
    && last.value.answer.benefit in policy.benefits
    && since <= last.value.at <= now
  }

  function CapOfGrant(log: seq<Record>, policy: Policy, key: string, name: string, since: int, now: int): int
    requires LiveGrant(log, policy, key, name, since, now)
  {
    policy.benefits[LastAnswer(log, key).value.answer.benefit]
  }

  ghost predicate NoLiveGrant(log: seq<Record>, policy: Policy, name: string, since: int, now: int) {
    forall key :: !LiveGrant(log, policy, key, name, since, now)
  }

  /** The best of the live grants is worth `m` tunnels. */
  ghost predicate BestGrantIs(log: seq<Record>, policy: Policy, name: string, since: int, now: int, m: int) {
    && (exists key :: LiveGrant(log, policy, key, name, since, now) && CapOfGrant(log, policy, key, name, since, now) == m)
    && (forall key :: LiveGrant(log, policy, key, name, since, now) ==> CapOfGrant(log, policy, key, name, since, now) <= m)
  }

  /** The cache holds what the answers say, key by key. */
  ghost predicate CacheMatches(c: Cache, policy: Policy, log: seq<Record>) {
    forall key :: RowMatches(c, policy, log, key)
  }

  lemma RunKeepsCache(t: Traced, policy: Policy, events: seq<GateEvent>)
    requires CacheMatches(t.gate.cache, policy, t.log)
    requires forall i :: 0 <= i < |events| ==> NamesCustomer(events[i])
    ensures CacheMatches(TracedRun(t, policy, events).gate.cache, policy, TracedRun(t, policy, events).log)
  {
    forall key ensures RowMatches(TracedRun(t, policy, events).gate.cache, policy, TracedRun(t, policy, events).log, key) {
      RunKeepsRow(t, policy, events, key);
    }
  }

  lemma RowIsLiveGrant(c: Cache, policy: Policy, log: seq<Record>, key: string, name: string, since: int, now: int)
    requires RowMatches(c, policy, log, key) && name != ""
    ensures LiveGrant(log, policy, key, name, since, now) <==>
            key in c && c[key].customer == name && Qualifies(c[key], since, now)
    ensures LiveGrant(log, policy, key, name, since, now) ==>
            c[key].maxTunnels == Some(CapOfGrant(log, policy, key, name, since, now))
    ensures key in KeysOf(c, name) <==> LastGrantee(log, key) == Some(name)
  {
  }

  /** The cap over any window, read from a cache that matches the log: uncapped
      exactly if no latest grant names the user, the best live grant if there is
      one, and otherwise nothing. */
  lemma CapMatchesLog(c: Cache, policy: Policy, log: seq<Record>, name: string, since: int, now: int)
    requires name != "" && CacheMatches(c, policy, log)
    ensures var cap := ResolveCap(c, name, since, now);
            && (cap == Allow <==> NoGrantNames(log, name))
            && (cap == DenyAll <==> !NoGrantNames(log, name) && NoLiveGrant(log, policy, name, since, now))
            && (forall m :: cap == Cap(m) <==> BestGrantIs(log, policy, name, since, now, m))
  {
    forall key
      ensures LiveGrant(log, policy, key, name, since, now) <==>
              key in c && c[key].customer == name && Qualifies(c[key], since, now)
      ensures LiveGrant(log, policy, key, name, since, now) ==>
              c[key].maxTunnels == Some(CapOfGrant(log, policy, key, name, since, now))
      ensures key in KeysOf(c, name) <==> LastGrantee(log, key) == Some(name)
    {
      RowIsLiveGrant(c, policy, log, key, name, since, now);
    }
    var caps := QualifyingCaps(c, name, since, now);
    forall key | LiveGrant(log, policy, key, name, since, now)
      ensures CapOfGrant(log, policy, key, name, since, now) in caps && key in KeysOf(c, name)
    {
      assert key in c && Qualifies(c[key], since, now);
    }
    if KeysOf(c, name) != {} {
      var key := Pick(KeysOf(c, name));
      assert LastGrantee(log, key) == Some(name);
    }
    if caps != {} {
      var best := MaxOf(caps);
      var key :| key in c && c[key].customer == name && Qualifies(c[key], since, now) && c[key].maxTunnels.value == best;
      assert LiveGrant(log, policy, key, name, since, now) && CapOfGrant(log, policy, key, name, since, now) == best;
      assert BestGrantIs(log, policy, name, since, now, best);
    }
  }

  /** After any run, the claim gate's decision is a function of the definite
      answers alone: a named user is uncapped if no key's latest grant names them;
      otherwise their cap is the largest mapped benefit among the keys whose
      latest answer grants it to them within the staleness window, and they are
      denied if there is none. */
  lemma CapIsBestLiveGrant(policy: Policy, instant: real, events: seq<GateEvent>, name: string, now: int)
    requires forall i :: 0 <= i < |events| ==> NamesCustomer(events[i])
    requires name != "" && now != 0
    ensures var t := TracedRun(Start(policy, instant), policy, events);
            var since := SaturatingSub(now, policy.staleness);
            var cap := CapFor(t.gate.cache, policy, name, now);
            && (cap == Allow <==> NoGrantNames(t.log, name))
            && (cap == DenyAll <==> !NoGrantNames(t.log, name) && NoLiveGrant(t.log, policy, name, since, now))
            && (forall m :: cap == Cap(m) <==> BestGrantIs(t.log, policy, name, since, now, m))
  {
    var t := TracedRun(Start(policy, instant), policy, events);
    RunKeepsCache(Start(policy, instant), policy, events);
    CapMatchesLog(t.gate.cache, policy, t.log, name, SaturatingSub(now, policy.staleness), now);
  }

  // ----- the sweep is unobservable -----

  ghost function Replies(g: Gate, policy: Policy, events: seq<GateEvent>, sweeps: bool): seq<Reply>
    decreases |events|
  {
    if events == [] then []
    else [ReplyTo(g, policy, events[0], sweeps)] + Replies(GateStep(g, policy, events[0], sweeps), policy, events[1..], sweeps)
  }

  /** Clock readings never go backwards, apart from failed ones, which read 0. */
  predicate ClockFrom(events: seq<GateEvent>, since: int) {
    && (forall i :: 0 <= i < |events| && events[i].Authenticate? && events[i].now != 0 ==> since <= events[i].now)
    && (forall i, j ::
          0 <= i < j < |events| && events[i].Authenticate? && events[j].Authenticate? && events[i].now != 0 && events[j].now != 0
          ==> events[i].now <= events[j].now)
  }

  predicate NamedQueries(events: seq<GateEvent>) {
    forall i :: 0 <= i < |events| && events[i].QueryCap? ==> events[i].name != ""
  }

  /** `swept` is `full` without some negative rows that expired before `now`. */
  ghost predicate Hides(swept: Cache, full: Cache, policy: Policy, now: int) {
    && (forall k :: k in swept ==> k in full && swept[k] == full[k])
    && (forall k :: k in full && k !in swept ==>
          full[k].customer == "" && full[k].validatedAt + policy.cacheTtl < now)
    && (forall k :: k in full && full[k].customer == "" ==> full[k] == NegativeRow(full[k].validatedAt))
  }

  lemma HiddenRowsQualifyForNobody(swept: Cache, full: Cache, policy: Policy, now: int, name: string, since: int, at: int)
    requires Hides(swept, full, policy, now) && name != ""
    ensures ResolveCap(swept, name, since, at) == ResolveCap(full, name, since, at)
  {
    assert KeysOf(swept, name) == KeysOf(full, name);
    assert QualifyingCaps(swept, name, since, at) == QualifyingCaps(full, name, since, at) by {
      forall m | m in QualifyingCaps(full, name, since, at) ensures m in QualifyingCaps(swept, name, since, at) {
        var k :| k in full && full[k].customer == name && Qualifies(full[k], since, at) && full[k].maxTunnels.value == m;
        assert k in KeysOf(swept, name);
      }
    }
  }

  lemma NotLicensedHides(swept: Cache, full: Cache, policy: Policy, since: int, key: string, now: int)
    requires Hides(swept, full, policy, since) && since <= now
    ensures Hides(RecordNotLicensed(swept, policy, key, now, true), RecordNotLicensed(full, policy, key, now, false), policy, now)
  {
  }

  lemma GrantHides(swept: Cache, full: Cache, policy: Policy, since: int, key: string, now: int, customer: string, benefit: string)
    requires Hides(swept, full, policy, since) && since <= now && customer != ""
    ensures Hides(RecordGrant(swept, policy, key, now, customer, benefit),
                  RecordGrant(full, policy, key, now, customer, benefit), policy, now)
  {
  }

  lemma CheckHides(swept: Cache, full: Cache, policy: Policy, since: int, key: string, now: int, answer: Answer)
    requires Hides(swept, full, policy, since)
    requires now != 0 ==> since <= now
    requires answer.Granted? ==> answer.customer != ""
    ensures Consults(swept, policy, key, now) == Consults(full, policy, key, now)
    ensures CheckKey(swept, policy, key, now, answer, true).verdict == CheckKey(full, policy, key, now, answer, false).verdict
    ensures Hides(CheckKey(swept, policy, key, now, answer, true).cache,
                  CheckKey(full, policy, key, now, answer, false).cache, policy, if now != 0 then now else since)
  {
    if Consults(full, policy, key, now) {
      match answer
      case Granted(customer, benefit) => GrantHides(swept, full, policy, since, key, now, customer, benefit);
      case NotLicensed => NotLicensedHides(swept, full, policy, since, key, now);
      case Unavailable =>
    }
  }

  lemma EventHides(swept: Gate, full: Gate, policy: Policy, since: int, e: GateEvent)
    requires swept.budget == full.budget && Hides(swept.cache, full.cache, policy, since)
    requires e.Authenticate? && e.now != 0 ==> since <= e.now
    requires NamesCustomer(e) && (e.QueryCap? ==> e.name != "")
    ensures ReplyTo(swept, policy, e, true) == ReplyTo(full, policy, e, false)
    ensures GateStep(swept, policy, e, true).budget == GateStep(full, policy, e, false).budget
    ensures Hides(GateStep(swept, policy, e, true).cache, GateStep(full, policy, e, false).cache, policy,
                  if e.Authenticate? && e.now != 0 then e.now else since)
  {
    match e
    case Authenticate(key, now, _, _) =>
      CheckHides(swept.cache, full.cache, policy, since, key, now, EffectiveAnswer(swept, policy, e));
    case QueryCap(name, now) =>
      HiddenRowsQualifyForNobody(swept.cache, full.cache, policy, since, name, SaturatingSub(now, policy.staleness), now);
    case Activate(_, _) =>
    case Deactivate(_, _) =>
  }

  /** Sweeping the negative cache is unobservable: under a clock that never goes
      backwards, the gate that sweeps and a gate that never does give the same
      reply to every event of every run. */
  lemma {:induction false} SweepIsUnobservable(swept: Gate, full: Gate, policy: Policy, since: int, events: seq<GateEvent>)
    requires swept.budget == full.budget && Hides(swept.cache, full.cache, policy, since)
    requires ClockFrom(events, since) && NamedQueries(events)
    requires forall i :: 0 <= i < |events| ==> NamesCustomer(events[i])
    ensures Replies(swept, policy, events, true) == Replies(full, policy, events, false)
    decreases |events|
  {
    if events == [] {
    } else {
      var e := events[0];
      EventHides(swept, full, policy, since, e);
      SweepIsUnobservable(GateStep(swept, policy, e, true), GateStep(full, policy, e, false), policy,
                          if e.Authenticate? && e.now != 0 then e.now else since, events[1..]);
    }
  }

  /** In particular from start-up. */
  lemma SweepIsUnobservableFromStart(policy: Policy, instant: real, since: int, events: seq<GateEvent>)
    requires ClockFrom(events, since) && NamedQueries(events)
    requires forall i :: 0 <= i < |events| ==> NamesCustomer(events[i])
    ensures Replies(Start(policy, instant).gate, policy, events, true) == Replies(Start(policy, instant).gate, policy, events, false)
  {
    SweepIsUnobservable(Start(policy, instant).gate, Start(policy, instant).gate, policy, since, events);
  }

  /** The sweep bounds the negative cache: when a key is newly found unlicensed, no
      negative row older than the cache TTL is left. */
  lemma SweepLeavesOnlyRecent(c: Cache, policy: Policy, key: string, now: int)
    requires key !in c && policy.cacheTtl >= 0
    ensures var c' := RecordNotLicensed(c, policy, key, now, true);
            && (forall k :: k in c' && c'[k].customer == "" ==> now - policy.cacheTtl <= c'[k].validatedAt)
            && (forall k :: k in c && (c[k].customer != "" || now - policy.cacheTtl <= c[k].validatedAt) ==> k in c' && c'[k] == c[k])
  {
  }

  const WITNESS_POLICY := Policy(0, 0, 0, false, map["b" := 1], 0, 10)

  /** One authentication of the witness run: the budget allows the call. */
  lemma WitnessStep(c: Cache, tokens: real, key: string, now: int, reply: Answer, sweeps: bool)
    requires 1.0 <= tokens <= 10.0 && now != 0 && !IsLocalToken(key) && !Fresh(c, WITNESS_POLICY, key, now)
    ensures GateStep(Gate(c, Bucket(tokens, 0.0)), WITNESS_POLICY, Authenticate(key, now, 0.0, reply), sweeps)
         == Gate(CheckKey(c, WITNESS_POLICY, key, now, reply, sweeps).cache, Bucket(tokens - 1.0, 0.0))
  {
  }

  lemma WitnessRun(sweeps: bool)
    ensures var g := Gate(map[], Bucket(10.0, 0.0));
            var g1 := GateStep(g, WITNESS_POLICY, Authenticate("x", 1, 0.0, NotLicensed), sweeps);
            var g2 := GateStep(g1, WITNESS_POLICY, Authenticate("y", 2, 0.0, NotLicensed), sweeps);
            var g3 := GateStep(g2, WITNESS_POLICY, Authenticate("y", 3, 0.0, Granted("a", "b")), sweeps);
            KeysOf(g3.cache, "") == if sweeps then {} else {"x"}
  {
    WitnessStep(map[], 10.0, "x", 1, NotLicensed, sweeps);
    var c1 := map["x" := NegativeRow(1)];
    assert CheckKey(map[], WITNESS_POLICY, "x", 1, NotLicensed, sweeps).cache == c1;
    WitnessStep(c1, 9.0, "y", 2, NotLicensed, sweeps);
    var c2: Cache := if sweeps then map["y" := NegativeRow(2)] else map["x" := NegativeRow(1), "y" := NegativeRow(2)];
    assert CheckKey(c1, WITNESS_POLICY, "y", 2, NotLicensed, sweeps).cache == c2;
    WitnessStep(c2, 8.0, "y", 3, Granted("a", "b"), sweeps);
  }

  /** Naming the user is needed: the placeholder name of the negative rows can
      tell the two gates apart. */
  lemma EmptyNameObservesTheSweep()
    ensures var g := Gate(map[], Bucket(10.0, 0.0));
            var events := [Authenticate("x", 1, 0.0, NotLicensed), Authenticate("y", 2, 0.0, NotLicensed),
                           Authenticate("y", 3, 0.0, Granted("a", "b")), QueryCap("", 3)];
            && ClockFrom(events, 0)
            && Replies(g, WITNESS_POLICY, events, true) != Replies(g, WITNESS_POLICY, events, false)
  {
    WitnessRun(true);
    WitnessRun(false);
    QueryTellsApart(Gate(map[], Bucket(10.0, 0.0)), WITNESS_POLICY, Authenticate("x", 1, 0.0, NotLicensed),
                    Authenticate("y", 2, 0.0, NotLicensed), Authenticate("y", 3, 0.0, Granted("a", "b")), "", 3);
  }

  /** A cap query after three steps tells two gates apart when only one of them
      still has a row for the name. */
  lemma QueryTellsApart(g: Gate, policy: Policy, e1: GateEvent, e2: GateEvent, e3: GateEvent, name: string, now: int)
    requires now != 0
    requires KeysOf(GateStep(GateStep(GateStep(g, policy, e1, true), policy, e2, true), policy, e3, true).cache, name) == {}
    requires KeysOf(GateStep(GateStep(GateStep(g, policy, e1, false), policy, e2, false), policy, e3, false).cache, name) != {}
    ensures Replies(g, policy, [e1, e2, e3, QueryCap(name, now)], true) != Replies(g, policy, [e1, e2, e3, QueryCap(name, now)], false)
  {
    FourReplies(g, policy, e1, e2, e3, QueryCap(name, now), true);
    FourReplies(g, policy, e1, e2, e3, QueryCap(name, now), false);
  }

  lemma FourReplies(g: Gate, policy: Policy, e1: GateEvent, e2: GateEvent, e3: GateEvent, e4: GateEvent, sweeps: bool)
    ensures var g3 := GateStep(GateStep(GateStep(g, policy, e1, sweeps), policy, e2, sweeps), policy, e3, sweeps);
            |Replies(g, policy, [e1, e2, e3, e4], sweeps)| == 4 &&
            Replies(g, policy, [e1, e2, e3, e4], sweeps)[3] == ReplyTo(g3, policy, e4, sweeps)
  {
    var g1 := GateStep(g, policy, e1, sweeps);
    var g2 := GateStep(g1, policy, e2, sweeps);
    var g3 := GateStep(g2, policy, e3, sweeps);
    assert [e1, e2, e3, e4][1..] == [e2, e3, e4] && [e2, e3, e4][1..] == [e3, e4] && [e3, e4][1..] == [e4] && [e4][1..] == [];
    assert Replies(g3, policy, [e4], sweeps) == [ReplyTo(g3, policy, e4, sweeps)];
    assert Replies(g2, policy, [e3, e4], sweeps) == [ReplyTo(g2, policy, e3, sweeps)] + Replies(g3, policy, [e4], sweeps);
    assert Replies(g1, policy, [e2, e3, e4], sweeps) == [ReplyTo(g1, policy, e2, sweeps)] + Replies(g2, policy, [e3, e4], sweeps);
  }

  // ----- the call budget -----

  /** The instants at which a run draws on the call budget. */
  function Draws(g: Gate, policy: Policy, events: seq<GateEvent>): seq<real>
    decreases |events|
  {
    if events == [] then []
    else
      (if events[0].Authenticate? && Consults(g.cache, policy, events[0].key, events[0].now) then [events[0].instant] else [])
      + Draws(GateStep(g, policy, events[0], true), policy, events[1..])
  }

  /** How many times a run calls the backend, as a real. */
  function CallCount(g: Gate, policy: Policy, events: seq<GateEvent>): real
    decreases |events|
  {
    if events == [] then 0.0
    else (if Calls(g, policy, events[0]) then 1.0 else 0.0) + CallCount(GateStep(g, policy, events[0], true), policy, events[1..])
  }

  predicate InstantsWithin(events: seq<GateEvent>, lo: real, hi: real) {
    && (forall i :: 0 <= i < |events| && events[i].Authenticate? ==> lo <= events[i].instant <= hi)
    && (forall i, j :: 0 <= i < j < |events| && events[i].Authenticate? && events[j].Authenticate? ==>
                         events[i].instant <= events[j].instant)
  }

  lemma {:induction false} DrawsAreOrdered(g: Gate, policy: Policy, events: seq<GateEvent>, lo: real, hi: real)
    requires InstantsWithin(events, lo, hi)
    ensures NonDecreasing(Draws(g, policy, events))
    ensures forall i :: 0 <= i < |Draws(g, policy, events)| ==> lo <= Draws(g, policy, events)[i] <= hi
    decreases |events|
  {
    if events == [] {
    } else {
      var from := if events[0].Authenticate? then events[0].instant else lo;
      DrawsAreOrdered(GateStep(g, policy, events[0], true), policy, events[1..], from, hi);
    }
  }

  lemma {:induction false} CallsAreAdmissions(g: Gate, policy: Policy, events: seq<GateEvent>)
    ensures CallCount(g, policy, events) == Admitted(g.budget, BudgetOf(policy), Draws(g, policy, events))
    decreases |events|
  {
    if events == [] {
    } else {
      var g' := GateStep(g, policy, events[0], true);
      CallsAreAdmissions(g', policy, events[1..]);
      if events[0].Authenticate? && Consults(g.cache, policy, events[0].key, events[0].now) {
        var draws := Draws(g, policy, events);
        assert draws[1..] == Draws(g', policy, events[1..]);
      } else {
        assert Draws(g, policy, events) == Draws(g', policy, events[1..]);
      }
    }
  }

  /** In any window of any run the backend is called at most
      burst + rate * (length of the window) times. */
  lemma OutboundCallsAreBounded(g: Gate, policy: Policy, events: seq<GateEvent>, lo: real, hi: real)
    requires g.budget.tokens >= 0.0 && lo <= hi && InstantsWithin(events, lo, hi)
    ensures CallCount(g, policy, events) <= BudgetOf(policy).burst + Gain(lo, hi, BudgetOf(policy))
  {
    CallsAreAdmissions(g, policy, events);
    DrawsAreOrdered(g, policy, events, lo, hi);
    WiderWindowBound(g.budget, BudgetOf(policy), Draws(g, policy, events), lo, hi);
  }

  lemma {:induction false} BudgetStaysNonNegative(t: Traced, policy: Policy, events: seq<GateEvent>)
    requires t.gate.budget.tokens >= 0.0
    ensures TracedRun(t, policy, events).gate.budget.tokens >= 0.0
    decreases |events|
  {
    if events == [] {
    } else {
      if events[0].Authenticate? {
        LevelIsNonNegative(t.gate.budget, BudgetOf(policy), events[0].instant);
      }
      BudgetStaysNonNegative(TracedStep(t, policy, events[0]), policy, events[1..]);
    }
  }

  /** The promise from start-up: after any run at all, the backend calls made in
      the next stretch of time are bounded. */
  lemma OutboundCallsAreBoundedFromStart(policy: Policy, instant: real, before: seq<GateEvent>, window: seq<GateEvent>, lo: real, hi: real)
    requires lo <= hi && InstantsWithin(window, lo, hi)
    ensures CallCount(TracedRun(Start(policy, instant), policy, before).gate, policy, window)
         <= BudgetOf(policy).burst + Gain(lo, hi, BudgetOf(policy))
  {
    BudgetStaysNonNegative(Start(policy, instant), policy, before);
    OutboundCallsAreBounded(TracedRun(Start(policy, instant), policy, before).gate, policy, window, lo, hi);
  }

  lemma {:induction false} BudgetFollowsDraws(t: Traced, policy: Policy, events: seq<GateEvent>)
    ensures TracedRun(t, policy, events).gate.budget == BucketAfter(t.gate.budget, BudgetOf(policy), Draws(t.gate, policy, events))
    decreases |events|
  {
    if events == [] {
    } else {
      var t' := TracedStep(t, policy, events[0]);
      BudgetFollowsDraws(t', policy, events[1..]);
      if events[0].Authenticate? && Consults(t.gate.cache, policy, events[0].key, events[0].now) {
        assert Draws(t.gate, policy, events)[1..] == Draws(t'.gate, policy, events[1..]);
      } else {
        assert Draws(t.gate, policy, events) == Draws(t'.gate, policy, events[1..]);
      }
    }
  }

  /** The instants at which a run from start-up drew on its budget, and the one at
      which it would draw next. */
  function DrawsAndNext(policy: Policy, instant: real, events: seq<GateEvent>, next: real): seq<real> {
    Draws(Start(policy, instant).gate, policy, events) + [next]
  }

  lemma DrawsAndNextAreOrdered(policy: Policy, instant: real, events: seq<GateEvent>, next: real)
    requires InstantsWithin(events, instant, next)
    ensures NonDecreasing(DrawsAndNext(policy, instant, events, next))
  {
    DrawsAreOrdered(Start(policy, instant).gate, policy, events, instant, next);
  }

  /** The budget withholds a call only when it is spent: after any run from
      start-up in time order, if a key needs an answer and the backend is not
      called, then in some stretch of such needs that ends with this one, more
      than burst + rate * (its length) - 1 calls were made. */
  lemma CallWithheldOnlyWhenSpent(policy: Policy, instant: real, events: seq<GateEvent>, e: GateEvent)
    requires e.Authenticate? && InstantsWithin(events, instant, e.instant)
    requires var g := TracedRun(Start(policy, instant), policy, events).gate;
             Consults(g.cache, policy, e.key, e.now) && !Calls(g, policy, e)
    ensures var times := DrawsAndNext(policy, instant, events, e.instant);
            exists i: nat :: i < |times| && AdmittedSince(Start(policy, instant).gate.budget, BudgetOf(policy), times, i) + 1.0
                                            > BudgetOf(policy).burst + Gain(times[i], e.instant, BudgetOf(policy))
  {
    var b, lim := Start(policy, instant).gate.budget, BudgetOf(policy);
    var times := DrawsAndNext(policy, instant, events, e.instant);
    DrawsAndNextAreOrdered(policy, instant, events, e.instant);
    assert RefusesLast(b, lim, times) by {
      BudgetFollowsDraws(Start(policy, instant), policy, events);
      assert times[..|times| - 1] == Draws(Start(policy, instant).gate, policy, events);
    }
    FullBucketRefusesOnlyWhenSpent(b, lim, times);
  }
}
