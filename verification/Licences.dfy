/** The licence cache and the decisions read from it, as values: which keys
    count towards a customer's cap, what an authentication does to the cache,
    and when a key is accepted. Keys stand for their hashes. */
module Licences {
  import opened Prelude

  /** One cached validation result. `maxTunnels` is `None` when the benefit has
      no cap mapping; `granted` is false for a revoked or unknown key. */
  datatype Row = Row(
    customer: string,
    benefit: string,
    maxTunnels: Option<int>,
    granted: bool,
    activation: Option<string>,
    validatedAt: int)

  type Cache = map<string, Row>

  datatype Policy = Policy(
    cacheTtl: int,
    staleness: int,
    pruneGrace: int,
    activateOnClaim: bool,
    benefits: map<string, int>,
    validateRate: nat,
    validateBurst: nat)

  /** The prune window is clamped up to the claim window at construction. */
  function Clamped(p: Policy): Policy {
    if p.pruneGrace < p.staleness then p.(pruneGrace := p.staleness) else p
  }

  datatype CapDecision = Allow | Cap(max: int) | DenyAll

  // ----- pooled caps -----

  function KeysOf(c: Cache, customer: string): set<string> {
    set k | k in c && c[k].customer == customer
  }

  /** A row backs capacity if it is granted, mapped, and validated in the window
      that ends at `now`; a row dated in the future does not count. */
  predicate Qualifies(row: Row, since: int, now: int) {
    row.granted && row.maxTunnels.Some? && since <= row.validatedAt <= now
  }

  function QualifyingCaps(c: Cache, customer: string, since: int, now: int): set<int> {
    set k | k in c && c[k].customer == customer && Qualifies(c[k], since, now) :: c[k].maxTunnels.value
  }

  /** No rows at all is a local account; rows that do not qualify deny. */
  ghost function ResolveCap(c: Cache, customer: string, since: int, now: int): CapDecision {
    var caps := QualifyingCaps(c, customer, since, now);
    if KeysOf(c, customer) == {} then Allow
    else if caps == {} then DenyAll
    else Cap(MaxOf(caps))
  }

  /** The claim gate's decision for a user. */
  ghost function CapFor(c: Cache, policy: Policy, name: string, now: int): CapDecision {
    if now == 0 then DenyAll else ResolveCap(c, name, SaturatingSub(now, policy.staleness), now)
  }

  /** A longer window never lowers the pooled cap. */
  lemma ResolveCapMonotone(c: Cache, customer: string, since: int, since': int, now: int)
    requires since' <= since
    ensures ResolveCap(c, customer, since, now).Cap? ==>
              && ResolveCap(c, customer, since', now).Cap?
              && ResolveCap(c, customer, since, now).max <= ResolveCap(c, customer, since', now).max
  {
    var narrow, wide := QualifyingCaps(c, customer, since, now), QualifyingCaps(c, customer, since', now);
    forall m | m in narrow ensures m in wide {
      var k :| k in c && c[k].customer == customer && Qualifies(c[k], since, now) && c[k].maxTunnels.value == m;
      assert Qualifies(c[k], since', now);
    }
    if narrow != {} {
      assert MaxOf(narrow) in wide;
    }
  }

  /** A qualifying row is a lower bound on its customer's pooled cap. */
  lemma RowBoundsCap(c: Cache, key: string, since: int, now: int)
    requires key in c && Qualifies(c[key], since, now)
    ensures ResolveCap(c, c[key].customer, since, now).Cap?
    ensures c[key].maxTunnels.value <= ResolveCap(c, c[key].customer, since, now).max
  {
    assert key in KeysOf(c, c[key].customer);
    assert c[key].maxTunnels.value in QualifyingCaps(c, c[key].customer, since, now);
  }

  // ----- cache updates -----

  /** Insert or refresh, keeping a stored activation unless a new one is given. */
  function Upsert(c: Cache, key: string, row: Row): Cache {
    c[key := if row.activation.None? && key in c then row.(activation := c[key].activation) else row]
  }

  /** Delete negative rows (no customer) older than the cutoff. */
  function SweepNegative(c: Cache, olderThan: int): Cache {
    map k | k in c && !(c[k].customer == "" && c[k].validatedAt < olderThan) :: c[k]
  }

  function SetActivation(c: Cache, key: string, id: Option<string>): Cache {
    if key in c then c[key := c[key].(activation := id)] else c
  }

  // ----- authentication -----

  datatype Answer = Granted(customer: string, benefit: string) | NotLicensed | Unavailable

  /** `Honor` accepts on cached evidence; `Admit` accepts a fresh grant, which
      also triggers cap enforcement with that key's cap. */
  datatype Verdict = Reject | Honor(customer: string) | Admit(customer: string, cap: int)
  {
    function Customer(): Option<string> {
      match this
      case Reject => None
      case Honor(c) => Some(c)
      case Admit(c, _) => Some(c)
    }
  }

  datatype Checked = Checked(cache: Cache, verdict: Verdict)

  /** Local tokens are never licence keys. */
  predicate IsLocalToken(key: string) {
    "etun_" <= key
  }

  predicate Fresh(c: Cache, policy: Policy, key: string, now: int) {
    key in c && c[key].validatedAt <= now <= c[key].validatedAt + policy.cacheTtl
  }

  /** Does authenticating `key` at `now` need an answer from the backend? */
  predicate Consults(c: Cache, policy: Policy, key: string, now: int) {
    !IsLocalToken(key) && now != 0 && !Fresh(c, policy, key, now)
  }

  predicate HonorsGrant(row: Row) {
    row.granted && row.maxTunnels.Some?
  }

  function NegativeRow(now: int): Row {
    Row("", "", None, false, None, now)
  }

  /** Record a definite "not licensed": sweep old negatives before adding a new
      one, otherwise mark the known row. */
  function RecordNotLicensed(c: Cache, policy: Policy, key: string, now: int, sweeps: bool): Cache {
    if key in c then Upsert(c, key, c[key].(granted := false, validatedAt := now))
    else
      var c1 := if sweeps then SweepNegative(c, now - policy.cacheTtl) else c;
      Upsert(c1, key, NegativeRow(now))
  }

  function RecordGrant(c: Cache, policy: Policy, key: string, now: int, customer: string, benefit: string): Cache {
    var cap := if benefit in policy.benefits then Some(policy.benefits[benefit]) else None;
    Upsert(c, key, Row(customer, benefit, cap, true, None, now))
  }

  /** Authenticate `key`. `answer` is what the backend says (or `Unavailable`
      when the call budget is spent); it is ignored when the cache is fresh.
      `sweeps` is true for the relay's gate and false for the reference gate
      that never sweeps. */
  function CheckKey(c: Cache, policy: Policy, key: string, now: int, answer: Answer, sweeps: bool): Checked {
    if IsLocalToken(key) || now == 0 then Checked(c, Reject)
    else if Fresh(c, policy, key, now) then
      Checked(c, if HonorsGrant(c[key]) then Honor(c[key].customer) else Reject)
    else
      match answer
      case Granted(customer, benefit) =>
        Checked(RecordGrant(c, policy, key, now, customer, benefit),
                if benefit in policy.benefits then Admit(customer, policy.benefits[benefit]) else Reject)
      case NotLicensed =>
        Checked(RecordNotLicensed(c, policy, key, now, sweeps), Reject)
      case Unavailable =>
        Checked(c,
                if key in c && HonorsGrant(c[key]) && c[key].validatedAt <= now <= c[key].validatedAt + policy.staleness
                then Honor(c[key].customer) else Reject)
  }

  // ----- activation -----

  datatype ActivateAnswer = Activated(id: string) | LimitReached | ActivateUnavailable
  datatype ActivationResult = ActivationResult(cache: Cache, ok: bool)

  /** Ensure the key holds its activation before a claim; only a reached limit
      denies the claim. */
  function EnsureActivated(c: Cache, policy: Policy, key: string, answer: ActivateAnswer): ActivationResult {
    if !policy.activateOnClaim || key !in c || !c[key].granted || c[key].activation.Some? then ActivationResult(c, true)
    else
      match answer
      case Activated(id) => ActivationResult(SetActivation(c, key, Some(id)), true)
      case LimitReached => ActivationResult(c, false)
      case ActivateUnavailable => ActivationResult(c, true)
  }

  /** Release the activation after the last owned resource is gone. */
  function ReleaseActivation(c: Cache, key: string, deactivated: bool): Cache {
    if key in c && c[key].activation.Some? && deactivated then SetActivation(c, key, None) else c
  }
}
