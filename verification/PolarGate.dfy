/** The licence gate as the relay runs it: the cache, the call budget, the
    registry and the router updated in place. */
module PolarGate {
  import opened Prelude
  import opened Labels
  import opened AgeOrder
  import opened Ownership
  import opened Routing
  import opened Licences
  import opened TokenBucket
  import opened GateRuns
  import opened Enforcement
  import opened Relay
  import R = Registry
  import T = Router

  /** The local cache of validation results. */
  class LicenseCache {
    var rows: Cache

    constructor ()
      ensures rows == map[]
    {
      rows := map[];
    }

    /** One scan over a customer's rows: how many there are, and the largest cap
        among those that qualify. */
    method CapForCustomer(customer: string, since: int, now: int) returns (count: nat, max: Option<int>)
      ensures count == |KeysOf(rows, customer)|
      ensures max == MaxIfAny(QualifyingCaps(rows, customer, since, now))
    {
      count, max := ScanCaps(rows, KeysOf(rows, customer), since, now);
      assert CapsAmong(rows, KeysOf(rows, customer), since, now) == QualifyingCaps(rows, customer, since, now);
    }

    method RecordGranted(policy: Policy, key: string, now: int, customer: string, benefit: string) returns (cap: Option<int>)
      modifies this
      ensures rows == RecordGrant(old(rows), policy, key, now, customer, benefit)
      ensures cap == if benefit in policy.benefits then Some(policy.benefits[benefit]) else None
    {
      cap := if benefit in policy.benefits then Some(policy.benefits[benefit]) else None;
      rows := Upsert(rows, key, Row(customer, benefit, cap, true, None, now));
    }

    method RecordDenied(policy: Policy, key: string, now: int)
      modifies this
      ensures rows == RecordNotLicensed(old(rows), policy, key, now, true)
    {
      if key in rows {
        rows := Upsert(rows, key, rows[key].(granted := false, validatedAt := now));
      } else {
        rows := SweepNegative(rows, now - policy.cacheTtl);
        rows := Upsert(rows, key, NegativeRow(now));
      }
    }
  }

  /** Count the given rows and take the largest qualifying cap among them. */
  method ScanCaps(rows: Cache, keys: set<string>, since: int, now: int) returns (count: nat, max: Option<int>)
    requires keys <= rows.Keys
    ensures count == |keys|
    ensures max == MaxIfAny(CapsAmong(rows, keys, since, now))
  {
    count, max := 0, None;
    var todo := keys;
    assert CapsAmong(rows, keys - todo, since, now) == {};
    while todo != {}
      invariant todo <= keys
      invariant count + |todo| == |keys|
      invariant max == MaxIfAny(CapsAmong(rows, keys - todo, since, now))
      decreases |todo|
    {
      var k :| k in todo;
      max := WithRow(rows, keys - todo, k, since, now, max);
      assert keys - (todo - {k}) == (keys - todo) + {k};
      count, todo := count + 1, todo - {k};
    }
    assert keys - todo == keys;
  }

  /** Fold one more row into the running maximum. */
  method WithRow(rows: Cache, ghost seen: set<string>, key: string, since: int, now: int, max: Option<int>) returns (max': Option<int>)
    requires seen <= rows.Keys && key in rows
    requires max == MaxIfAny(CapsAmong(rows, seen, since, now))
    ensures max' == MaxIfAny(CapsAmong(rows, seen + {key}, since, now))
  {
    CapsAmongInsert(rows, seen, key, since, now);
    max' := max;
    if Qualifies(rows[key], since, now) {
      var m := rows[key].maxTunnels.value;
      MaxIfAnyInsert(CapsAmong(rows, seen, since, now), m);
      if max.None? || max.value < m {
        max' := Some(m);
      }
    }
  }

  class PolarGate {
    const policy: Policy
    const cache: LicenseCache
    const budget: ValidateBudget
    const registry: R.Registry
    const router: T.Router

    /** The configured prune window is clamped up to the staleness window. */
    constructor (configured: Policy, cache: LicenseCache, registry: R.Registry, router: T.Router, instant: real)
      ensures policy == Clamped(configured) && policy.staleness <= policy.pruneGrace
      ensures policy == configured.(pruneGrace := Max(configured.pruneGrace, configured.staleness))
      ensures this.cache == cache && this.registry == registry && this.router == router
      ensures fresh(budget) && budget.limits == BudgetOf(policy)
      ensures GateState() == Gate(cache.rows, Bucket(BudgetOf(policy).burst, instant))
    {
      this.policy := Clamped(configured);
      this.cache := cache;
      this.registry := registry;
      this.router := router;
      this.budget := new ValidateBudget(configured.validateRate, configured.validateBurst, instant);
    }

    function GateState(): Gate
      reads cache, budget
    {
      Gate(cache.rows, budget.state)
    }

    function PoolState(): Pool
      reads registry, router
    {
      Pool(registry.State(), router.Table())
    }

    ghost predicate Valid()
      reads budget, registry, router
    {
      router.Valid() && RowIdsUnique(registry.State()) && budget.limits == BudgetOf(policy)
    }

    method ResolveCapDecision(customer: string, since: int, now: int) returns (d: CapDecision)
      ensures d == ResolveCap(cache.rows, customer, since, now)
    {
      var count, max := cache.CapForCustomer(customer, since, now);
      if count == 0 {
        return Allow;
      }
      return if max.Some? then Cap(max.value) else DenyAll;
    }

    method CapForUser(name: string, now: int) returns (d: CapDecision)
      ensures d == CapFor(cache.rows, policy, name, now)
    {
      if now == 0 {
        return DenyAll;
      }
      d := ResolveCapDecision(name, SaturatingSub(now, policy.staleness), now);
    }

    /** Stop the routes of the given labels and ports; report how many were live. */
    method TearDownRoutes(names: seq<string>, numbers: seq<PortNumber>) returns (count: nat)
      requires Valid()
      modifies router
      ensures Valid()
      ensures router.Table() == Evicted(old(router.Table()), Fqdns(registry.domain, Elements(names)), Elements(numbers))
    {
      var fqdns := seq(|names|, i requires 0 <= i < |names| => Fqdn(registry.domain, names[i]));
      assert Elements(fqdns) == Fqdns(registry.domain, Elements(names)) by {
        forall f | f in Fqdns(registry.domain, Elements(names)) ensures f in fqdns {
          var l :| l in names && Fqdn(registry.domain, l) == f;
          var i :| 0 <= i < |names| && names[i] == l;
          assert fqdns[i] == f;
        }
      }
      var evicted := router.EvictRoutes(fqdns, numbers);
      count := |evicted|;
    }

    /** Prune to `cap` and stop the routes of whatever was pruned. */
    method ReconcileUserCap(user: int, cap: int)
      requires Valid()
      modifies registry, router
      ensures Valid()
      ensures PoolState() == Reconcile(old(PoolState()), user, cap)
    {
      PruneOwnership(registry.State(), user, cap);
      ghost var before := PoolState();
      var names, numbers := registry.PruneOwnedToCap(user, cap);
      if names == [] && numbers == [] {
        TearDownNothing(before, OverCap(Items(before.ledger, user), cap));
        return;
      }
      var _ := TearDownRoutes(names, numbers);
    }

    /** Stop the routes past `cap`, leaving the reservations in place. */
    method EvictOverCap(user: int, cap: int)
      requires Valid()
      modifies router
      ensures Valid()
      ensures PoolState() == EvictOver(old(PoolState()), user, cap)
    {
      ghost var before := PoolState();
      var names, numbers := registry.OwnedOverCap(user, cap);
      if names == [] && numbers == [] {
        TearDownNothing(before, OverCap(Items(before.ledger, user), cap));
        return;
      }
      var _ := TearDownRoutes(names, numbers);
    }

    method EnforcePooledCap(user: User, cap: int, now: int)
      requires Valid()
      modifies registry, router
      ensures Valid()
      ensures PoolState() == Enforce(old(PoolState()), cache.rows, policy, user, cap, now)
    {
      var pooled := ResolveCapDecision(user.name, SaturatingSub(now, policy.pruneGrace), now);
      if pooled.Cap? {
        ReconcileUserCap(user.id, if pooled.max < cap then cap else pooled.max);
      }
      var live := ResolveCapDecision(user.name, SaturatingSub(now, policy.staleness), now);
      if live.Cap? {
        EvictOverCap(user.id, if live.max < cap then cap else live.max);
      }
    }

    /** Authenticate a presented licence key. `reply` is what the backend would
        answer; it is only looked at if the cache is stale and the budget allows. */
    method AuthenticateKey(w: Presented) returns (user: Option<User>)
      requires Valid()
      modifies cache, budget, registry, router
      ensures Valid()
      ensures AuthStep(GateState(), PoolState(), user) == GateAuthenticate(old(GateState()), old(PoolState()), policy, w)
    {
      var key, now := w.token, w.now;
      if IsLocalToken(key) || now == 0 {
        return None;
      }
      if key in cache.rows {
        var row := cache.rows[key];
        if now >= row.validatedAt && now <= row.validatedAt + policy.cacheTtl {
          if row.granted && row.maxTunnels.Some? {
            user := registry.ResolveAccount(row.customer);
            return;
          }
          return None;
        }
      }
      user := AuthenticateStale(w);
    }

    /** The part of authentication that needs a backend answer. */
    method AuthenticateStale(w: Presented) returns (user: Option<User>)
      requires Valid() && Consults(cache.rows, policy, w.token, w.now)
      modifies cache, budget, registry, router
      ensures Valid()
      ensures AuthStep(GateState(), PoolState(), user) == GateAuthenticate(old(GateState()), old(PoolState()), policy, w)
    {
      var key, now := w.token, w.now;
      var allowed := budget.TryTake(w.instant);
      var outcome := if allowed then w.reply else Unavailable;
      match outcome {
        case Granted(customer, benefit) =>
          var cap := cache.RecordGranted(policy, key, now, customer, benefit);
          if cap.None? {
            return None;
          }
          user := registry.ResolveAccount(customer);
          if user.Some? {
            EnforcePooledCap(user.value, cap.value, now);
          }
        case NotLicensed =>
          cache.RecordDenied(policy, key, now);
          return None;
        case Unavailable =>
          if key in cache.rows {
            var row := cache.rows[key];
            if row.granted && row.maxTunnels.Some? && now >= row.validatedAt && now <= row.validatedAt + policy.staleness {
              user := registry.ResolveAccount(row.customer);
              return;
            }
          }
          return None;
      }
    }

    /** Ensure the key holds its activation before a claim proceeds. */
    method EnsureKeyActivated(key: string, answer: ActivateAnswer) returns (ok: bool)
      modifies cache
      ensures ActivationResult(cache.rows, ok) == EnsureActivated(old(cache.rows), policy, key, answer)
    {
      if !policy.activateOnClaim || key !in cache.rows || !cache.rows[key].granted {
        return true;
      }
      if cache.rows[key].activation.Some? {
        return true;
      }
      match answer {
        case Activated(id) =>
          cache.rows := SetActivation(cache.rows, key, Some(id));
          return true;
        case LimitReached => return false;
        case ActivateUnavailable => return true;
      }
    }

    method ReleaseKeyActivation(key: string, deactivated: bool)
      modifies cache
      ensures cache.rows == ReleaseActivation(old(cache.rows), key, deactivated)
    {
      if key !in cache.rows || cache.rows[key].activation.None? {
        return;
      }
      if deactivated {
        cache.rows := SetActivation(cache.rows, key, None);
      }
    }
  }

  /** The caps granted by the qualifying rows among `keys`. */
  function CapsAmong(rows: Cache, keys: set<string>, since: int, now: int): set<int>
    requires keys <= rows.Keys
  {
    set k | k in keys && Qualifies(rows[k], since, now) :: rows[k].maxTunnels.value
  }

  ghost function MaxIfAny(caps: set<int>): Option<int> {
    if caps == {} then None else Some(MaxOf(caps))
  }

  lemma MaxIfAnyInsert(caps: set<int>, m: int)
    ensures MaxIfAny(caps + {m}) == Some(if caps == {} then m else Max(MaxOf(caps), m))
  {
  }

  lemma CapsAmongInsert(rows: Cache, keys: set<string>, key: string, since: int, now: int)
    requires keys <= rows.Keys && key in rows
    ensures CapsAmong(rows, keys + {key}, since, now) ==
            CapsAmong(rows, keys, since, now) + (if Qualifies(rows[key], since, now) then {rows[key].maxTunnels.value} else {})
  {
  }
}
