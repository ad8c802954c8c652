/** Cap enforcement across the licence cache, the ledger and the routing table.
    Two windows apply: reservations survive for the long prune window, live
    traffic only for the staleness window the claim gate uses. */
module Enforcement {
  import opened Prelude
  import opened Labels
  import opened AgeOrder
  import opened Ownership
  import opened Routing
  import opened Licences

  /** The state enforcement acts on. */
  datatype Pool = Pool(ledger: Ledger, routes: Routes)

  function Fqdns(domain: string, names: set<string>): set<string> {
    set l | l in names :: Fqdn(domain, l)
  }

  /** Stop the live routes of the given items. */
  function TornDown(p: Pool, over: set<Item>): Routes {
    Evicted(p.routes, Fqdns(p.ledger.domain, LabelsIn(over)), PortsIn(over))
  }

  /** Delete the rows past `cap`, and their routes. */
  function Reconcile(p: Pool, user: int, cap: int): Pool {
    Pool(PruneTo(p.ledger, user, cap), TornDown(p, OverCap(Items(p.ledger, user), cap)))
  }

  /** Stop the routes past `cap`, keeping the rows. */
  function EvictOver(p: Pool, user: int, cap: int): Pool {
    p.(routes := TornDown(p, OverCap(Items(p.ledger, user), cap)))
  }

  /** Enforcement on a key with cap `cap` that was just validated at `now`. */
  ghost function Enforce(p: Pool, c: Cache, policy: Policy, user: User, cap: int, now: int): Pool {
    var pooled := ResolveCap(c, user.name, SaturatingSub(now, policy.pruneGrace), now);
    var live := ResolveCap(c, user.name, SaturatingSub(now, policy.staleness), now);
    var p1 := if pooled.Cap? then Reconcile(p, user.id, Max(pooled.max, cap)) else p;
    if live.Cap? then EvictOver(p1, user.id, Max(live.max, cap)) else p1
  }

  /** Nothing over the cap means nothing to stop. */
  lemma TearDownNothing(p: Pool, over: set<Item>)
    requires LabelsIn(over) == {} && PortsIn(over) == {}
    ensures TornDown(p, over) == p.routes
  {
  }

  lemma WithinCapChangesNothing(p: Pool, user: int, cap: int)
    requires RowIdsUnique(p.ledger) && Count(p.ledger, user) <= Max(cap, 0)
    ensures Reconcile(p, user, cap) == p && EvictOver(p, user, cap) == p
  {
    PruneWithinCap(p.ledger, user, cap);
    TearDownNothing(p, {});
  }

  // ----- the prune never outruns the claim gate -----

  /** For every cache, clock and pair of configured windows: while the claim gate
      reports a cap the user is within, enforcement at that instant deletes no
      row and stops no route, whichever key triggers it. */
  lemma PruneNeverOutrunsGate(p: Pool, c: Cache, configured: Policy, user: User, cap: int, now: int, n: int)
    requires RowIdsUnique(p.ledger)
    requires CapFor(c, Clamped(configured), user.name, now) == Cap(n)
    requires Count(p.ledger, user.id) <= n
    ensures Enforce(p, c, Clamped(configured), user, cap, now) == p
  {
    var policy := Clamped(configured);
    var since, since' := SaturatingSub(now, policy.staleness), SaturatingSub(now, policy.pruneGrace);
    ResolveCapMonotone(c, user.name, since, since', now);
    var pooled := ResolveCap(c, user.name, since', now);
    WithinCapChangesNothing(p, user.id, Max(pooled.max, cap));
    WithinCapChangesNothing(p, user.id, Max(n, cap));
  }

  // ----- what a fresh grant enforces -----

  ghost function PrunedCap(c: Cache, policy: Policy, name: string, now: int): CapDecision {
    ResolveCap(c, name, SaturatingSub(now, policy.pruneGrace), now)
  }

  ghost function LiveCap(c: Cache, policy: Policy, name: string, now: int): CapDecision {
    ResolveCap(c, name, SaturatingSub(now, policy.staleness), now)
  }

  /** A fresh mapped grant counts in both windows, so both caps exist, the prune
      cap is the larger, and neither is below the key's own cap: the floors in
      the enforcement never bind. */
  lemma FreshGrantSetsBothCaps(c: Cache, configured: Policy, key: string, now: int, customer: string, benefit: string)
    requires I64_MIN <= now <= I64_MAX && configured.staleness >= 0 && benefit in configured.benefits
    ensures var policy := Clamped(configured);
            var c' := RecordGrant(c, policy, key, now, customer, benefit);
            && PrunedCap(c', policy, customer, now).Cap? && LiveCap(c', policy, customer, now).Cap?
            && policy.benefits[benefit] <= LiveCap(c', policy, customer, now).max
            && LiveCap(c', policy, customer, now).max <= PrunedCap(c', policy, customer, now).max
  {
    var policy := Clamped(configured);
    var c' := RecordGrant(c, policy, key, now, customer, benefit);
    var since := SaturatingSub(now, policy.staleness);
    assert c'[key].customer == customer && Qualifies(c'[key], since, now);
    RowBoundsCap(c', key, since, now);
    ResolveCapMonotone(c', customer, since, SaturatingSub(now, policy.pruneGrace), now);
  }

  /** `h` is the hostname of a label of the user's that is not in `keep`. */
  predicate IsDropped(r: Ledger, user: int, keep: set<Item>, h: string, l: string) {
    l in r.hosts && r.hosts[l].user == user && h == Fqdn(r.domain, l) && HostItemOf(r, l) !in keep
  }

  ghost predicate StopsHost(r: Ledger, user: int, keep: set<Item>, h: string) {
    exists l :: IsDropped(r, user, keep, h, l)
  }

  predicate StopsPort(r: Ledger, user: int, keep: set<Item>, n: PortNumber) {
    n in r.ports && r.ports[n].user == user && PortItemOf(r, n) !in keep
  }

  /** `t` has exactly the routes of `p` except those to the user's resources
      outside `keep`. */
  ghost predicate StopsExactly(p: Pool, t: Routes, user: int, keep: set<Item>) {
    && (forall h :: h in t.http <==> h in p.routes.http && !StopsHost(p.ledger, user, keep, h))
    && (forall n :: n in t.tcp <==> n in p.routes.tcp && !StopsPort(p.ledger, user, keep, n))
    && (forall h :: h in t.http ==> t.http[h] == p.routes.http[h])
    && (forall n :: n in t.tcp ==> t.tcp[n] == p.routes.tcp[n])
  }

  lemma TornDownExactly(p: Pool, user: int, cap: int)
    ensures StopsExactly(p, TornDown(p, OverCap(Items(p.ledger, user), cap)), user, Oldest(Items(p.ledger, user), cap))
  {
    var items := Items(p.ledger, user);
    var over, keep := OverCap(items, cap), Oldest(items, cap);
    forall h ensures h in Fqdns(p.ledger.domain, LabelsIn(over)) <==> StopsHost(p.ledger, user, keep, h) {
      if StopsHost(p.ledger, user, keep, h) {
        var l :| IsDropped(p.ledger, user, keep, h, l);
        assert HostItemOf(p.ledger, l) in items && l in LabelsIn(over);
      }
      if h in Fqdns(p.ledger.domain, LabelsIn(over)) {
        var l :| l in LabelsIn(over) && h == Fqdn(p.ledger.domain, l);
        var x :| x in over && x.HostItem? && x.name == l;
        ItemOfHost(p.ledger, user, x);
        assert IsDropped(p.ledger, user, keep, h, l);
      }
    }
    forall n: PortNumber ensures n in PortsIn(over) <==> StopsPort(p.ledger, user, keep, n) {
      if StopsPort(p.ledger, user, keep, n) {
        assert PortItemOf(p.ledger, n) in items && PortItemOf(p.ledger, n) in over;
      }
      if n in PortsIn(over) {
        var x :| x in over && x.PortItem? && x.port == n;
        ItemOfHost(p.ledger, user, x);
      }
    }
  }

  /** Stopping what is outside `wide` and then what is outside `narrow` of the
      pruned rest is stopping what is outside `narrow`. */
  lemma StopsCompose(p: Pool, p1: Pool, t: Routes, user: int, wide: set<Item>, narrow: set<Item>)
    requires narrow <= wide && StopsExactly(p, p1.routes, user, wide) && StopsExactly(p1, t, user, narrow)
    requires p1.ledger.domain == p.ledger.domain
    requires forall l :: l in p1.ledger.hosts ==> l in p.ledger.hosts && p1.ledger.hosts[l] == p.ledger.hosts[l]
    requires forall n :: n in p1.ledger.ports ==> n in p.ledger.ports && p1.ledger.ports[n] == p.ledger.ports[n]
    requires forall l :: l in p.ledger.hosts && p.ledger.hosts[l].user == user && HostItemOf(p.ledger, l) in wide ==> l in p1.ledger.hosts
    requires forall n :: n in p.ledger.ports && p.ledger.ports[n].user == user && PortItemOf(p.ledger, n) in wide ==> n in p1.ledger.ports
    ensures StopsExactly(p, t, user, narrow)
  {
    forall h
      ensures StopsHost(p.ledger, user, narrow, h) <==> StopsHost(p.ledger, user, wide, h) || StopsHost(p1.ledger, user, narrow, h)
    {
      if StopsHost(p.ledger, user, narrow, h) {
        var l :| IsDropped(p.ledger, user, narrow, h, l);
        assert IsDropped(p.ledger, user, wide, h, l) || IsDropped(p1.ledger, user, narrow, h, l);
      }
      if StopsHost(p.ledger, user, wide, h) {
        var l :| IsDropped(p.ledger, user, wide, h, l);
        assert IsDropped(p.ledger, user, narrow, h, l);
      }
      if StopsHost(p1.ledger, user, narrow, h) {
        var l :| IsDropped(p1.ledger, user, narrow, h, l);
        assert IsDropped(p.ledger, user, narrow, h, l);
      }
    }
  }

  lemma RoutesAfterEnforcement(p: Pool, user: int, P: int, L: int)
    requires L <= P
    ensures StopsExactly(p, EvictOver(Reconcile(p, user, P), user, L).routes, user, Oldest(Items(p.ledger, user), L))
  {
    var p1 := Reconcile(p, user, P);
    var items := Items(p.ledger, user);
    PruneKeepsOldest(p.ledger, user, P);
    OldestCompose(items, P, L);
    TornDownExactly(p, user, P);
    TornDownExactly(p1, user, L);
    assert Oldest(items, L) <= Oldest(items, P);
    StopsCompose(p, p1, EvictOver(p1, user, L).routes, user, Oldest(items, P), Oldest(items, L));
  }

  /** Enforcement, exactly, for a prune window no shorter than the staleness
      window: rows are cut to the prune cap and routes to the live cap, each no
      lower than the key's own cap; without a cap in a window nothing is cut by
      it, and nobody else loses anything. */
  lemma EnforceExactly(p: Pool, c: Cache, policy: Policy, user: User, own: int, now: int)
    requires policy.staleness <= policy.pruneGrace
    ensures var q := Enforce(p, c, policy, user, own, now);
            var pruned, live := PrunedCap(c, policy, user.name, now), LiveCap(c, policy, user.name, now);
            && (live.Cap? ==> pruned.Cap? && live.max <= pruned.max)
            && (!pruned.Cap? ==> q == p)
            && (pruned.Cap? ==>
                  && Items(q.ledger, user.id) == Oldest(Items(p.ledger, user.id), Max(pruned.max, own))
                  && (forall v :: v != user.id ==> Items(q.ledger, v) == Items(p.ledger, v))
                  && StopsExactly(p, q.routes, user.id, Oldest(Items(p.ledger, user.id), Max((if live.Cap? then live else pruned).max, own))))
  {
    var pruned, live := PrunedCap(c, policy, user.name, now), LiveCap(c, policy, user.name, now);
    ResolveCapMonotone(c, user.name, SaturatingSub(now, policy.staleness), SaturatingSub(now, policy.pruneGrace), now);
    if pruned.Cap? {
      PruneKeepsOldest(p.ledger, user.id, Max(pruned.max, own));
      if live.Cap? {
        RoutesAfterEnforcement(p, user.id, Max(pruned.max, own), Max(live.max, own));
      } else {
        TornDownExactly(p, user.id, Max(pruned.max, own));
      }
    }
  }

  /** After a grant of a mapped benefit, with a non-negative staleness window:
      the user keeps exactly the oldest P of what they owned, the routes stopped
      are exactly those to resources of theirs past the oldest L, and L <= P,
      where P and L are the pooled caps of the two windows. */
  lemma GrantLeavesOldest(p: Pool, c: Cache, configured: Policy, key: string, now: int, user: User, benefit: string)
    requires RowIdsUnique(p.ledger)
    requires I64_MIN <= now <= I64_MAX && configured.staleness >= 0 && benefit in configured.benefits
    ensures var policy := Clamped(configured);
            var c' := RecordGrant(c, policy, key, now, user.name, benefit);
            var q := Enforce(p, c', policy, user, policy.benefits[benefit], now);
            && PrunedCap(c', policy, user.name, now).Cap? && LiveCap(c', policy, user.name, now).Cap?
            && var P, L := PrunedCap(c', policy, user.name, now).max, LiveCap(c', policy, user.name, now).max;
               && policy.benefits[benefit] <= L <= P
               && Items(q.ledger, user.id) == Oldest(Items(p.ledger, user.id), P)
               && (forall v :: v != user.id ==> Items(q.ledger, v) == Items(p.ledger, v))
               && StopsExactly(p, q.routes, user.id, Oldest(Items(p.ledger, user.id), L))
               && (forall h :: h in q.routes.http && OwnsHost(q.ledger, user.id, h) ==>
                     HostItemOf(q.ledger, LabelOf(q.ledger.domain, h).value) in Oldest(Items(p.ledger, user.id), L))
               && (forall n :: n in q.routes.tcp && OwnsPort(q.ledger, user.id, n) ==>
                     PortItemOf(q.ledger, n) in Oldest(Items(p.ledger, user.id), L))
  {
    var policy := Clamped(configured);
    var c' := RecordGrant(c, policy, key, now, user.name, benefit);
    FreshGrantSetsBothCaps(c, configured, key, now, user.name, benefit);
    var P, L := PrunedCap(c', policy, user.name, now).max, LiveCap(c', policy, user.name, now).max;
    EnforceWithCaps(p, user.id, P, L);
    EnforceExactly(p, c', policy, user, policy.benefits[benefit], now);
  }

  /** Pruning to P and then stopping routes past L <= P. */
  lemma EnforceWithCaps(p: Pool, user: int, P: int, L: int)
    requires L <= P
    ensures var q := EvictOver(Reconcile(p, user, P), user, L);
            && Items(q.ledger, user) == Oldest(Items(p.ledger, user), P)
            && (forall v :: v != user ==> Items(q.ledger, v) == Items(p.ledger, v))
            && (forall h :: h in q.routes.http && OwnsHost(q.ledger, user, h) ==>
                  HostItemOf(q.ledger, LabelOf(q.ledger.domain, h).value) in Oldest(Items(p.ledger, user), L))
            && (forall n :: n in q.routes.tcp && OwnsPort(q.ledger, user, n) ==>
                  PortItemOf(q.ledger, n) in Oldest(Items(p.ledger, user), L))
  {
    var p1 := Reconcile(p, user, P);
    PruneKeepsOldest(p.ledger, user, P);
    OldestCompose(Items(p.ledger, user), P, L);
    LiveRoutesWithinCap(p1, user, L);
  }

  /** After stopping the routes past `cap`, every live route to something the
      user owns leads to one of their oldest `cap` resources. */
  lemma LiveRoutesWithinCap(p: Pool, user: int, cap: int)
    ensures var q := EvictOver(p, user, cap);
            && (forall h :: h in q.routes.http && OwnsHost(q.ledger, user, h) ==>
                  HostItemOf(q.ledger, LabelOf(q.ledger.domain, h).value) in Oldest(Items(p.ledger, user), cap))
            && (forall n :: n in q.routes.tcp && OwnsPort(q.ledger, user, n) ==>
                  PortItemOf(q.ledger, n) in Oldest(Items(p.ledger, user), cap))
  {
    var q := EvictOver(p, user, cap);
    var over := OverCap(Items(p.ledger, user), cap);
    forall h | h in q.routes.http && OwnsHost(q.ledger, user, h)
      ensures HostItemOf(q.ledger, LabelOf(q.ledger.domain, h).value) in Oldest(Items(p.ledger, user), cap)
    {
      var l := LabelOf(q.ledger.domain, h).value;
      LabelOfInvertsFqdn(q.ledger.domain, h, l);
      assert HostItemOf(p.ledger, l) in Items(p.ledger, user);
      assert HostItemOf(p.ledger, l) in over ==> l in LabelsIn(over);
    }
    forall n | n in q.routes.tcp && OwnsPort(q.ledger, user, n)
      ensures PortItemOf(q.ledger, n) in Oldest(Items(p.ledger, user), cap)
    {
      assert PortItemOf(p.ledger, n) in Items(p.ledger, user);
      assert PortItemOf(p.ledger, n) in over ==> n in PortsIn(over);
    }
  }

  // ----- routes stay within ownership -----

  /** Every live route leads to a session of the resource's owner. */
  ghost predicate RoutesOwned(p: Pool) {
    && (forall h :: h in p.routes.http ==> OwnsHost(p.ledger, p.routes.http[h].user, h))
    && (forall n :: n in p.routes.tcp ==> OwnsPort(p.ledger, p.routes.tcp[n].user, n))
  }

  lemma ReconcileKeepsRoutesOwned(p: Pool, user: int, cap: int)
    requires RoutesOwned(p)
    ensures RoutesOwned(Reconcile(p, user, cap))
  {
    var q := Reconcile(p, user, cap);
    var over := OverCap(Items(p.ledger, user), cap);
    PruneOwnership(p.ledger, user, cap);
    forall h | h in q.routes.http ensures OwnsHost(q.ledger, q.routes.http[h].user, h) {
      var l := LabelOf(p.ledger.domain, h).value;
      LabelOfInvertsFqdn(p.ledger.domain, h, l);
      assert l in LabelsIn(over) ==> h in Fqdns(p.ledger.domain, LabelsIn(over));
    }
  }

  /** Enforcement never strands a route on a resource its user no longer owns. */
  lemma EnforceKeepsRoutesOwned(p: Pool, c: Cache, policy: Policy, user: User, cap: int, now: int)
    requires RoutesOwned(p)
    ensures RoutesOwned(Enforce(p, c, policy, user, cap, now))
    ensures RowIdsUnique(p.ledger) ==> RowIdsUnique(Enforce(p, c, policy, user, cap, now).ledger)
  {
    var pooled := ResolveCap(c, user.name, SaturatingSub(now, policy.pruneGrace), now);
    if pooled.Cap? {
      ReconcileKeepsRoutesOwned(p, user.id, Max(pooled.max, cap));
      PruneOwnership(p.ledger, user.id, Max(pooled.max, cap));
    }
  }

  /** With routes within ownership, the routes of a user's sessions number no more
      than any set of items that contains all they lead to. */
  lemma LiveCountWithin(p: Pool, user: int, keep: set<Item>)
    requires RoutesOwned(p)
    requires forall h :: h in p.routes.http && OwnsHost(p.ledger, user, h) ==>
               HostItemOf(p.ledger, LabelOf(p.ledger.domain, h).value) in keep
    requires forall n :: n in p.routes.tcp && OwnsPort(p.ledger, user, n) ==> PortItemOf(p.ledger, n) in keep
    ensures LiveCount(p.routes, user) <= |keep|
  {
    var hosts, ports := UserHosts(p.routes, user), UserPorts(p.routes, user);
    var d, rows := p.ledger.domain, p.ledger.hosts;
    var hostItems := set h | h in hosts && OwnsHost(p.ledger, user, h) :: HostItemOf(p.ledger, LabelOf(d, h).value);
    var portItems := set n | n in ports && OwnsPort(p.ledger, user, n) :: PortItemOf(p.ledger, n);
    forall h | h in hosts ensures OwnsHost(p.ledger, user, h) && Fqdn(d, LabelOf(d, h).value) == h {
      LabelOfInvertsFqdn(d, h, LabelOf(d, h).value);
    }
    CardBijection(hosts, hostItems,
                  h => if OwnsHost(p.ledger, user, h) then HostItemOf(p.ledger, LabelOf(d, h).value) else HostItem(0, 0, ""),
                  (x: Item) => if x.HostItem? then Fqdn(d, x.name) else "");
    CardBijection(ports, portItems,
                  (n: int) => if n in p.ledger.ports then PortItemOf(p.ledger, n) else PortItem(0, 0),
                  (x: Item) => if x.PortItem? then x.port else 0);
    assert hostItems !! portItems;
    CardSubset(hostItems + portItems, keep);
  }

  /** After a grant of a mapped benefit the user has no more live routes than the
      live cap, however many they had before. */
  lemma GrantBoundsLiveRoutes(p: Pool, c: Cache, configured: Policy, key: string, now: int, user: User, benefit: string)
    requires RowIdsUnique(p.ledger) && RoutesOwned(p)
    requires I64_MIN <= now <= I64_MAX && configured.staleness >= 0 && benefit in configured.benefits
    ensures var policy := Clamped(configured);
            var c' := RecordGrant(c, policy, key, now, user.name, benefit);
            var q := Enforce(p, c', policy, user, policy.benefits[benefit], now);
            LiveCap(c', policy, user.name, now).Cap?
            && LiveCount(q.routes, user.id) <= Max(LiveCap(c', policy, user.name, now).max, 0)
  {
    var policy := Clamped(configured);
    var c' := RecordGrant(c, policy, key, now, user.name, benefit);
    var q := Enforce(p, c', policy, user, policy.benefits[benefit], now);
    GrantLeavesOldest(p, c, configured, key, now, user, benefit);
    EnforceKeepsRoutesOwned(p, c', policy, user, policy.benefits[benefit], now);
    var keep := Oldest(Items(p.ledger, user.id), LiveCap(c', policy, user.name, now).max);
    LiveCountWithin(q, user.id, keep);
    ItemsAreTotallyOrdered(p.ledger, user.id);
    OldestCount(Items(p.ledger, user.id), LiveCap(c', policy, user.name, now).max);
  }
}
