/** The routing table as a value: which session serves each hostname and port.
    Claims, evictions and teardown are stated as whole-table updates, without
    reference to the reverse index the router keeps. */
module Routing {
  import opened Prelude

  datatype Handle = Handle(session: nat, user: int)

  datatype Routes = Routes(http: map<string, Handle>, tcp: map<PortNumber, Handle>)

  const NO_ROUTES := Routes(map[], map[])

  /** A table with the given keys pointed at `who`. */
  function Pointed<K(==)>(table: map<K, Handle>, who: Handle, keys: seq<K>): map<K, Handle> {
    map k | k in table.Keys + Elements(keys) :: if k in keys then who else table[k]
  }

  /** The given keys that are currently served by some other session. */
  function Foreign<K(==)>(table: map<K, Handle>, who: Handle, keys: seq<K>): set<K> {
    set k | k in keys && k in table && table[k].session != who.session
  }

  function Claimed(t: Routes, who: Handle, hosts: seq<string>, ports: seq<PortNumber>): Routes {
    Routes(Pointed(t.http, who, hosts), Pointed(t.tcp, who, ports))
  }

  function Evicted(t: Routes, hosts: set<string>, ports: set<PortNumber>): Routes {
    Routes(t.http - hosts, t.tcp - ports)
  }

  /** Teardown as a full scan: drop every entry whose session is `s`. */
  function WithoutSession(t: Routes, s: nat): Routes {
    Routes(map h | h in t.http && t.http[h].session != s :: t.http[h],
           map p | p in t.tcp && t.tcp[p].session != s :: t.tcp[p])
  }

  /** The entries of a table for the given keys, as reported to the caller. */
  function HostRoutes(http: map<string, Handle>, hosts: set<string>): set<(Handle, Resource)> {
    set h | h in hosts && h in http :: (http[h], Host(h))
  }

  function PortRoutes(tcp: map<PortNumber, Handle>, ports: set<PortNumber>): set<(Handle, Resource)> {
    set p | p in ports && p in tcp :: (tcp[p], Port(p))
  }

  /** The routes of `t` that a claim takes over from other sessions. */
  function TakenOver(t: Routes, who: Handle, hosts: seq<string>, ports: seq<PortNumber>): set<(Handle, Resource)> {
    HostRoutes(t.http, Foreign(t.http, who, hosts)) + PortRoutes(t.tcp, Foreign(t.tcp, who, ports))
  }

  /** The live routes among the given resources. */
  function LiveAmong(t: Routes, hosts: seq<string>, ports: seq<PortNumber>): set<(Handle, Resource)> {
    HostRoutes(t.http, Elements(hosts)) + PortRoutes(t.tcp, Elements(ports))
  }

  // ----- per-user counts -----

  function UserHosts(t: Routes, user: int): set<string> {
    set h | h in t.http && t.http[h].user == user
  }

  function UserPorts(t: Routes, user: int): set<PortNumber> {
    set p | p in t.tcp && t.tcp[p].user == user
  }

  /** How many live tunnels `user` has. */
  function LiveCount(t: Routes, user: int): nat {
    |UserHosts(t, user)| + |UserPorts(t, user)|
  }

  /** The early-out estimate: live routes of the user united with the request. */
  function Projected(t: Routes, user: int, hosts: seq<string>, ports: seq<PortNumber>): nat {
    |UserHosts(t, user) + Elements(hosts)| + |UserPorts(t, user) + Elements(ports)|
  }

  lemma ClaimedUserRoutes(t: Routes, who: Handle, hosts: seq<string>, ports: seq<PortNumber>)
    ensures UserHosts(Claimed(t, who, hosts, ports), who.user) == UserHosts(t, who.user) + Elements(hosts)
    ensures UserPorts(Claimed(t, who, hosts, ports), who.user) == UserPorts(t, who.user) + Elements(ports)
  {
  }

  /** The projection is exact: it is the number of live routes the user has once
      the claim is applied, whichever of their sessions makes it. */
  lemma ProjectionIsExact(t: Routes, who: Handle, hosts: seq<string>, ports: seq<PortNumber>)
    ensures Projected(t, who.user, hosts, ports) == LiveCount(Claimed(t, who, hosts, ports), who.user)
  {
    ClaimedUserRoutes(t, who, hosts, ports);
  }

  /** A claim reports exactly the routes that change session by it. */
  lemma TakenOverIff(t: Routes, who: Handle, hosts: seq<string>, ports: seq<PortNumber>)
    ensures var t', taken := Claimed(t, who, hosts, ports), TakenOver(t, who, hosts, ports);
            && (forall h :: h in t.http ==> h in t'.http && ((t.http[h], Host(h)) in taken <==> t'.http[h].session != t.http[h].session))
            && (forall p :: p in t.tcp ==> p in t'.tcp && ((t.tcp[p], Port(p)) in taken <==> t'.tcp[p].session != t.tcp[p].session))
            && (forall x :: x in taken ==> match x.1 case Host(h) => h in t.http && t.http[h] == x.0
                                                     case Port(p) => p in t.tcp && t.tcp[p] == x.0)
  {
  }

  /** An eviction reports exactly the routes it removes. */
  lemma EvictedIff(t: Routes, hosts: seq<string>, ports: seq<PortNumber>)
    ensures var t', gone := Evicted(t, Elements(hosts), Elements(ports)), LiveAmong(t, hosts, ports);
            && (forall h :: h in t.http ==> ((t.http[h], Host(h)) in gone <==> h !in t'.http))
            && (forall p :: p in t.tcp ==> ((t.tcp[p], Port(p)) in gone <==> p !in t'.tcp))
            && (forall x :: x in gone ==> match x.1 case Host(h) => h in t.http && t.http[h] == x.0
                                                    case Port(p) => p in t.tcp && t.tcp[p] == x.0)
  {
  }

  /** A superseded session's later teardown spares the new owner: removing the
      old session after the claim leaves every claimed route in place. */
  lemma TeardownSparesNewOwner(t: Routes, who: Handle, hosts: seq<string>, ports: seq<PortNumber>, s: nat)
    requires s != who.session
    ensures WithoutSession(Claimed(t, who, hosts, ports), s) == Claimed(WithoutSession(t, s), who, hosts, ports)
  {
    var a, b := WithoutSession(Claimed(t, who, hosts, ports), s), Claimed(WithoutSession(t, s), who, hosts, ports);
    assert a.http == b.http;
    assert a.tcp == b.tcp;
  }

  // ----- the reverse index -----

  datatype ClaimSet = ClaimSet(hosts: set<string>, ports: set<PortNumber>)

  const EMPTY_CLAIM := ClaimSet({}, {})

  /** What the index records for a session; an absent entry records nothing. */
  function Entry(index: map<nat, ClaimSet>, s: nat): ClaimSet {
    if s in index then index[s] else EMPTY_CLAIM
  }

  /** What a full scan of the table finds for a session. */
  function Scan(t: Routes, s: nat): ClaimSet {
    ClaimSet(set h | h in t.http && t.http[h].session == s, set p | p in t.tcp && t.tcp[p].session == s)
  }

  /** The index is exact: for every session it agrees with the full scan. */
  ghost predicate Exact(t: Routes, index: map<nat, ClaimSet>) {
    forall s: nat :: Entry(index, s) == Scan(t, s)
  }
}
