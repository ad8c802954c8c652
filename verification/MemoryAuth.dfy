/** The in-memory ownership store and its relation to the registry: two
    representations of one ownership map behind the same interface. The memory
    store keeps whole hostnames per user; the registry keeps label rows. */
module MemoryAuth {
  import opened Prelude
  import opened Labels
  import opened Ownership

  datatype Memory = Memory(hostnames: map<int, set<string>>, ports: map<int, set<PortNumber>>)

  function HostSet(m: Memory, user: int): set<string> {
    if user in m.hostnames then m.hostnames[user] else {}
  }

  function PortSet(m: Memory, user: int): set<PortNumber> {
    if user in m.ports then m.ports[user] else {}
  }

  function MemoryCount(m: Memory, user: int): nat {
    |HostSet(m, user)| + |PortSet(m, user)|
  }

  /** Some user whose set holds the hostname, as a search of the map finds. */
  ghost predicate IsOwner(m: Memory, host: string, owner: Option<int>) {
    if owner.Some? then host in HostSet(m, owner.value) else forall u :: host !in HostSet(m, u)
  }

  /** No hostname is held by two users. */
  ghost predicate Disjoint(m: Memory) {
    forall u, v, h :: h in HostSet(m, u) && h in HostSet(m, v) ==> u == v
  }

  datatype MemoryClaim = MemoryClaim(memory: Memory, outcome: ClaimOutcome)

  /** Claim a hostname given what the search found. No label check is made. */
  function ClaimFound(m: Memory, user: int, host: string, max: Option<int>, owner: Option<int>): MemoryClaim {
    if owner.Some? then MemoryClaim(m, if owner.value == user then Owned else Taken)
    else if max.Some? && MemoryCount(m, user) >= max.value then MemoryClaim(m, CapExceeded)
    else MemoryClaim(m.(hostnames := m.hostnames[user := HostSet(m, user) + {host}]), Owned)
  }

  function ReleaseHostFrom(m: Memory, user: int, host: string): Memory {
    if user in m.hostnames then m.(hostnames := m.hostnames[user := m.hostnames[user] - {host}]) else m
  }

  function ReleasePortFrom(m: Memory, user: int, port: PortNumber): Memory {
    if user in m.ports then m.(ports := m.ports[user := m.ports[user] - {port}]) else m
  }

  // ----- correspondence -----

  /** The two stores describe the same ownership. */
  ghost predicate Corresponds(m: Memory, r: Ledger) {
    && (forall u, h :: h in HostSet(m, u) <==> OwnsHost(r, u, h))
    && (forall u, p :: p in PortSet(m, u) <==> OwnsPort(r, u, p))
    && (forall l :: l in r.hosts ==> ValidLabel(l))
  }

  lemma CorrespondingIsDisjoint(m: Memory, r: Ledger)
    requires Corresponds(m, r)
    ensures Disjoint(m)
  {
  }

  /** Corresponding stores count the same number of owned resources, though one
      counts hostnames and the other labels. */
  lemma CorrespondingCounts(m: Memory, r: Ledger, user: int)
    requires Corresponds(m, r)
    ensures MemoryCount(m, user) == Count(r, user)
  {
    forall l | l in HostsOf(r, user)
      ensures Fqdn(r.domain, l) in HostSet(m, user) && LabelOf(r.domain, Fqdn(r.domain, l)) == Some(l)
    {
      LabelOfInvertsFqdn(r.domain, Fqdn(r.domain, l), l);
      assert OwnsHost(r, user, Fqdn(r.domain, l));
    }
    forall h | h in HostSet(m, user)
      ensures LabelOf(r.domain, h).Some? && LabelOf(r.domain, h).value in HostsOf(r, user)
              && Fqdn(r.domain, LabelOf(r.domain, h).value) == h
    {
      assert OwnsHost(r, user, h);
      LabelOfInvertsFqdn(r.domain, h, LabelOf(r.domain, h).value);
    }
    CardBijection(HostsOf(r, user), HostSet(m, user), l => Fqdn(r.domain, l),
                  h => if LabelOf(r.domain, h).Some? then LabelOf(r.domain, h).value else "");
    assert PortSet(m, user) == PortsOf(r, user) by {
      forall p: PortNumber ensures p in PortSet(m, user) <==> p in PortsOf(r, user) {
        assert p in PortSet(m, user) <==> OwnsPort(r, user, p);
      }
    }
  }

  lemma FoundMatchesRow(m: Memory, r: Ledger, host: string, owner: Option<int>)
    requires Corresponds(m, r) && IsOwner(m, host, owner) && LabelOf(r.domain, host).Some?
    ensures var l := LabelOf(r.domain, host).value;
            owner == if l in r.hosts then Some(r.hosts[l].user) else None
  {
    var l := LabelOf(r.domain, host).value;
    if l in r.hosts {
      assert OwnsHost(r, r.hosts[l].user, host);
      assert host in HostSet(m, r.hosts[l].user);
    }
    if owner.Some? {
      assert OwnsHost(r, owner.value, host);
    }
  }

  /** A new row in one store and a new hostname in the other still correspond. */
  lemma InsertCorresponds(m: Memory, r: Ledger, user: int, host: string, row: HostRow)
    requires Corresponds(m, r) && LabelOf(r.domain, host).Some? && row.user == user
    requires LabelOf(r.domain, host).value !in r.hosts
    ensures var l := LabelOf(r.domain, host).value;
            Corresponds(m.(hostnames := m.hostnames[user := HostSet(m, user) + {host}]), r.(hosts := r.hosts[l := row]))
  {
    var l := LabelOf(r.domain, host).value;
    var m' := m.(hostnames := m.hostnames[user := HostSet(m, user) + {host}]);
    var r' := r.(hosts := r.hosts[l := row]);
    LabelOfInvertsFqdn(r.domain, host, l);
    forall u, h ensures h in HostSet(m', u) <==> OwnsHost(r', u, h) {
      assert h in HostSet(m, u) <==> OwnsHost(r, u, h);
      assert h in HostSet(m', u) <==> h in HostSet(m, u) || (u == user && h == host);
      if LabelOf(r.domain, h).Some? {
        LabelOfInvertsFqdn(r.domain, h, LabelOf(r.domain, h).value);
      }
    }
    forall u, p ensures p in PortSet(m', u) <==> OwnsPort(r', u, p) {
      assert p in PortSet(m, u) <==> OwnsPort(r, u, p);
    }
  }

  /** A claim by an existing user: from corresponding stores the outcomes agree
      exactly when the hostname is claimable, and then the stores still
      correspond. The memory store accepts hostnames the registry refuses. */
  lemma ClaimsAgreeIffValid(m: Memory, r: Ledger, user: int, host: string, max: Option<int>, now: int, owner: Option<int>)
    requires Corresponds(m, r) && IsOwner(m, host, owner) && user in r.users.Values
    ensures var a, b := ClaimFound(m, user, host, max, owner), ClaimHost(r, user, host, max, now);
            && (a.outcome == b.outcome <==> LabelOf(r.domain, host).Some?)
            && (LabelOf(r.domain, host).Some? ==> Corresponds(a.memory, b.ledger))
  {
    CorrespondingCounts(m, r, user);
    if LabelOf(r.domain, host).Some? {
      FoundMatchesRow(m, r, host, owner);
      var l := LabelOf(r.domain, host).value;
      if l !in r.hosts {
        InsertCorresponds(m, r, user, host, HostRow(user, now, FreshId(RowIds(r.hosts))));
      }
    }
  }

  /** One such hostname: a bare apex is registered by the memory store and refused
      by the registry. */
  lemma MemoryStoreAcceptsBareApex()
    ensures var m, r := Memory(map[], map[]), Ledger("d", map["u" := 1], map[], map[]);
            && Corresponds(m, r) && IsOwner(m, ".d", None)
            && ClaimFound(m, 1, ".d", None, None).outcome == Owned
            && ClaimHost(r, 1, ".d", None, 0).outcome == Invalid
  {
  }

  /** Releases of hostnames always agree, valid or not. */
  lemma HostReleasesAgree(m: Memory, r: Ledger, user: int, host: string)
    requires Corresponds(m, r)
    ensures host in HostSet(m, user) <==> OwnsHost(r, user, host)
    ensures Corresponds(ReleaseHostFrom(m, user, host), Release(r, user, [host], []))
  {
    ReleaseFacts(r, user, [host], []);
    var m', r' := ReleaseHostFrom(m, user, host), Release(r, user, [host], []);
    forall u, h ensures h in HostSet(m', u) <==> OwnsHost(r', u, h) {
      assert h in HostSet(m, u) <==> OwnsHost(r, u, h);
      assert h in HostSet(m', u) <==> h in HostSet(m, u) && !(u == user && h == host);
    }
    forall u, p ensures p in PortSet(m', u) <==> OwnsPort(r', u, p) {
      assert p in PortSet(m, u) <==> OwnsPort(r, u, p);
    }
  }

  lemma PortReleasesAgree(m: Memory, r: Ledger, user: int, port: PortNumber)
    requires Corresponds(m, r)
    ensures port in PortSet(m, user) <==> OwnsPort(r, user, port)
    ensures Corresponds(ReleasePortFrom(m, user, port), Release(r, user, [], [port]))
  {
    ReleaseFacts(r, user, [], [port]);
    var m', r' := ReleasePortFrom(m, user, port), Release(r, user, [], [port]);
    forall u, h ensures h in HostSet(m', u) <==> OwnsHost(r', u, h) {
      assert h in HostSet(m, u) <==> OwnsHost(r, u, h);
    }
    forall u, p ensures p in PortSet(m', u) <==> OwnsPort(r', u, p) {
      assert p in PortSet(m, u) <==> OwnsPort(r, u, p);
      assert p in PortSet(m', u) <==> p in PortSet(m, u) && !(u == user && p == port);
    }
  }

  // ----- whole runs -----

  datatype Request =
    | ClaimIt(user: int, host: string, max: Option<int>, now: int)
    | ReleaseIt(user: int, host: string)
    | ReleasePortIt(user: int, port: PortNumber)

  datatype Response = Claimed(outcome: ClaimOutcome) | Gone(removed: bool)

  /** The search result the memory store uses; unique when sets are disjoint. */
  ghost function FindOwner(m: Memory, host: string): (owner: Option<int>)
    ensures IsOwner(m, host, owner)
  {
    if u: int :| host in HostSet(m, u) then Some(u) else None
  }

  ghost function MemoryStep(m: Memory, q: Request): (Memory, Response) {
    match q
    case ClaimIt(user, host, max, _) =>
      var c := ClaimFound(m, user, host, max, FindOwner(m, host));
      (c.memory, Claimed(c.outcome))
    case ReleaseIt(user, host) => (ReleaseHostFrom(m, user, host), Gone(host in HostSet(m, user)))
    case ReleasePortIt(user, port) => (ReleasePortFrom(m, user, port), Gone(port in PortSet(m, user)))
  }

  ghost function LedgerStep(r: Ledger, q: Request): (Ledger, Response) {
    match q
    case ClaimIt(user, host, max, now) =>
      var c := ClaimHost(r, user, host, max, now);
      (c.ledger, Claimed(c.outcome))
    case ReleaseIt(user, host) => (Release(r, user, [host], []), Gone(OwnsHost(r, user, host)))
    case ReleasePortIt(user, port) => (Release(r, user, [], [port]), Gone(OwnsPort(r, user, port)))
  }

  ghost function MemoryResponses(m: Memory, qs: seq<Request>): seq<Response>
    decreases |qs|
  {
    if qs == [] then [] else [MemoryStep(m, qs[0]).1] + MemoryResponses(MemoryStep(m, qs[0]).0, qs[1..])
  }

  ghost function LedgerResponses(r: Ledger, qs: seq<Request>): seq<Response>
    decreases |qs|
  {
    if qs == [] then [] else [LedgerStep(r, qs[0]).1] + LedgerResponses(LedgerStep(r, qs[0]).0, qs[1..])
  }

  ghost function MemoryAfter(m: Memory, qs: seq<Request>): Memory
    decreases |qs|
  {
    if qs == [] then m else MemoryAfter(MemoryStep(m, qs[0]).0, qs[1..])
  }

  ghost function LedgerAfter(r: Ledger, qs: seq<Request>): Ledger
    decreases |qs|
  {
    if qs == [] then r else LedgerAfter(LedgerStep(r, qs[0]).0, qs[1..])
  }

  /** Claims are by existing users, for claimable hostnames. */
  ghost predicate Proper(r: Ledger, q: Request) {
    q.ClaimIt? ==> q.user in r.users.Values && LabelOf(r.domain, q.host).Some?
  }

  /** The two stores are interchangeable: from corresponding states, any run of
      capped claims of claimable hostnames by existing users and of releases gets
      the same responses from both, and leaves everyone owning the same. */
  lemma {:induction false} StoresAgreeOnEveryRun(m: Memory, r: Ledger, qs: seq<Request>)
    requires Corresponds(m, r)
    requires forall i :: 0 <= i < |qs| ==> Proper(r, qs[i])
    ensures MemoryResponses(m, qs) == LedgerResponses(r, qs)
    ensures Corresponds(MemoryAfter(m, qs), LedgerAfter(r, qs))
    decreases |qs|
  {
    if qs == [] {
    } else {
      var q := qs[0];
      match q {
        case ClaimIt(user, host, max, now) =>
          ClaimsAgreeIffValid(m, r, user, host, max, now, FindOwner(m, host));
        case ReleaseIt(user, host) => HostReleasesAgree(m, r, user, host);
        case ReleasePortIt(user, port) => PortReleasesAgree(m, r, user, port);
      }
      var r' := LedgerStep(r, q).0;
      assert r'.users == r.users && r'.domain == r.domain;
      assert forall i :: 0 <= i < |qs[1..]| ==> qs[1..][i] == qs[i + 1];
      StoresAgreeOnEveryRun(MemoryStep(m, q).0, r', qs[1..]);
    }
  }

  // ----- the store itself -----

  class MemoryAuth {
    var hostnames: map<int, set<string>>
    var ports: map<int, set<PortNumber>>

    function State(): Memory
      reads this
    {
      Memory(hostnames, ports)
    }

    constructor ()
      ensures State() == Memory(map[], map[])
    {
      hostnames, ports := map[], map[];
    }

    /** Search the map, in any order, for a user holding the hostname. */
    method SearchOwner(host: string) returns (owner: Option<int>)
      ensures IsOwner(State(), host, owner)
    {
      var todo := hostnames.Keys;
      while todo != {}
        invariant todo <= hostnames.Keys
        invariant forall u :: u in hostnames.Keys - todo ==> host !in hostnames[u]
        decreases |todo|
      {
        ghost var some: int := Pick(todo);
        assert some in todo;
        var u :| u in todo;
        if host in hostnames[u] {
          return Some(u);
        }
        todo := todo - {u};
      }
      return None;
    }

    method ClaimHostname(user: int, host: string, max: Option<int>) returns (outcome: ClaimOutcome)
      modifies this
      ensures exists owner :: IsOwner(old(State()), host, owner)
                && MemoryClaim(State(), outcome) == ClaimFound(old(State()), user, host, max, owner)
    {
      var owner := SearchOwner(host);
      assert IsOwner(old(State()), host, owner);
      if owner.Some? {
        return if owner.value == user then Owned else Taken;
      }
      if max.Some? {
        var owned := |HostSet(State(), user)| + |PortSet(State(), user)|;
        if owned >= max.value {
          return CapExceeded;
        }
      }
      hostnames := hostnames[user := HostSet(State(), user) + {host}];
      return Owned;
    }

    method ReleaseHostname(user: int, host: string) returns (removed: bool)
      modifies this
      ensures State() == ReleaseHostFrom(old(State()), user, host)
      ensures removed == (host in HostSet(old(State()), user))
    {
      if user !in hostnames {
        return false;
      }
      removed := host in hostnames[user];
      hostnames := hostnames[user := hostnames[user] - {host}];
    }

    method ReleasePort(user: int, port: PortNumber) returns (removed: bool)
      modifies this
      ensures State() == ReleasePortFrom(old(State()), user, port)
      ensures removed == (port in PortSet(old(State()), user))
    {
      if user !in ports {
        return false;
      }
      removed := port in ports[user];
      ports := ports[user := ports[user] - {port}];
    }
  }
}
