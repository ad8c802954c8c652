/** The router: the routing table plus a per-session reverse index, updated in
    place entry by entry. `Valid()` says the index agrees with a full scan; every
    method keeps it and is proved equal to a whole-table update. */
module Router {
  import opened Prelude
  import opened Routing

  class Router {
    var http: map<string, Handle>
    var tcp: map<PortNumber, Handle>
    var bySession: map<nat, ClaimSet>

    function Table(): Routes
      reads this
    {
      Routes(http, tcp)
    }

    ghost predicate Valid()
      reads this
    {
      Exact(Table(), bySession)
    }

    constructor ()
      ensures Valid() && Table() == NO_ROUTES
    {
      http, tcp, bySession := map[], map[], map[];
    }

    /** Forget `host` in the index entry of `session`, if there is one. */
    method UnindexHost(session: nat, host: string)
      modifies this`bySession
      ensures forall s: nat :: Entry(bySession, s) ==
                if s == session then Entry(old(bySession), s).(hosts := Entry(old(bySession), s).hosts - {host})
                else Entry(old(bySession), s)
    {
      if session in bySession {
        bySession := bySession[session := bySession[session].(hosts := bySession[session].hosts - {host})];
      }
    }

    method UnindexPort(session: nat, port: PortNumber)
      modifies this`bySession
      ensures forall s: nat :: Entry(bySession, s) ==
                if s == session then Entry(old(bySession), s).(ports := Entry(old(bySession), s).ports - {port})
                else Entry(old(bySession), s)
    {
      if session in bySession {
        bySession := bySession[session := bySession[session].(ports := bySession[session].ports - {port})];
      }
    }

    /** Point one hostname at `who`; report the session it was taken from. */
    method ClaimHost(who: Handle, host: string) returns (taken: Option<Handle>)
      requires Valid()
      modifies this
      ensures Valid()
      ensures http == old(http)[host := who] && tcp == old(tcp)
      ensures taken == if host in old(http) && old(http)[host].session != who.session
                       then Some(old(http)[host]) else None
    {
      taken := None;
      ghost var t := Table();
      if host in http && http[host].session != who.session {
        taken := Some(http[host]);
        UnindexHost(http[host].session, host);
      }
      http := http[host := who];
      var entry := Entry(bySession, who.session);
      bySession := bySession[who.session := entry.(hosts := entry.hosts + {host})];
      forall s: nat ensures Entry(bySession, s) == Scan(Table(), s) {
        assert Scan(t, s).ports == Scan(Table(), s).ports;
        assert Entry(old(bySession), s) == Scan(t, s);
        assert Scan(Table(), s).hosts ==
               if s == who.session then Scan(t, s).hosts + {host} else Scan(t, s).hosts - {host};
      }
    }

    method ClaimPort(who: Handle, port: PortNumber) returns (taken: Option<Handle>)
      requires Valid()
      modifies this
      ensures Valid()
      ensures tcp == old(tcp)[port := who] && http == old(http)
      ensures taken == if port in old(tcp) && old(tcp)[port].session != who.session
                       then Some(old(tcp)[port]) else None
    {
      taken := None;
      ghost var t := Table();
      if port in tcp && tcp[port].session != who.session {
        taken := Some(tcp[port]);
        UnindexPort(tcp[port].session, port);
      }
      tcp := tcp[port := who];
      var entry := Entry(bySession, who.session);
      bySession := bySession[who.session := entry.(ports := entry.ports + {port})];
      forall s: nat ensures Entry(bySession, s) == Scan(Table(), s) {
        assert Scan(t, s).hosts == Scan(Table(), s).hosts;
        assert Entry(old(bySession), s) == Scan(t, s);
        assert Scan(Table(), s).ports ==
               if s == who.session then Scan(t, s).ports + {port} else Scan(t, s).ports - {port};
      }
    }

    method ClaimHosts(who: Handle, hosts: seq<string>) returns (taken: seq<(Handle, Resource)>)
      requires Valid()
      modifies this
      ensures Valid()
      ensures http == Pointed(old(http), who, hosts) && tcp == old(tcp)
      ensures NoDuplicates(taken)
      ensures Elements(taken) == HostRoutes(old(http), Foreign(old(http), who, hosts))
    {
      taken := [];
      var i := 0;
      while i < |hosts|
        invariant 0 <= i <= |hosts|
        invariant Valid()
        invariant http == Pointed(old(http), who, hosts[..i]) && tcp == old(tcp)
        invariant NoDuplicates(taken)
        invariant Elements(taken) == HostRoutes(old(http), Foreign(old(http), who, hosts[..i]))
      {
        assert hosts[..i + 1] == hosts[..i] + [hosts[i]];
        PointedStep(old(http), who, hosts[..i], hosts[i]);
        var prev := ClaimHost(who, hosts[i]);
        if prev.Some? {
          ElementsAppend(taken, (prev.value, Host(hosts[i])));
          assert (prev.value, Host(hosts[i])) !in Elements(taken);
          taken := taken + [(prev.value, Host(hosts[i]))];
        }
        i := i + 1;
      }
      assert hosts[..i] == hosts;
    }

    method ClaimPorts(who: Handle, ports: seq<PortNumber>) returns (taken: seq<(Handle, Resource)>)
      requires Valid()
      modifies this
      ensures Valid()
      ensures tcp == Pointed(old(tcp), who, ports) && http == old(http)
      ensures NoDuplicates(taken)
      ensures Elements(taken) == PortRoutes(old(tcp), Foreign(old(tcp), who, ports))
    {
      taken := [];
      var i := 0;
      while i < |ports|
        invariant 0 <= i <= |ports|
        invariant Valid()
        invariant tcp == Pointed(old(tcp), who, ports[..i]) && http == old(http)
        invariant NoDuplicates(taken)
        invariant Elements(taken) == PortRoutes(old(tcp), Foreign(old(tcp), who, ports[..i]))
      {
        assert ports[..i + 1] == ports[..i] + [ports[i]];
        PointedStep(old(tcp), who, ports[..i], ports[i]);
        var prev := ClaimPort(who, ports[i]);
        if prev.Some? {
          ElementsAppend(taken, (prev.value, Port(ports[i])));
          assert (prev.value, Port(ports[i])) !in Elements(taken);
          taken := taken + [(prev.value, Port(ports[i]))];
        }
        i := i + 1;
      }
      assert ports[..i] == ports;
    }

    /** Point all the given hostnames and ports at `who`, newest wins. Each route
        taken over from another session is reported exactly once, however often
        the request repeats it. */
    method Claim(who: Handle, hosts: seq<string>, ports: seq<PortNumber>) returns (superseded: seq<(Handle, Resource)>)
      requires Valid()
      modifies this
      ensures Valid()
      ensures Table() == Claimed(old(Table()), who, hosts, ports)
      ensures NoDuplicates(superseded)
      ensures Elements(superseded) == TakenOver(old(Table()), who, hosts, ports)
    {
      var fromHosts := ClaimHosts(who, hosts);
      var fromPorts := ClaimPorts(who, ports);
      superseded := fromHosts + fromPorts;
      ReportedOnce(fromHosts, fromPorts, old(http), Foreign(old(http), who, hosts), old(tcp), Foreign(old(tcp), who, ports));
    }

    /** Drop every route still pointing at `session`, found through the index.
        The per-entry guards are kept as the code has them; the assertions show
        that they can never fail. */
    method RemoveSession(session: nat)
      requires Valid()
      modifies this
      ensures Valid()
      ensures Table() == WithoutSession(old(Table()), session)
    {
      ghost var t := Table();
      assert Entry(bySession, session) == Scan(t, session);
      if session !in bySession {
        NothingToRemove(t, session);
        return;
      }
      var entry := bySession[session];
      bySession := bySession - {session};
      RemoveHosts(session, entry.hosts);
      RemovePorts(session, entry.ports);
      IndexAfterRemoval(t, old(bySession), session);
      WithoutSessionByScan(t, session);
    }

    method RemoveHosts(session: nat, hosts: set<string>)
      requires hosts <= Scan(Table(), session).hosts
      modifies this`http
      ensures http == old(http) - hosts
    {
      var todo := hosts;
      while todo != {}
        invariant todo <= hosts
        invariant http == old(http) - (hosts - todo)
        decreases |todo|
      {
        var h :| h in todo;
        assert h in http && http[h].session == session;
        if h in http && http[h].session == session {
          http := http - {h};
        }
        todo := todo - {h};
      }
    }

    method RemovePorts(session: nat, ports: set<PortNumber>)
      requires ports <= Scan(Table(), session).ports
      modifies this`tcp
      ensures tcp == old(tcp) - ports
    {
      var todo := ports;
      while todo != {}
        invariant todo <= ports
        invariant tcp == old(tcp) - (ports - todo)
        decreases |todo|
      {
        ghost var some: PortNumber := Pick(todo);
        assert some in todo;
        var p :| p in todo;
        assert p in tcp && tcp[p].session == session;
        if p in tcp && tcp[p].session == session {
          tcp := tcp - {p};
        }
        todo := todo - {p};
      }
    }

    /** Stop serving one hostname, if it is live. */
    method EvictHost(host: string) returns (evicted: Option<Handle>)
      requires Valid()
      modifies this
      ensures Valid()
      ensures http == old(http) - {host} && tcp == old(tcp)
      ensures evicted == if host in old(http) then Some(old(http)[host]) else None
    {
      evicted := None;
      ghost var t := Table();
      if host in http {
        evicted := Some(http[host]);
        UnindexHost(http[host].session, host);
        http := http - {host};
        forall s: nat ensures Entry(bySession, s) == Scan(Table(), s) {
          assert Entry(old(bySession), s) == Scan(t, s);
          assert Scan(Table(), s) == Scan(t, s).(hosts := Scan(t, s).hosts - {host});
        }
      }
    }

    method EvictPort(port: PortNumber) returns (evicted: Option<Handle>)
      requires Valid()
      modifies this
      ensures Valid()
      ensures tcp == old(tcp) - {port} && http == old(http)
      ensures evicted == if port in old(tcp) then Some(old(tcp)[port]) else None
    {
      evicted := None;
      ghost var t := Table();
      if port in tcp {
        evicted := Some(tcp[port]);
        UnindexPort(tcp[port].session, port);
        tcp := tcp - {port};
        forall s: nat ensures Entry(bySession, s) == Scan(Table(), s) {
          assert Entry(old(bySession), s) == Scan(t, s);
          assert Scan(Table(), s) == Scan(t, s).(ports := Scan(t, s).ports - {port});
        }
      }
    }

    method EvictHosts(hosts: seq<string>) returns (evicted: seq<(Handle, Resource)>)
      requires Valid()
      modifies this
      ensures Valid()
      ensures http == old(http) - Elements(hosts) && tcp == old(tcp)
      ensures NoDuplicates(evicted)
      ensures Elements(evicted) == HostRoutes(old(http), Elements(hosts))
    {
      evicted := [];
      var i := 0;
      while i < |hosts|
        invariant 0 <= i <= |hosts|
        invariant Valid()
        invariant http == old(http) - Elements(hosts[..i]) && tcp == old(tcp)
        invariant NoDuplicates(evicted)
        invariant Elements(evicted) == HostRoutes(old(http), Elements(hosts[..i]))
      {
        assert hosts[..i + 1] == hosts[..i] + [hosts[i]];
        ElementsAppend(hosts[..i], hosts[i]);
        var prev := EvictHost(hosts[i]);
        if prev.Some? {
          ElementsAppend(evicted, (prev.value, Host(hosts[i])));
          assert (prev.value, Host(hosts[i])) !in Elements(evicted);
          evicted := evicted + [(prev.value, Host(hosts[i]))];
        }
        i := i + 1;
      }
      assert hosts[..i] == hosts;
    }

    method EvictPorts(ports: seq<PortNumber>) returns (evicted: seq<(Handle, Resource)>)
      requires Valid()
      modifies this
      ensures Valid()
      ensures tcp == old(tcp) - Elements(ports) && http == old(http)
      ensures NoDuplicates(evicted)
      ensures Elements(evicted) == PortRoutes(old(tcp), Elements(ports))
    {
      evicted := [];
      var i := 0;
      while i < |ports|
        invariant 0 <= i <= |ports|
        invariant Valid()
        invariant tcp == old(tcp) - Elements(ports[..i]) && http == old(http)
        invariant NoDuplicates(evicted)
        invariant Elements(evicted) == PortRoutes(old(tcp), Elements(ports[..i]))
      {
        assert ports[..i + 1] == ports[..i] + [ports[i]];
        ElementsAppend(ports[..i], ports[i]);
        var prev := EvictPort(ports[i]);
        if prev.Some? {
          ElementsAppend(evicted, (prev.value, Port(ports[i])));
          assert (prev.value, Port(ports[i])) !in Elements(evicted);
          evicted := evicted + [(prev.value, Port(ports[i]))];
        }
        i := i + 1;
      }
      assert ports[..i] == ports;
    }

    /** Tear down the live routes for the given resources; report each one that
        was live, once. */
    method EvictRoutes(hosts: seq<string>, ports: seq<PortNumber>) returns (evicted: seq<(Handle, Resource)>)
      requires Valid()
      modifies this
      ensures Valid()
      ensures Table() == Evicted(old(Table()), Elements(hosts), Elements(ports))
      ensures NoDuplicates(evicted)
      ensures Elements(evicted) == LiveAmong(old(Table()), hosts, ports)
    {
      var fromHosts := EvictHosts(hosts);
      var fromPorts := EvictPorts(ports);
      evicted := fromHosts + fromPorts;
      ReportedOnce(fromHosts, fromPorts, old(http), Elements(hosts), old(tcp), Elements(ports));
    }

    /** The hostnames routed to a session, read off the index, in any order. */
    method HostnamesOf(session: nat) returns (hosts: seq<string>)
      requires Valid()
      ensures Elements(hosts) == Scan(Table(), session).hosts
    {
      hosts := [];
      var todo := Entry(bySession, session).hosts;
      ghost var all := todo;
      assert all == Scan(Table(), session).hosts;
      while todo != {}
        invariant todo <= all
        invariant Elements(hosts) == all - todo
        decreases |todo|
      {
        var h :| h in todo;
        ElementsAppend(hosts, h);
        hosts, todo := hosts + [h], todo - {h};
      }
    }

    /** Count the tunnels `user` would have after also claiming the request. */
    method ProjectedTunnelCount(user: int, newHosts: seq<string>, newPorts: seq<PortNumber>) returns (n: nat)
      ensures n == Projected(Table(), user, newHosts, newPorts)
      ensures forall s: nat :: n == LiveCount(Claimed(Table(), Handle(s, user), newHosts, newPorts), user)
    {
      var hosts := InsertAll(UserHosts(Table(), user), newHosts);
      var ports := InsertAll(UserPorts(Table(), user), newPorts);
      n := |hosts| + |ports|;
      forall s: nat ensures n == LiveCount(Claimed(Table(), Handle(s, user), newHosts, newPorts), user) {
        ProjectionIsExact(Table(), Handle(s, user), newHosts, newPorts);
      }
    }
  }

  /** Insert a list of keys into a set, one at a time. */
  method InsertAll<K(==)>(s: set<K>, keys: seq<K>) returns (r: set<K>)
    ensures r == s + Elements(keys)
  {
    r := s;
    var i := 0;
    while i < |keys|
      invariant 0 <= i <= |keys|
      invariant r == s + Elements(keys[..i])
    {
      assert keys[..i + 1] == keys[..i] + [keys[i]];
      r := r + {keys[i]};
      i := i + 1;
    }
    assert keys[..i] == keys;
  }

  // ----- steps of the proofs above -----

  lemma PointedStep<K>(table: map<K, Handle>, who: Handle, keys: seq<K>, key: K)
    ensures Pointed(table, who, keys + [key]) == Pointed(table, who, keys)[key := who]
    ensures Foreign(table, who, keys + [key]) ==
            Foreign(table, who, keys) + (if key in table && table[key].session != who.session then {key} else {})
  {
  }

  /** Hostname reports followed by port reports repeat nothing. */
  lemma ReportedOnce(fromHosts: seq<(Handle, Resource)>, fromPorts: seq<(Handle, Resource)>,
                     http: map<string, Handle>, hosts: set<string>, tcp: map<PortNumber, Handle>, ports: set<PortNumber>)
    requires NoDuplicates(fromHosts) && NoDuplicates(fromPorts)
    requires Elements(fromHosts) == HostRoutes(http, hosts)
    requires Elements(fromPorts) == PortRoutes(tcp, ports)
    ensures NoDuplicates(fromHosts + fromPorts)
    ensures Elements(fromHosts + fromPorts) == HostRoutes(http, hosts) + PortRoutes(tcp, ports)
  {
    forall i | 0 <= i < |fromHosts| ensures fromHosts[i].1.Host? {
      assert fromHosts[i] in Elements(fromHosts);
    }
    forall i | 0 <= i < |fromPorts| ensures fromPorts[i].1.Port? {
      assert fromPorts[i] in Elements(fromPorts);
    }
    assert Elements(fromHosts + fromPorts) == Elements(fromHosts) + Elements(fromPorts);
  }

  lemma NothingToRemove(t: Routes, session: nat)
    requires Scan(t, session) == EMPTY_CLAIM
    ensures WithoutSession(t, session) == t
  {
    forall h | h in t.http ensures t.http[h].session != session {
      assert h !in Scan(t, session).hosts;
    }
    forall p | p in t.tcp ensures t.tcp[p].session != session {
      assert p !in Scan(t, session).ports;
    }
    assert WithoutSession(t, session).http == t.http;
    assert WithoutSession(t, session).tcp == t.tcp;
  }

  /** Removing what the scan finds is the full-scan teardown. */
  lemma WithoutSessionByScan(t: Routes, session: nat)
    ensures WithoutSession(t, session) == Evicted(t, Scan(t, session).hosts, Scan(t, session).ports)
  {
  }

  lemma IndexAfterRemoval(t: Routes, index: map<nat, ClaimSet>, session: nat)
    requires Exact(t, index)
    ensures Exact(WithoutSession(t, session), index - {session})
  {
    forall s: nat ensures Entry(index - {session}, s) == Scan(WithoutSession(t, session), s) {
      assert Entry(index, s) == Scan(t, s);
      if s != session {
        assert Scan(WithoutSession(t, session), s).hosts == Scan(t, s).hosts;
        assert Scan(WithoutSession(t, session), s).ports == Scan(t, s).ports;
      } else {
        assert Scan(WithoutSession(t, session), s).hosts == {};
        assert Scan(WithoutSession(t, session), s).ports == {};
      }
    }
  }
}
