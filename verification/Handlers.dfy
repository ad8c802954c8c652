/** The control-session handlers as the relay runs them: loops with early
    returns over the shared registry, router and licence gate. Each is proved
    equal to the corresponding atomic step of `Relay`. */
module Handlers {
  import opened Prelude
  import opened Labels
  import opened Ownership
  import opened Routing
  import opened Licences
  import opened TokenBucket
  import opened GateRuns
  import opened Enforcement
  import opened Relay
  import R = Registry
  import T = Router
  import G = PolarGate

  /** Shared relay state handed to every session. Without a gate only local
      tokens authenticate and no cap applies. */
  class SessionCtx {
    const registry: R.Registry
    const router: T.Router
    const gate: G.PolarGate?

    constructor (registry: R.Registry, router: T.Router, gate: G.PolarGate?)
      ensures this.registry == registry && this.router == router && this.gate == gate
    {
      this.registry, this.router, this.gate := registry, router, gate;
    }

    ghost function GateObjects(): set<object> {
      if gate == null then {} else {gate.cache, gate.budget}
    }

    function Configured(): Option<Policy> {
      if gate == null then None else Some(gate.policy)
    }

    /** The licence cache; without a gate there is nothing cached. */
    ghost function Cached(): Cache
      reads GateObjects()
    {
      if gate == null then map[] else gate.cache.rows
    }

    ghost function GateNow(): Gate
      reads GateObjects()
    {
      if gate == null then Gate(map[], Bucket(0.0, 0.0)) else gate.GateState()
    }

    ghost function PoolNow(): Pool
      reads registry, router
    {
      Pool(registry.State(), router.Table())
    }

    ghost predicate Valid()
      reads registry, router, GateObjects()
    {
      && router.Valid() && RowIdsUnique(registry.State())
      && (gate != null ==> gate.registry == registry && gate.router == router && gate.Valid())
    }

    /** The local token store first, then the licence gate. */
    method Authenticate(w: Presented) returns (user: Option<User>)
      requires Valid()
      modifies registry, router, GateObjects()
      ensures Valid()
      ensures AuthStep(GateNow(), PoolNow(), user) == AuthenticateAny(old(GateNow()), old(PoolNow()), Configured(), w)
    {
      if w.local.Some? {
        return w.local;
      }
      if gate == null {
        return None;
      }
      user := gate.AuthenticateKey(w);
    }

    /** The first port the claim may not have, in request order. */
    method CheckPorts(user: int, ports: seq<PortNumber>, tcp: Tcp) returns (refusal: Option<DenyCode>)
      ensures refusal == PortRefusal(registry.State(), user, ports, tcp)
    {
      var i := 0;
      while i < |ports|
        invariant 0 <= i <= |ports|
        invariant PortRefusal(registry.State(), user, ports, tcp) == PortRefusal(registry.State(), user, ports[i..], tcp)
      {
        assert ports[i..][1..] == ports[i + 1..];
        if tcp.Disabled? {
          return Some(PortNotReserved);
        }
        if ports[i] !in tcp.inRange || !OwnsPort(registry.State(), user, ports[i]) {
          return Some(PortNotReserved);
        }
        if ports[i] !in tcp.bindable {
          return Some(PortUnavailable);
        }
        i := i + 1;
      }
      return None;
    }

    /** Register every hostname in order, stopping at the first refusal. */
    method RegisterHosts(user: int, hosts: seq<string>, cap: Option<int>, clock: nat -> int) returns (outcome: ClaimOutcome)
      modifies registry
      ensures Claim(registry.State(), outcome) == RegisterFrom(old(registry.State()), user, hosts, 0, cap, clock)
    {
      var i := 0;
      while i < |hosts|
        invariant 0 <= i <= |hosts|
        invariant RegisterFrom(old(registry.State()), user, hosts, 0, cap, clock)
               == RegisterFrom(registry.State(), user, hosts, i, cap, clock)
      {
        outcome := registry.ClaimHostname(user, hosts[i], cap, clock(i));
        if outcome != Owned {
          return;
        }
        i := i + 1;
      }
      outcome := Owned;
    }

    method Route(who: Handle, hosts: seq<string>, ports: seq<PortNumber>, cap: Option<int>, clock: nat -> int) returns (reply: ControlReply)
      requires Valid()
      modifies registry, router
      ensures Valid()
      ensures ClaimStep(Cached(), PoolNow(), reply)
           == RegisterAndRoute(Cached(), old(PoolNow()), who, cap, hosts, ports, clock)
    {
      RegisterFromFacts(registry.State(), who.user, hosts, 0, cap, clock);
      var outcome := RegisterHosts(who.user, hosts, cap, clock);
      match outcome {
        case Owned =>
        case CapExceeded => return Denied(LimitExceeded);
        case Taken => return Denied(NotOwner);
        case Invalid => return Denied(NotOwner);
      }
      var superseded := router.Claim(who, hosts, ports);
      reply := GrantedClaim(hosts, ports);
    }

    /** Validate and apply a claim. */
    method HandleClaimFrame(session: nat, user: User, token: string, i: ClaimInput) returns (reply: ControlReply)
      requires Valid()
      modifies registry, router, GateObjects()
      ensures Valid()
      ensures ClaimStep(Cached(), PoolNow(), reply)
           == HandleClaim(old(Cached()), old(PoolNow()), Configured(), session, user, token, i)
    {
      if |i.hosts| + |i.ports| > MAX_CLAIM_ENTRIES {
        return Denied(ProtocolError);
      }
      var hosts := LowerAll(i.hosts);
      var refusal := CheckPorts(user.id, i.ports, i.tcp);
      if refusal.Some? {
        return Denied(refusal.value);
      }
      var cap: Option<int> := None;
      if gate != null {
        var activated := gate.EnsureKeyActivated(token, i.activate);
        if !activated {
          return Denied(LimitExceeded);
        }
        var decision := gate.CapForUser(user.name, i.now);
        match decision {
          case Allow =>
          case DenyAll => return Denied(LimitExceeded);
          case Cap(max) =>
            cap := Some(max);
            var projected := router.ProjectedTunnelCount(user.id, hosts, i.ports);
            if projected > max {
              return Denied(LimitExceeded);
            }
        }
      }
      reply := Route(Handle(session, user.id), hosts, i.ports, cap, i.clock);
    }

    /** Delete the caller's own hostnames among those named, one at a time. */
    method ReleaseHosts(user: int, hosts: seq<string>) returns (gone: seq<string>)
      modifies registry
      ensures registry.State() == Release(old(registry.State()), user, hosts, [])
      ensures NoDuplicates(gone)
      ensures Elements(gone) == ReleasableHosts(old(registry.State()), user, hosts)
    {
      gone := [];
      ghost var r := registry.State();
      ReleaseNothing(r, user);
      var i := 0;
      while i < |hosts|
        invariant 0 <= i <= |hosts|
        invariant registry.State() == Release(r, user, hosts[..i], [])
        invariant NoDuplicates(gone)
        invariant Elements(gone) == ReleasableHosts(r, user, hosts[..i])
      {
        assert hosts[..i + 1] == hosts[..i] + [hosts[i]];
        ReleaseFacts(r, user, hosts[..i], []);
        ReleaseCompose(r, user, hosts[..i], [], [hosts[i]], []);
        assert ReleasableHosts(r, user, hosts[..i + 1]) ==
               ReleasableHosts(r, user, hosts[..i]) + (if OwnsHost(r, user, hosts[i]) then {hosts[i]} else {});
        var released := registry.ReleaseHostname(user, hosts[i]);
        if released {
          assert hosts[i] !in Elements(gone);
          ElementsAppend(gone, hosts[i]);
          gone := gone + [hosts[i]];
        }
        i := i + 1;
      }
      assert hosts[..i] == hosts;
    }

    method ReleasePorts(user: int, ports: seq<PortNumber>) returns (gone: seq<PortNumber>)
      modifies registry
      ensures registry.State() == Release(old(registry.State()), user, [], ports)
      ensures NoDuplicates(gone)
      ensures Elements(gone) == ReleasablePorts(old(registry.State()), user, ports)
    {
      gone := [];
      ghost var r := registry.State();
      ReleaseNothing(r, user);
      var i := 0;
      while i < |ports|
        invariant 0 <= i <= |ports|
        invariant registry.State() == Release(r, user, [], ports[..i])
        invariant NoDuplicates(gone)
        invariant Elements(gone) == ReleasablePorts(r, user, ports[..i])
      {
        assert ports[..i + 1] == ports[..i] + [ports[i]];
        ReleaseFacts(r, user, [], ports[..i]);
        ReleaseCompose(r, user, [], ports[..i], [], [ports[i]]);
        assert ReleasablePorts(r, user, ports[..i + 1]) ==
               ReleasablePorts(r, user, ports[..i]) + (if OwnsPort(r, user, ports[i]) then {ports[i]} else {});
        var released := registry.ReleasePort(user, ports[i]);
        if released {
          assert ports[i] !in Elements(gone);
          ElementsAppend(gone, ports[i]);
          gone := gone + [ports[i]];
        }
        i := i + 1;
      }
      assert ports[..i] == ports;
    }

    method ReleaseOwned(user: int, hosts: seq<string>, ports: seq<PortNumber>)
      returns (goneHosts: seq<string>, gonePorts: seq<PortNumber>)
      modifies registry
      ensures registry.State() == Release(old(registry.State()), user, hosts, ports)
      ensures NoDuplicates(goneHosts) && NoDuplicates(gonePorts)
      ensures Elements(goneHosts) == ReleasableHosts(old(registry.State()), user, hosts)
      ensures Elements(gonePorts) == ReleasablePorts(old(registry.State()), user, ports)
    {
      ghost var r := registry.State();
      goneHosts := ReleaseHosts(user, hosts);
      ghost var r1 := registry.State();
      gonePorts := ReleasePorts(user, ports);
      ReleaseCompose(r, user, hosts, [], [], ports);
      assert hosts + [] == hosts && [] + ports == ports;
      assert r1.ports == r.ports;
      assert ReleasablePorts(r1, user, ports) == ReleasablePorts(r, user, ports);
    }

    /** Release resources the caller owns; reply with what actually went. */
    method HandleReleaseFrame(user: User, token: string, hosts: seq<string>, ports: seq<PortNumber>, deactivated: bool)
      returns (reply: ControlReply)
      requires Valid()
      modifies registry, router, GateObjects()
      ensures Valid()
      ensures ClaimStep(Cached(), PoolNow(), reply)
           == HandleRelease(old(Cached()), old(PoolNow()), Configured(), user, token, hosts, ports, deactivated)
    {
      if |hosts| + |ports| > MAX_CLAIM_ENTRIES {
        return Denied(ProtocolError);
      }
      ReleaseFacts(registry.State(), user.id, LowerAll(hosts), ports);
      var goneHosts, gonePorts := ReleaseOwned(user.id, LowerAll(hosts), ports);
      reply := Released(Elements(goneHosts), Elements(gonePorts));
      if goneHosts == [] && gonePorts == [] {
        EvictNothing(router.Table());
        return;
      }
      assert goneHosts != [] ==> goneHosts[0] in Elements(goneHosts);
      assert gonePorts != [] ==> gonePorts[0] in Elements(gonePorts);
      var _ := router.EvictRoutes(goneHosts, gonePorts);
      if gate != null && Count(registry.State(), user.id) == 0 {
        gate.ReleaseKeyActivation(token, deactivated);
      }
    }

    /** The revalidation tick; true means the session must close. */
    method RevalidationTick(session: nat, user: User, w: Presented, capNow: int) returns (close: bool)
      requires Valid()
      modifies registry, router, GateObjects()
      ensures Valid()
      ensures TickStep(GateNow(), PoolNow(), close)
           == HandleTick(old(GateNow()), old(PoolNow()), Configured(), session, user, w, capNow)
    {
      var again := Authenticate(w);
      if again.None? || again.value.id != user.id {
        return true;
      }
      ghost var p := PoolNow();
      var routed := router.HostnamesOf(session);
      var revoked := FilterRevoked(user.id, routed);
      assert Elements(revoked) == RevokedHosts(p, session, user.id);
      if revoked != [] {
        var _ := router.EvictRoutes(revoked, []);
      } else {
        EvictNothing(router.Table());
      }
      if gate != null {
        var decision := gate.CapForUser(user.name, capNow);
        if decision == DenyAll {
          return true;
        }
      }
      return false;
    }

    method FilterRevoked(user: int, routed: seq<string>) returns (revoked: seq<string>)
      ensures Elements(revoked) == set h | h in routed && !OwnsHost(registry.State(), user, h)
    {
      revoked := [];
      var i := 0;
      while i < |routed|
        invariant 0 <= i <= |routed|
        invariant Elements(revoked) == set h | h in routed[..i] && !OwnsHost(registry.State(), user, h)
      {
        assert routed[..i + 1] == routed[..i] + [routed[i]];
        if !OwnsHost(registry.State(), user, routed[i]) {
          ElementsAppend(revoked, routed[i]);
          revoked := revoked + [routed[i]];
        }
        i := i + 1;
      }
      assert routed[..i] == routed;
    }
  }

  lemma ReleaseNothing(r: Ledger, user: int)
    ensures Release(r, user, [], []) == r
  {
  }

  lemma EvictNothing(t: Routes)
    ensures Evicted(t, {}, {}) == t
  {
  }
}
