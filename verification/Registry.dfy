/** The registry as the relay runs it: three tables updated in place. Each
    method is proved equal to the ledger function of the same meaning. */
module Registry {
  import opened Prelude
  import opened Labels
  import opened AgeOrder
  import opened Ownership

  datatype LabelClaim = Registered | AlreadyOwned | LabelTaken | AtCap | BadLabel(error: LabelError)

  class Registry {
    const domain: string
    var users: map<string, int>
    var hosts: map<string, HostRow>
    var ports: map<PortNumber, PortRow>

    constructor (domain: string)
      ensures this.domain == domain
      ensures State() == Ledger(domain, map[], map[], map[])
    {
      this.domain := domain;
      users, hosts, ports := map[], map[], map[];
    }

    function State(): Ledger
      reads this
    {
      Ledger(domain, users, hosts, ports)
    }

    /** Upsert-and-resolve the account of a customer. */
    method ResolveAccount(name: string) returns (user: Option<User>)
      modifies this
      ensures Resolved(State(), user) == ResolveUser(old(State()), name)
    {
      if name == "" {
        return None;
      }
      if name in users {
        return Some(User(users[name], name));
      }
      if |name| > 200 {
        return None;
      }
      var id := AllocateId(users.Values);
      users := users[name := id];
      return Some(User(id, name));
    }

    /** Claim a label under the cap, count and insert in one step. */
    method ClaimLabelCapped(user: int, name: string, max: Option<int>, now: int) returns (r: LabelClaim)
      modifies this
      ensures ValidLabel(name) ==>
                var c := ClaimHost(old(State()), user, Fqdn(domain, name), max, now);
                && State() == c.ledger
                && (r.Registered? || r.AlreadyOwned? <==> c.outcome == Owned)
                && (r.LabelTaken? <==> c.outcome == Taken)
                && (r.AtCap? <==> c.outcome == CapExceeded)
      ensures r.BadLabel? <==> !ValidLabel(name)
      ensures !r.Registered? ==> State() == old(State())
      ensures r.AlreadyOwned? <==> ValidLabel(name) && name in old(hosts) && old(hosts)[name].user == user
    {
      var error := ValidateLabel(name);
      if error.Some? {
        return BadLabel(error.value);
      }
      LabelOfInvertsFqdn(domain, Fqdn(domain, name), name);
      if name in hosts {
        return if hosts[name].user == user then AlreadyOwned else LabelTaken;
      }
      if max.Some? && Count(State(), user) >= max.value {
        return AtCap;
      }
      if user !in users.Values {
        return LabelTaken;
      }
      var id := AllocateId(RowIds(hosts));
      hosts := hosts[name := HostRow(user, now, id)];
      return Registered;
    }

    method ClaimHostname(user: int, fqdn: string, max: Option<int>, now: int) returns (outcome: ClaimOutcome)
      modifies this
      ensures Claim(State(), outcome) == ClaimHost(old(State()), user, fqdn, max, now)
    {
      var l := LabelOf(domain, fqdn);
      if l.None? {
        return Invalid;
      }
      LabelOfInvertsFqdn(domain, fqdn, l.value);
      var r := ClaimLabelCapped(user, l.value, max, now);
      match r
      case Registered => outcome := Owned;
      case AlreadyOwned => outcome := Owned;
      case LabelTaken => outcome := Taken;
      case AtCap => outcome := CapExceeded;
      case BadLabel(_) => outcome := Invalid;
    }

    method ReleaseHostname(user: int, fqdn: string) returns (released: bool)
      modifies this
      ensures State() == Release(old(State()), user, [fqdn], [])
      ensures released == OwnsHost(old(State()), user, fqdn)
    {
      ghost var r := State();
      ghost var q := Release(r, user, [fqdn], []);
      assert q.ports == r.ports;
      var l := LabelOf(domain, fqdn);
      if l.None? {
        forall m | m in hosts && ValidLabel(m) ensures Fqdn(domain, m) != fqdn {
          LabelOfInvertsFqdn(domain, fqdn, m);
        }
        assert q.hosts == r.hosts;
        return false;
      }
      forall m | m in hosts ensures ValidLabel(m) && Fqdn(domain, m) == fqdn <==> m == l.value {
        LabelOfInvertsFqdn(domain, fqdn, m);
        LabelOfInvertsFqdn(domain, fqdn, l.value);
      }
      released := l.value in hosts && hosts[l.value].user == user;
      if released {
        hosts := hosts - {l.value};
      }
      assert hosts == q.hosts;
    }

    method ReleasePort(user: int, port: PortNumber) returns (released: bool)
      modifies this
      ensures State() == Release(old(State()), user, [], [port])
      ensures released == OwnsPort(old(State()), user, port)
    {
      ghost var q := Release(State(), user, [], [port]);
      assert q.hosts == hosts;
      released := port in ports && ports[port].user == user;
      if released {
        ports := ports - {port};
      }
      assert ports == q.ports;
    }

    /** `SELECT ... FROM hostnames WHERE user_id = ?`: the rows in any order. */
    method SelectHosts(user: int) returns (rows: seq<Item>)
      ensures NoDuplicates(rows)
      ensures Elements(rows) == HostItems(State(), user)
    {
      rows := [];
      var todo := HostsOf(State(), user);
      while todo != {}
        invariant todo <= HostsOf(State(), user)
        invariant NoDuplicates(rows)
        invariant Elements(rows) == set l | l in HostsOf(State(), user) - todo :: HostItemOf(State(), l)
        decreases |todo|
      {
        var l :| l in todo;
        assert HostItemOf(State(), l) !in Elements(rows);
        ghost var before, listed := todo, rows;
        rows := rows + [HostItemOf(State(), l)];
        todo := todo - {l};
        assert HostsOf(State(), user) - todo == (HostsOf(State(), user) - before) + {l};
        assert Elements(rows) == Elements(listed) + {HostItemOf(State(), l)};
      }
    }

    method SelectPorts(user: int) returns (rows: seq<Item>)
      ensures NoDuplicates(rows)
      ensures Elements(rows) == PortItems(State(), user)
    {
      rows := [];
      var todo := PortsOf(State(), user);
      while todo != {}
        invariant todo <= PortsOf(State(), user)
        invariant NoDuplicates(rows)
        invariant Elements(rows) == set p | p in PortsOf(State(), user) - todo :: PortItemOf(State(), p)
        decreases |todo|
      {
        ghost var some: PortNumber := Pick(todo);
        assert some in todo;
        var p :| p in todo;
        assert PortItemOf(State(), p) !in Elements(rows);
        ghost var before, listed := todo, rows;
        rows := rows + [PortItemOf(State(), p)];
        todo := todo - {p};
        assert PortsOf(State(), user) - todo == (PortsOf(State(), user) - before) + {p};
        assert Elements(rows) == Elements(listed) + {PortItemOf(State(), p)};
      }
    }

    /** The owned resources past `cap`, oldest grandfathered: list hostnames,
        then ports, sort stably, skip the first `cap`, split by kind. */
    method OwnedOverCap(user: int, cap: int) returns (names: seq<string>, numbers: seq<PortNumber>)
      requires RowIdsUnique(State())
      ensures NoDuplicates(names) && NoDuplicates(numbers)
      ensures Elements(names) == LabelsIn(OverCap(Items(State(), user), cap))
      ensures Elements(numbers) == PortsIn(OverCap(Items(State(), user), cap))
    {
      var keep := if cap < 0 then 0 else cap;
      var hostRows := SelectHosts(user);
      var portRows := SelectPorts(user);
      var owned := hostRows + portRows;
      RowsListTiesOldestFirst(State(), user, hostRows, portRows);
      assert Elements(owned) == Items(State(), user);
      assert OverCap(Items(State(), user), cap) == OverCap(Items(State(), user), keep);
      names, numbers := [], [];
      if |owned| <= keep {
        ShortListIsWithinCap(owned, keep);
        return;
      }
      SortedTailIsOverCap(owned, keep);
      var tail := StableSort(owned)[keep..];
      forall i | 0 <= i < |tail| ensures tail[i] in Items(State(), user) {
        assert tail[i] in Elements(tail);
      }
      names, numbers := SplitByKind(tail);
    }

    /** Prune `user` to `cap` and report what went. */
    method PruneOwnedToCap(user: int, cap: int) returns (names: seq<string>, numbers: seq<PortNumber>)
      requires RowIdsUnique(State())
      modifies this
      ensures State() == PruneTo(old(State()), user, cap)
      ensures NoDuplicates(names) && NoDuplicates(numbers)
      ensures Elements(names) == LabelsIn(OverCap(Items(old(State()), user), cap))
      ensures Elements(numbers) == PortsIn(OverCap(Items(old(State()), user), cap))
    {
      ghost var r := State();
      names, numbers := OwnedOverCap(user, cap);
      DeleteHosts(user, names);
      DeletePorts(user, numbers);
      PruneByName(r, user, cap, names, numbers);
    }

    method DeleteHosts(user: int, names: seq<string>)
      modifies this
      ensures users == old(users) && ports == old(ports)
      ensures hosts == map l | l in old(hosts) && !(old(hosts)[l].user == user && l in names) :: old(hosts)[l]
    {
      var i := 0;
      while i < |names|
        invariant 0 <= i <= |names|
        invariant users == old(users) && ports == old(ports)
        invariant hosts == map l | l in old(hosts) && !(old(hosts)[l].user == user && l in names[..i]) :: old(hosts)[l]
      {
        if names[i] in hosts && hosts[names[i]].user == user {
          hosts := hosts - {names[i]};
        }
        i := i + 1;
      }
      assert names[..i] == names;
    }

    method DeletePorts(user: int, numbers: seq<PortNumber>)
      modifies this
      ensures users == old(users) && hosts == old(hosts)
      ensures ports == map p | p in old(ports) && !(old(ports)[p].user == user && p in numbers) :: old(ports)[p]
    {
      var i := 0;
      while i < |numbers|
        invariant 0 <= i <= |numbers|
        invariant users == old(users) && hosts == old(hosts)
        invariant ports == map p | p in old(ports) && !(old(ports)[p].user == user && p in numbers[..i]) :: old(ports)[p]
      {
        if numbers[i] in ports && ports[numbers[i]].user == user {
          ports := ports - {numbers[i]};
        }
        i := i + 1;
      }
      assert numbers[..i] == numbers;
    }
  }

  /** Splitting a run of items into labels and ports, in order. */
  method SplitByKind(tail: seq<Item>) returns (names: seq<string>, numbers: seq<PortNumber>)
    requires forall i, j :: 0 <= i < j < |tail| && tail[i].HostItem? && tail[j].HostItem? ==> tail[i].name != tail[j].name
    requires forall i, j :: 0 <= i < j < |tail| && tail[i].PortItem? && tail[j].PortItem? ==> tail[i].port != tail[j].port
    ensures NoDuplicates(names) && NoDuplicates(numbers)
    ensures Elements(names) == LabelsIn(Elements(tail))
    ensures Elements(numbers) == PortsIn(Elements(tail))
  {
    names, numbers := [], [];
    var i := 0;
    while i < |tail|
      invariant 0 <= i <= |tail|
      invariant NoDuplicates(names) && NoDuplicates(numbers)
      invariant Elements(names) == LabelsIn(Elements(tail[..i]))
      invariant Elements(numbers) == PortsIn(Elements(tail[..i]))
    {
      assert tail[..i + 1] == tail[..i] + [tail[i]];
      AppendItem(tail[..i], tail[i]);
      match tail[i] {
        case HostItem(_, _, name) =>
          assert name !in LabelsIn(Elements(tail[..i]));
          assert name !in Elements(names);
          ElementsAppend(names, name);
          names := names + [name];
        case PortItem(_, port) =>
          assert port !in PortsIn(Elements(tail[..i]));
          assert port !in Elements(numbers);
          ElementsAppend(numbers, port);
          numbers := numbers + [port];
      }
      i := i + 1;
    }
    assert tail[..i] == tail;
  }

  lemma AppendItem(s: seq<Item>, x: Item)
    ensures LabelsIn(Elements(s + [x])) == LabelsIn(Elements(s)) + (if x.HostItem? then {x.name} else {})
    ensures PortsIn(Elements(s + [x])) == PortsIn(Elements(s)) + (if x.PortItem? then {x.port} else {})
  {
  }
}
