/** The ownership ledger: who owns which label and port, as a value. Every
    operation of the registry is a function here; the class `Registry.Registry`
    is proved equal to these functions step by step. */
module Ownership {
  import opened Prelude
  import opened Labels
  import opened AgeOrder

  datatype HostRow = HostRow(user: int, createdAt: int, id: int)
  datatype PortRow = PortRow(user: int, createdAt: int)

  datatype Ledger = Ledger(
    domain: string,
    users: map<string, int>,
    hosts: map<string, HostRow>,
    ports: map<PortNumber, PortRow>)

  datatype ClaimOutcome = Owned | Taken | Invalid | CapExceeded
  datatype Claim = Claim(ledger: Ledger, outcome: ClaimOutcome)
  datatype User = User(id: int, name: string)

  // ----- reading the ledger -----

  function HostsOf(r: Ledger, user: int): set<string> {
    set l | l in r.hosts && r.hosts[l].user == user
  }

  function PortsOf(r: Ledger, user: int): set<PortNumber> {
    set p | p in r.ports && r.ports[p].user == user
  }

  /** Hostname rows plus port rows: the number the cap is compared against. */
  function Count(r: Ledger, user: int): nat {
    |HostsOf(r, user)| + |PortsOf(r, user)|
  }

  predicate OwnsHost(r: Ledger, user: int, fqdn: string) {
    var l := LabelOf(r.domain, fqdn);
    l.Some? && l.value in r.hosts && r.hosts[l.value].user == user
  }

  predicate OwnsPort(r: Ledger, user: int, port: PortNumber) {
    port in r.ports && r.ports[port].user == user
  }

  /** Row ids are the table's primary key. */
  ghost predicate RowIdsUnique(r: Ledger) {
    forall a, b :: a in r.hosts && b in r.hosts && r.hosts[a].id == r.hosts[b].id ==> a == b
  }

  /** The ids of the hostname rows; SQLite numbers the next row after them. */
  function RowIds(hosts: map<string, HostRow>): set<int> {
    set l | l in hosts :: hosts[l].id
  }

  // ----- accounts -----

  datatype Resolved = Resolved(ledger: Ledger, user: Option<User>)

  /** Look a customer's account up, creating it on first sight. The account name
      is the customer id; the empty id of a negative-cache row never resolves. */
  ghost function ResolveUser(r: Ledger, name: string): Resolved {
    if name == "" then Resolved(r, None)
    else if name in r.users then Resolved(r, Some(User(r.users[name], name)))
    else if |name| > 200 then Resolved(r, None)
    else
      var id := FreshId(r.users.Values);
      Resolved(r.(users := r.users[name := id]), Some(User(id, name)))
  }

  /** An admin adds an account: refused for an empty, overlong or existing name,
      which is when resolving the name creates nothing. */
  ghost function AddUser(r: Ledger, name: string): Ledger {
    ResolveUser(r, name).ledger
  }

  /** Account ids are the table's primary key. */
  ghost predicate UserIdsUnique(r: Ledger) {
    forall a, b :: a in r.users && b in r.users && r.users[a] == r.users[b] ==> a == b
  }

  /** Resolving keeps every account and gives a new one an id nobody has. */
  lemma ResolveUserFacts(r: Ledger, name: string)
    ensures var q := ResolveUser(r, name);
            && (forall a :: a in r.users ==> a in q.ledger.users && q.ledger.users[a] == r.users[a])
            && (UserIdsUnique(r) ==> UserIdsUnique(q.ledger))
            && (q.user.Some? ==> q.user.value.name == name != "" && name in q.ledger.users && q.ledger.users[name] == q.user.value.id)
  {
    assert forall a :: a in r.users ==> r.users[a] in r.users.Values;
  }

  /** A name resolves exactly if it has an account, or can be given one: non-empty
      and at most 200 characters. */
  lemma ResolvesIff(r: Ledger, name: string)
    ensures var q := ResolveUser(r, name);
            && (q.user.Some? <==> name != "" && (name in r.users || |name| <= 200))
            && (name in r.users || q.user.None? ==> q.ledger == r)
            && (name !in r.users && q.user.Some? ==>
                  q.ledger == r.(users := r.users[name := q.user.value.id])
                  && forall a :: a in r.users ==> r.users[a] < q.user.value.id)
  {
    assert forall a :: a in r.users ==> r.users[a] in r.users.Values;
  }

  // ----- claiming and releasing -----

  /** First come, first served, capped on owned rows. A row for an unknown user
      violates the foreign key, which the registry reports as taken. */
  ghost function ClaimHost(r: Ledger, user: int, fqdn: string, max: Option<int>, now: int): Claim {
    var l := LabelOf(r.domain, fqdn);
    if l.None? then Claim(r, Invalid)
    else if l.value in r.hosts then
      Claim(r, if r.hosts[l.value].user == user then Owned else Taken)
    else if max.Some? && Count(r, user) >= max.value then Claim(r, CapExceeded)
    else if user !in r.users.Values then Claim(r, Taken)
    else Claim(r.(hosts := r.hosts[l.value := HostRow(user, now, FreshId(RowIds(r.hosts)))]), Owned)
  }

  /** Register the hosts from position `k` on, stopping at the first refusal.
      `clock(i)` is the wall clock when host `i` is registered. */
  ghost function RegisterFrom(r: Ledger, user: int, hosts: seq<string>, k: nat,
                              max: Option<int>, clock: nat -> int): Claim
    requires k <= |hosts|
    decreases |hosts| - k
  {
    if k == |hosts| then Claim(r, Owned)
    else
      var c := ClaimHost(r, user, hosts[k], max, clock(k));
      if c.outcome != Owned then c else RegisterFrom(c.ledger, user, hosts, k + 1, max, clock)
  }

  /** The requested hosts that are the caller's to release. */
  function ReleasableHosts(r: Ledger, user: int, hosts: seq<string>): set<string> {
    set h | h in hosts && OwnsHost(r, user, h)
  }

  function ReleasablePorts(r: Ledger, user: int, ports: seq<PortNumber>): set<PortNumber> {
    set p | p in ports && OwnsPort(r, user, p)
  }

  function Release(r: Ledger, user: int, hosts: seq<string>, ports: seq<PortNumber>): Ledger {
    r.(hosts := map l | l in r.hosts && !(r.hosts[l].user == user && ValidLabel(l) && Fqdn(r.domain, l) in hosts) :: r.hosts[l],
       ports := map p | p in r.ports && !(r.ports[p].user == user && p in ports) :: r.ports[p])
  }

  // ----- the downgrade cut -----

  function HostItemOf(r: Ledger, l: string): Item
    requires l in r.hosts
  {
    HostItem(r.hosts[l].createdAt, r.hosts[l].id, l)
  }

  function PortItemOf(r: Ledger, p: PortNumber): Item
    requires p in r.ports
  {
    PortItem(r.ports[p].createdAt, p)
  }

  function HostItems(r: Ledger, user: int): set<Item> {
    set l | l in r.hosts && r.hosts[l].user == user :: HostItemOf(r, l)
  }

  function PortItems(r: Ledger, user: int): set<Item> {
    set p | p in r.ports && r.ports[p].user == user :: PortItemOf(r, p)
  }

  /** Everything `user` owns, hostnames and ports pooled. */
  function Items(r: Ledger, user: int): set<Item> {
    HostItems(r, user) + PortItems(r, user)
  }

  /** Delete `user`'s rows past the oldest `cap`. */
  function PruneTo(r: Ledger, user: int, cap: int): Ledger {
    var over := OverCap(Items(r, user), cap);
    r.(hosts := map l | l in r.hosts && !(r.hosts[l].user == user && HostItemOf(r, l) in over) :: r.hosts[l],
       ports := map p | p in r.ports && !(r.ports[p].user == user && PortItemOf(r, p) in over) :: r.ports[p])
  }

  /** The labels and ports of a set of items. */
  function LabelsIn(s: set<Item>): set<string> {
    set x | x in s && x.HostItem? :: x.name
  }

  function PortsIn(s: set<Item>): set<PortNumber> {
    set x | x in s && x.PortItem? :: x.port
  }

  // ----- facts about items -----

  lemma CountIsItems(r: Ledger, user: int)
    ensures |Items(r, user)| == Count(r, user)
  {
    CardBijection(HostsOf(r, user), HostItems(r, user),
                  l => if l in r.hosts then HostItemOf(r, l) else HostItem(0, 0, l),
                  (x: Item) => if x.HostItem? then x.name else "");
    CardBijection(PortsOf(r, user), PortItems(r, user),
                  (p: int) => if p in r.ports then PortItemOf(r, p) else PortItem(0, 0),
                  (x: Item) => if x.PortItem? then x.port else 0);
    assert HostItems(r, user) !! PortItems(r, user);
  }

  lemma ItemsAreTotallyOrdered(r: Ledger, user: int)
    requires RowIdsUnique(r)
    ensures TotalOn(Items(r, user))
  {
  }

  lemma ItemOfHost(r: Ledger, user: int, x: Item)
    requires x in Items(r, user)
    ensures x.HostItem? ==> x.name in r.hosts && r.hosts[x.name].user == user && x == HostItemOf(r, x.name)
    ensures x.PortItem? ==> x.port in r.ports && r.ports[x.port].user == user && x == PortItemOf(r, x.port)
  {
  }

  // ----- pruning -----

  /** Pruning leaves a user exactly their oldest `cap` resources, and touches
      nobody else's. */
  lemma PruneKeepsOldest(r: Ledger, user: int, cap: int)
    ensures Items(PruneTo(r, user, cap), user) == Oldest(Items(r, user), cap)
    ensures forall v :: v != user ==> Items(PruneTo(r, user, cap), v) == Items(r, v)
  {
    var q := PruneTo(r, user, cap);
    forall x | x in Items(q, user) ensures x in Oldest(Items(r, user), cap) {
      ItemOfHost(q, user, x);
      assert x in Items(r, user);
    }
    forall x | x in Oldest(Items(r, user), cap) ensures x in Items(q, user) {
      ItemOfHost(r, user, x);
      if x.HostItem? {
        assert x.name in q.hosts;
      } else {
        assert x.port in q.ports;
      }
    }
    forall v | v != user ensures Items(q, v) == Items(r, v) {
      PruneSparesOthers(r, user, cap, v);
    }
  }

  lemma PruneSparesOthers(r: Ledger, user: int, cap: int, v: int)
    requires v != user
    ensures Items(PruneTo(r, user, cap), v) == Items(r, v)
  {
    var q := PruneTo(r, user, cap);
    forall x | x in Items(r, v) ensures x in Items(q, v) {
      ItemOfHost(r, v, x);
      if x.HostItem? {
        assert x.name in q.hosts;
      } else {
        assert x.port in q.ports;
      }
    }
    forall x | x in Items(q, v) ensures x in Items(r, v) {
      ItemOfHost(q, v, x);
    }
  }

  /** Pruning twice is pruning once to the smaller cap. */
  lemma PruneCompose(r: Ledger, user: int, a: int, b: int)
    ensures PruneTo(PruneTo(r, user, a), user, b) == PruneTo(r, user, Min(a, b))
  {
    var q := PruneTo(r, user, a);
    PruneKeepsOldest(r, user, a);
    OldestCompose(Items(r, user), a, b);
    var once, twice := PruneTo(r, user, Min(a, b)), PruneTo(q, user, b);
    forall l | l in r.hosts ensures l in twice.hosts <==> l in once.hosts {
      PruneComposeRow(r, user, a, b, HostItemOf(r, l));
    }
    forall p | p in r.ports ensures p in twice.ports <==> p in once.ports {
      PruneComposeRow(r, user, a, b, PortItemOf(r, p));
    }
    assert twice.hosts == once.hosts;
    assert twice.ports == once.ports;
  }

  lemma PruneComposeRow(r: Ledger, user: int, a: int, b: int, x: Item)
    ensures x in Items(r, user) ==>
              (x in OverCap(Items(r, user), Min(a, b)) <==>
               x in OverCap(Items(r, user), a) || x in OverCap(Items(PruneTo(r, user, a), user), b))
  {
    PruneKeepsOldest(r, user, a);
    if x in Oldest(Items(r, user), a) {
      RankInOldest(Items(r, user), a, x);
    }
  }

  /** A prune deletes nothing exactly when the owner is within the cap. */
  lemma PruneWithinCap(r: Ledger, user: int, cap: int)
    requires RowIdsUnique(r)
    ensures PruneTo(r, user, cap) == r <==> Count(r, user) <= Max(cap, 0)
    ensures OverCap(Items(r, user), cap) == {} <==> Count(r, user) <= Max(cap, 0)
  {
    ItemsAreTotallyOrdered(r, user);
    NothingOverCap(Items(r, user), cap);
    CountIsItems(r, user);
    var q := PruneTo(r, user, cap);
    if OverCap(Items(r, user), cap) == {} {
      assert q.hosts == r.hosts && q.ports == r.ports;
    } else {
      var x := Pick(OverCap(Items(r, user), cap));
      ItemOfHost(r, user, x);
      if x.HostItem? {
        assert x.name !in q.hosts;
      } else {
        assert x.port !in q.ports;
      }
    }
  }

  lemma PruneCount(r: Ledger, user: int, cap: int, v: int)
    ensures Count(PruneTo(r, user, cap), v) <= Count(r, v)
    ensures RowIdsUnique(r) && v == user ==> Count(PruneTo(r, user, cap), v) == Min(Max(cap, 0), Count(r, v))
  {
    var q := PruneTo(r, user, cap);
    CardSubset(HostsOf(q, v), HostsOf(r, v));
    CardSubset(PortsOf(q, v), PortsOf(r, v));
    if RowIdsUnique(r) && v == user {
      PruneKeepsOldest(r, user, cap);
      CountIsItems(q, v);
      CountIsItems(r, v);
      ItemsAreTotallyOrdered(r, v);
      OldestCount(Items(r, v), cap);
    }
  }

  // ----- claims -----

  /** What one claim does: it succeeds exactly when the caller owns the host
      afterwards, a refusal changes nothing, and a success adds at most the one
      row asked for. */
  lemma ClaimHostFacts(r: Ledger, user: int, fqdn: string, max: Option<int>, now: int)
    ensures var c := ClaimHost(r, user, fqdn, max, now);
            && (c.outcome == Owned <==> OwnsHost(c.ledger, user, fqdn))
            && (c.outcome != Owned ==> c.ledger == r)
            && (OwnsHost(r, user, fqdn) ==> c == Claim(r, Owned))
            && (forall u, h :: OwnsHost(r, u, h) ==> OwnsHost(c.ledger, u, h))
            && c.ledger.ports == r.ports && c.ledger.users == r.users && c.ledger.domain == r.domain
  {
  }

  /** A registration adds exactly the row asked for: the caller's, dated at the
      claim's clock reading, with an id above every other. */
  lemma ClaimHostAddsRow(r: Ledger, user: int, fqdn: string, max: Option<int>, now: int)
    ensures var q := ClaimHost(r, user, fqdn, max, now).ledger;
            q != r ==>
              && LabelOf(r.domain, fqdn).Some?
              && var l := LabelOf(r.domain, fqdn).value;
                 && l !in r.hosts
                 && q.hosts.Keys == r.hosts.Keys + {l}
                 && (forall a :: a in r.hosts ==> q.hosts[a] == r.hosts[a] && r.hosts[a].id < q.hosts[l].id)
                 && q.hosts[l].user == user && q.hosts[l].createdAt == now
  {
    assert forall a :: a in r.hosts ==> r.hosts[a].id in RowIds(r.hosts);
  }

  lemma ClaimHostKeepsIdsUnique(r: Ledger, user: int, fqdn: string, max: Option<int>, now: int)
    requires RowIdsUnique(r)
    ensures RowIdsUnique(ClaimHost(r, user, fqdn, max, now).ledger)
  {
    assert forall l :: l in r.hosts ==> r.hosts[l].id in RowIds(r.hosts);
  }

  /** A capped claim never takes its user past the cap, and never changes what
      anyone else owns. */
  lemma ClaimHostCount(r: Ledger, user: int, fqdn: string, max: Option<int>, now: int, v: int)
    ensures var c := ClaimHost(r, user, fqdn, max, now);
            && (v != user ==> Count(c.ledger, v) == Count(r, v))
            && (max.Some? ==> Count(c.ledger, user) <= Max(Count(r, user), max.value))
            && Count(r, v) <= Count(c.ledger, v) <= Count(r, v) + 1
  {
    var c := ClaimHost(r, user, fqdn, max, now);
    if c.ledger != r {
      var l := LabelOf(r.domain, fqdn).value;
      AddHostCount(r, l, c.ledger.hosts[l], v);
      AddHostCount(r, l, c.ledger.hosts[l], user);
    }
  }

  lemma AddHostCount(r: Ledger, l: string, row: HostRow, v: int)
    requires l !in r.hosts
    ensures Count(r.(hosts := r.hosts[l := row]), v) == Count(r, v) + (if row.user == v then 1 else 0)
  {
    var q := r.(hosts := r.hosts[l := row]);
    assert PortsOf(q, v) == PortsOf(r, v);
    assert l !in HostsOf(r, v);
    if row.user == v {
      assert HostsOf(q, v) == HostsOf(r, v) + {l};
    } else {
      assert HostsOf(q, v) == HostsOf(r, v);
    }
  }

  /** Registering a list: it succeeds exactly when the caller ends up owning
      every host in it, nobody loses anything, and the cap holds throughout. */
  lemma {:induction false} RegisterFromFacts(r: Ledger, user: int, hosts: seq<string>, k: nat,
                                             max: Option<int>, clock: nat -> int)
    requires k <= |hosts|
    ensures var c := RegisterFrom(r, user, hosts, k, max, clock);
            && (c.outcome == Owned <==> forall i :: k <= i < |hosts| ==> OwnsHost(c.ledger, user, hosts[i]))
            && (forall u, h :: OwnsHost(r, u, h) ==> OwnsHost(c.ledger, u, h))
            && c.ledger.ports == r.ports && c.ledger.users == r.users && c.ledger.domain == r.domain
            && (RowIdsUnique(r) ==> RowIdsUnique(c.ledger))
    decreases |hosts| - k
  {
    if k == |hosts| {
    } else {
      var c := ClaimHost(r, user, hosts[k], max, clock(k));
      ClaimHostFacts(r, user, hosts[k], max, clock(k));
      if RowIdsUnique(r) {
        ClaimHostKeepsIdsUnique(r, user, hosts[k], max, clock(k));
      }
      if c.outcome == Owned {
        RegisterFromFacts(c.ledger, user, hosts, k + 1, max, clock);
      }
    }
  }

  lemma {:induction false} RegisterFromCount(r: Ledger, user: int, hosts: seq<string>, k: nat,
                                             max: Option<int>, clock: nat -> int, v: int)
    requires k <= |hosts|
    ensures var c := RegisterFrom(r, user, hosts, k, max, clock);
            && (v != user ==> Count(c.ledger, v) == Count(r, v))
            && (max.Some? ==> Count(c.ledger, user) <= Max(Count(r, user), max.value))
    decreases |hosts| - k
  {
    if k == |hosts| {
    } else {
      var c := ClaimHost(r, user, hosts[k], max, clock(k));
      ClaimHostCount(r, user, hosts[k], max, clock(k), v);
      if c.outcome == Owned {
        RegisterFromCount(c.ledger, user, hosts, k + 1, max, clock, v);
      }
    }
  }

  // ----- releases -----

  /** After a release the caller owns none of what was asked for; every other
      ownership is untouched. */
  lemma ReleaseFacts(r: Ledger, user: int, hosts: seq<string>, ports: seq<PortNumber>)
    ensures var q := Release(r, user, hosts, ports);
            && (forall u, h :: OwnsHost(q, u, h) <==> OwnsHost(r, u, h) && !(u == user && h in hosts))
            && (forall u, p :: OwnsPort(q, u, p) <==> OwnsPort(r, u, p) && !(u == user && p in ports))
            && (RowIdsUnique(r) ==> RowIdsUnique(q))
  {
    var q := Release(r, user, hosts, ports);
    forall u, h ensures OwnsHost(q, u, h) <==> OwnsHost(r, u, h) && !(u == user && h in hosts) {
      var l := LabelOf(r.domain, h);
      if l.Some? {
        LabelOfInvertsFqdn(r.domain, h, l.value);
      }
    }
  }

  /** Releases add up: one request for two lists is two requests in a row. */
  lemma ReleaseCompose(r: Ledger, user: int, hosts: seq<string>, ports: seq<PortNumber>,
                       moreHosts: seq<string>, morePorts: seq<PortNumber>)
    ensures Release(Release(r, user, hosts, ports), user, moreHosts, morePorts)
         == Release(r, user, hosts + moreHosts, ports + morePorts)
  {
  }

  lemma ReleaseCount(r: Ledger, user: int, hosts: seq<string>, ports: seq<PortNumber>, v: int)
    ensures Count(Release(r, user, hosts, ports), v) <= Count(r, v)
  {
    var q := Release(r, user, hosts, ports);
    CardSubset(HostsOf(q, v), HostsOf(r, v));
    CardSubset(PortsOf(q, v), PortsOf(r, v));
  }

  /** What a user loses in a prune is exactly the items over the cap. */
  lemma PruneOwnership(r: Ledger, user: int, cap: int)
    ensures var q := PruneTo(r, user, cap);
            var over := OverCap(Items(r, user), cap);
            && (forall u, h :: OwnsHost(q, u, h) <==>
                  OwnsHost(r, u, h) && !(u == user && LabelOf(r.domain, h).value in LabelsIn(over)))
            && (forall u, p :: OwnsPort(q, u, p) <==>
                  OwnsPort(r, u, p) && !(u == user && p in PortsIn(over)))
            && (RowIdsUnique(r) ==> RowIdsUnique(q))
  {
  }

  /** Deleting the reported labels and ports one by one is the prune. */
  lemma PruneByName(r: Ledger, user: int, cap: int, names: seq<string>, numbers: seq<PortNumber>)
    requires Elements(names) == LabelsIn(OverCap(Items(r, user), cap))
    requires Elements(numbers) == PortsIn(OverCap(Items(r, user), cap))
    ensures PruneTo(r, user, cap).hosts == map l | l in r.hosts && !(r.hosts[l].user == user && l in names) :: r.hosts[l]
    ensures PruneTo(r, user, cap).ports == map p | p in r.ports && !(r.ports[p].user == user && p in numbers) :: r.ports[p]
  {
    var over := OverCap(Items(r, user), cap);
    forall l | l in r.hosts && r.hosts[l].user == user
      ensures HostItemOf(r, l) in over <==> l in names
    {
      assert l in names <==> l in Elements(names);
      if l in LabelsIn(over) {
        var x :| x in over && x.HostItem? && x.name == l;
        ItemOfHost(r, user, x);
      }
    }
    forall p | p in r.ports && r.ports[p].user == user
      ensures PortItemOf(r, p) in over <==> p in numbers
    {
      assert p in numbers <==> p in Elements(numbers);
      if p in PortsIn(over) {
        var x :| x in over && x.PortItem? && x.port == p;
        ItemOfHost(r, user, x);
      }
    }
  }

  /** Hostnames listed before ports, each in any order, meet the condition under
      which a stable sort by creation time and key yields the age order. */
  lemma RowsListTiesOldestFirst(r: Ledger, user: int, hostRows: seq<Item>, portRows: seq<Item>)
    requires RowIdsUnique(r)
    requires NoDuplicates(hostRows) && Elements(hostRows) == HostItems(r, user)
    requires NoDuplicates(portRows) && Elements(portRows) == PortItems(r, user)
    ensures TiesListedOldestFirst(hostRows + portRows)
    ensures Elements(hostRows + portRows) == Items(r, user)
  {
    var rows := hostRows + portRows;
    forall i | 0 <= i < |hostRows| ensures rows[i] in HostItems(r, user) {
      assert rows[i] in Elements(hostRows);
    }
    forall i | |hostRows| <= i < |rows| ensures rows[i] in PortItems(r, user) {
      assert rows[i] in Elements(portRows);
    }
    assert Elements(rows) == Elements(hostRows) + Elements(portRows);
  }

  /** The over-cap set is a function of the owned rows alone: any two listings
      of them sort alike. */
  lemma OverCapIgnoresRowOrder(r: Ledger, user: int, hostRows: seq<Item>, portRows: seq<Item>,
                               hostRows': seq<Item>, portRows': seq<Item>)
    requires RowIdsUnique(r)
    requires NoDuplicates(hostRows) && Elements(hostRows) == HostItems(r, user)
    requires NoDuplicates(portRows) && Elements(portRows) == PortItems(r, user)
    requires NoDuplicates(hostRows') && Elements(hostRows') == HostItems(r, user)
    requires NoDuplicates(portRows') && Elements(portRows') == PortItems(r, user)
    ensures StableSort(hostRows + portRows) == StableSort(hostRows' + portRows')
  {
    RowsListTiesOldestFirst(r, user, hostRows, portRows);
    RowsListTiesOldestFirst(r, user, hostRows', portRows');
    SortIgnoresRowOrder(hostRows + portRows, hostRows' + portRows');
  }
}
