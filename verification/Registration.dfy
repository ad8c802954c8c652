/** Which lists of hostnames register, and what a refused list leaves behind,
    read from the ledger as it was before the first of them. */
module Registration {
  import opened Prelude
  import opened Labels
  import opened Ownership

  /** The labels a list of hostnames asks for. */
  function LabelsOf(domain: string, hosts: seq<string>): set<string> {
    set h | h in hosts && LabelOf(domain, h).Some? :: LabelOf(domain, h).value
  }

  /** Those that nobody holds yet. */
  function NewLabels(r: Ledger, hosts: seq<string>): set<string> {
    LabelsOf(r.domain, hosts) - r.hosts.Keys
  }

  /** A hostname under the apex with a proper label that is free or the user's. */
  predicate Obtainable(r: Ledger, user: int, fqdn: string) {
    var l := LabelOf(r.domain, fqdn);
    l.Some? && (l.value in r.hosts ==> r.hosts[l.value].user == user)
  }

  predicate AllObtainable(r: Ledger, user: int, hosts: seq<string>) {
    forall h :: h in hosts ==> Obtainable(r, user, h)
  }

  /** New rows need an account, and must all fit under the cap. */
  predicate NewRowsFit(r: Ledger, user: int, n: nat, max: Option<int>) {
    n > 0 ==> user in r.users.Values && (max.Some? ==> Count(r, user) + n <= max.value)
  }

  /** The whole list can be registered: every host is obtainable, and the new
      ones fit. */
  predicate Registrable(r: Ledger, user: int, hosts: seq<string>, max: Option<int>) {
    AllObtainable(r, user, hosts) && NewRowsFit(r, user, |NewLabels(r, hosts)|, max)
  }

  /** Why `fqdn` cannot follow `done`, all of which can be registered. */
  function RefusalOf(r: Ledger, user: int, done: seq<string>, fqdn: string, max: Option<int>): ClaimOutcome {
    if LabelOf(r.domain, fqdn).None? then Invalid
    else if !Obtainable(r, user, fqdn) then Taken
    else if max.Some? && Count(r, user) + |NewLabels(r, done)| >= max.value then CapExceeded
    else Taken
  }

  /** Position `j` holds the first host that cannot be registered. */
  predicate FirstRefused(r: Ledger, user: int, hosts: seq<string>, max: Option<int>, j: nat) {
    && j < |hosts|
    && Registrable(r, user, hosts[..j], max)
    && !Registrable(r, user, hosts[..j + 1], max)
  }

  /** `q` is `r` with the labels `added` registered to `user`. */
  ghost predicate Registered(r: Ledger, q: Ledger, user: int, added: set<string>) {
    && q == r.(hosts := q.hosts)
    && q.hosts.Keys == r.hosts.Keys + added
    && (forall l :: l in r.hosts ==> q.hosts[l] == r.hosts[l])
    && (forall l :: l in added ==> q.hosts[l].user == user)
  }

  /** Each new label is dated when a request for it was served. */
  ghost predicate DatedByRequest(r: Ledger, q: Ledger, hosts: seq<string>, clock: nat -> int) {
    forall l :: l in NewLabels(r, hosts) ==>
      exists i :: 0 <= i < |hosts| && LabelOf(r.domain, hosts[i]) == Some(l) && l in q.hosts && q.hosts[l].createdAt == clock(i)
  }

  lemma RegisteredCount(r: Ledger, q: Ledger, user: int, added: set<string>)
    requires Registered(r, q, user, added) && r.hosts.Keys !! added
    ensures Count(q, user) == Count(r, user) + |added|
  {
    assert HostsOf(q, user) == HostsOf(r, user) + added;
  }

  lemma LabelsOfAppend(domain: string, hosts: seq<string>, h: string)
    ensures var l := LabelOf(domain, h);
            LabelsOf(domain, hosts + [h]) == LabelsOf(domain, hosts) + (if l.Some? then {l.value} else {})
  {
  }

  /** A shorter list asks for less. */
  lemma RegistrablePrefix(r: Ledger, user: int, hosts: seq<string>, max: Option<int>, j: nat)
    requires j <= |hosts| && Registrable(r, user, hosts, max)
    ensures Registrable(r, user, hosts[..j], max)
  {
    var some := NewLabels(r, hosts[..j]);
    assert some <= NewLabels(r, hosts);
    CardSubset(some, NewLabels(r, hosts));
  }

  lemma NewLabelsAppend(r: Ledger, done: seq<string>, h: string)
    ensures var l, already := LabelOf(r.domain, h), NewLabels(r, done);
            NewLabels(r, done + [h]) == if l.None? || l.value in r.hosts.Keys + already then already else already + {l.value}
  {
    LabelsOfAppend(r.domain, done, h);
  }

  lemma RegistrableAppend(r: Ledger, user: int, done: seq<string>, h: string, max: Option<int>)
    requires Registrable(r, user, done, max)
    ensures Registrable(r, user, done + [h], max) <==>
            && Obtainable(r, user, h)
            && (LabelOf(r.domain, h).value in r.hosts.Keys + NewLabels(r, done)
                || NewRowsFit(r, user, |NewLabels(r, done)| + 1, max))
  {
    NewLabelsAppend(r, done, h);
    assert AllObtainable(r, user, done + [h]) <==> Obtainable(r, user, h) by {
      assert (done + [h])[|done|] == h;
    }
  }

  /** One more host after a registered list: its outcome is decided by what the
      ledger held at the start. */
  lemma ClaimOneMore(r: Ledger, q: Ledger, user: int, done: seq<string>, h: string, max: Option<int>, now: int)
    requires Registrable(r, user, done, max) && Registered(r, q, user, NewLabels(r, done))
    ensures ClaimHost(q, user, h, max, now).outcome ==
            if Registrable(r, user, done + [h], max) then Owned else RefusalOf(r, user, done, h, max)
    ensures !Registrable(r, user, done + [h], max) ==> RefusalOf(r, user, done, h, max) != Owned
  {
    RegistrableAppend(r, user, done, h, max);
    RegisteredCount(r, q, user, NewLabels(r, done));
  }

  lemma RegisteredOneMore(r: Ledger, q: Ledger, user: int, done: seq<string>, h: string, max: Option<int>, now: int)
    requires Registered(r, q, user, NewLabels(r, done)) && ClaimHost(q, user, h, max, now).outcome == Owned
    ensures Registered(r, ClaimHost(q, user, h, max, now).ledger, user, NewLabels(r, done + [h]))
  {
    LabelsOfAppend(r.domain, done, h);
    ClaimHostAddsRow(q, user, h, max, now);
  }

  lemma DatedOneMore(r: Ledger, q: Ledger, user: int, hosts: seq<string>, k: nat, max: Option<int>, clock: nat -> int)
    requires k < |hosts| && Registered(r, q, user, NewLabels(r, hosts[..k])) && DatedByRequest(r, q, hosts[..k], clock)
    requires ClaimHost(q, user, hosts[k], max, clock(k)).outcome == Owned
    ensures DatedByRequest(r, ClaimHost(q, user, hosts[k], max, clock(k)).ledger, hosts[..k + 1], clock)
  {
    var done, next := hosts[..k], hosts[..k + 1];
    var q' := ClaimHost(q, user, hosts[k], max, clock(k)).ledger;
    assert next == done + [hosts[k]];
    LabelsOfAppend(r.domain, done, hosts[k]);
    ClaimHostAddsRow(q, user, hosts[k], max, clock(k));
    forall l | l in NewLabels(r, next)
      ensures exists i :: 0 <= i < |next| && LabelOf(r.domain, next[i]) == Some(l) && l in q'.hosts && q'.hosts[l].createdAt == clock(i)
    {
      if l in NewLabels(r, done) {
        var i :| 0 <= i < |done| && LabelOf(r.domain, done[i]) == Some(l) && l in q.hosts && q.hosts[l].createdAt == clock(i);
        assert next[i] == done[i];
      } else {
        assert next[k] == hosts[k] && LabelOf(r.domain, next[k]) == Some(l);
        assert l !in q.hosts.Keys;
      }
    }
  }

  /** The hosts before position `k` are registered in `q`. */
  ghost predicate RegisteredUpTo(r: Ledger, q: Ledger, user: int, hosts: seq<string>, max: Option<int>, clock: nat -> int, k: nat) {
    && k <= |hosts| && Registrable(r, user, hosts[..k], max)
    && Registered(r, q, user, NewLabels(r, hosts[..k])) && DatedByRequest(r, q, hosts[..k], clock)
  }

  /** What registering the list leaves: all of it if it is registrable, otherwise
      the hosts before the first refused one, and that one's outcome. */
  ghost predicate RegistersUpTo(r: Ledger, c: Claim, user: int, hosts: seq<string>, max: Option<int>, clock: nat -> int, j: nat) {
    && RegisteredUpTo(r, c.ledger, user, hosts, max, clock, j)
    && (if j == |hosts| then c.outcome == Owned
        else FirstRefused(r, user, hosts, max, j) && c.outcome == RefusalOf(r, user, hosts[..j], hosts[j], max))
  }

  lemma RegisterNext(r: Ledger, q: Ledger, user: int, hosts: seq<string>, k: nat, max: Option<int>, clock: nat -> int)
    requires k < |hosts| && RegisteredUpTo(r, q, user, hosts, max, clock, k)
    ensures var c := ClaimHost(q, user, hosts[k], max, clock(k));
            if c.outcome == Owned then RegisteredUpTo(r, c.ledger, user, hosts, max, clock, k + 1)
            else && FirstRefused(r, user, hosts, max, k)
                 && c == Claim(q, RefusalOf(r, user, hosts[..k], hosts[k], max))
  {
    assert hosts[..k + 1] == hosts[..k] + [hosts[k]];
    ClaimOneMore(r, q, user, hosts[..k], hosts[k], max, clock(k));
    ClaimHostFacts(q, user, hosts[k], max, clock(k));
    if ClaimHost(q, user, hosts[k], max, clock(k)).outcome == Owned {
      RegisteredOneMore(r, q, user, hosts[..k], hosts[k], max, clock(k));
      DatedOneMore(r, q, user, hosts, k, max, clock);
    }
  }

  lemma {:induction false} RegisterExactly(r: Ledger, q: Ledger, user: int, hosts: seq<string>, k: nat,
                                           max: Option<int>, clock: nat -> int) returns (j: nat)
    requires RegisteredUpTo(r, q, user, hosts, max, clock, k)
    ensures RegistersUpTo(r, RegisterFrom(q, user, hosts, k, max, clock), user, hosts, max, clock, j)
    ensures RegisterFrom(q, user, hosts, k, max, clock).outcome == Owned <==> j == |hosts|
    decreases |hosts| - k
  {
    if k == |hosts| {
      j := k;
    } else {
      var c := ClaimHost(q, user, hosts[k], max, clock(k));
      RegisterNext(r, q, user, hosts, k, max, clock);
      if c.outcome == Owned {
        j := RegisterExactly(r, c.ledger, user, hosts, k + 1, max, clock);
      } else {
        j := k;
      }
    }
  }

  /** A list is registrable exactly if no host in it is the first refused. */
  lemma NoneRefused(r: Ledger, user: int, hosts: seq<string>, max: Option<int>, j: nat)
    requires j <= |hosts| && Registrable(r, user, hosts[..j], max)
    requires j < |hosts| ==> FirstRefused(r, user, hosts, max, j)
    ensures Registrable(r, user, hosts, max) <==> j == |hosts|
  {
    if j == |hosts| {
      assert hosts[..j] == hosts;
    } else if Registrable(r, user, hosts, max) {
      RegistrablePrefix(r, user, hosts, max, j + 1);
    }
  }

  lemma NothingRegisteredYet(r: Ledger, user: int, hosts: seq<string>, max: Option<int>, clock: nat -> int)
    ensures RegisteredUpTo(r, r, user, hosts, max, clock, 0)
  {
    assert LabelsOf(r.domain, hosts[..0]) == {};
  }

  /** Registering from the start: how far it gets, and why it stops there. */
  lemma RegisterReaches(r: Ledger, user: int, hosts: seq<string>, max: Option<int>, clock: nat -> int) returns (j: nat)
    ensures var c := RegisterFrom(r, user, hosts, 0, max, clock);
            && RegistersUpTo(r, c, user, hosts, max, clock, j)
            && (c.outcome == Owned <==> j == |hosts|)
            && (Registrable(r, user, hosts, max) <==> j == |hosts|)
  {
    NothingRegisteredYet(r, user, hosts, max, clock);
    j := RegisterExactly(r, r, user, hosts, 0, max, clock);
    NoneRefused(r, user, hosts, max, j);
  }

  /** Registering a list, exactly: it succeeds if and only if the list is
      registrable; otherwise the hosts before the first refused one are
      registered, and the outcome is that one's. */
  lemma RegisterIff(r: Ledger, user: int, hosts: seq<string>, max: Option<int>, clock: nat -> int)
    ensures var c := RegisterFrom(r, user, hosts, 0, max, clock);
            && (c.outcome == Owned <==> Registrable(r, user, hosts, max))
            && exists j: nat :: RegistersUpTo(r, c, user, hosts, max, clock, j)
  {
    var j := RegisterReaches(r, user, hosts, max, clock);
  }

  lemma RegistrableShorter(r: Ledger, user: int, hosts: seq<string>, max: Option<int>, i: nat, j: nat)
    requires i <= j <= |hosts| && Registrable(r, user, hosts[..j], max)
    ensures Registrable(r, user, hosts[..i], max)
  {
    assert hosts[..j][..i] == hosts[..i];
    RegistrablePrefix(r, user, hosts[..j], max, i);
  }

  /** Only one position can be the first refused. */
  lemma FirstRefusedIsUnique(r: Ledger, user: int, hosts: seq<string>, max: Option<int>, i: nat, j: nat)
    requires FirstRefused(r, user, hosts, max, i) && FirstRefused(r, user, hosts, max, j)
    ensures i == j
  {
    if i < j {
      RegistrableShorter(r, user, hosts, max, i + 1, j);
    } else if j < i {
      RegistrableShorter(r, user, hosts, max, j + 1, i);
    }
  }
}
