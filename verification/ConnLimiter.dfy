/** The two-level concurrency limiter: a global semaphore and per-source counts.
    Admission and release each take two atomic sections, so every interleaving
    of connections is a run of the steps below. */
module ConnLimiter {
  import opened Prelude
  import opened TokenBucket

  /** Where a connection that holds a global slot stands:
      acquired but not yet counted, refused by the per-source ceiling, live, or
      dropped from its source's count with the slot still to be returned. */
  datatype Phase = Acquired(key: Key) | Refused | Live(key: Key) | Dropping

  datatype Limiter = Limiter(free: int, perKey: map<Key, int>, slots: map<nat, Phase>)

  datatype Bounds = Bounds(globalMax: nat, perKeyMax: nat)

  const MAX_PERMITS: nat := 0x1fff_ffff_ffff_ffff

  /** Zero ceilings would wedge the relay, so both are at least one. */
  function ClampBounds(globalMax: nat, perKeyMax: nat): (b: Bounds)
    ensures 1 <= b.globalMax <= MAX_PERMITS && 1 <= b.perKeyMax
    ensures 1 <= globalMax <= MAX_PERMITS ==> b.globalMax == globalMax
    ensures globalMax > MAX_PERMITS ==> b.globalMax == MAX_PERMITS
    ensures globalMax == 0 ==> b.globalMax == 1
    ensures b.perKeyMax == if perKeyMax == 0 then 1 else perKeyMax
  {
    Bounds(Min(Max(globalMax, 1), MAX_PERMITS), Max(perKeyMax, 1))
  }

  function Start(b: Bounds): Limiter {
    Limiter(b.globalMax, map[], map[])
  }

  datatype Action = Acquire(id: nat, ip: Key) | Admit(id: nat) | DropCount(id: nat) | ReturnSlot(id: nat)

  function CountOf(perKey: map<Key, int>, key: Key): int {
    if key in perKey then perKey[key] else 0
  }

  /** Take a global slot; without one the connection is turned away. */
  function AcquireStep(l: Limiter, id: nat, ip: Key): Limiter {
    if id in l.slots || l.free <= 0 then l
    else l.(free := l.free - 1, slots := l.slots[id := Acquired(LimiterKey(ip))])
  }

  /** Count the connection against its source, under the map's lock. */
  function AdmitStep(l: Limiter, b: Bounds, id: nat): Limiter {
    if id !in l.slots || !l.slots[id].Acquired? then l
    else
      var key := l.slots[id].key;
      var count := CountOf(l.perKey, key);
      if count >= b.perKeyMax then Limiter(l.free, l.perKey[key := count], l.slots[id := Refused])
      else Limiter(l.free, l.perKey[key := count + 1], l.slots[id := Live(key)])
  }

  function Decremented(perKey: map<Key, int>, key: Key): map<Key, int> {
    if key !in perKey then perKey
    else if perKey[key] - 1 == 0 then perKey - {key}
    else perKey[key := perKey[key] - 1]
  }

  /** First half of dropping a permit: give the source's count back. */
  function DropCountStep(l: Limiter, id: nat): Limiter {
    if id !in l.slots || !l.slots[id].Live? then l
    else Limiter(l.free, Decremented(l.perKey, l.slots[id].key), l.slots[id := Dropping])
  }

  /** Second half, and the end of a refusal: the semaphore slot goes back. */
  function ReturnSlotStep(l: Limiter, id: nat): Limiter {
    if id !in l.slots || !(l.slots[id].Refused? || l.slots[id].Dropping?) then l
    else l.(free := l.free + 1, slots := l.slots - {id})
  }

  function StepOf(l: Limiter, b: Bounds, a: Action): Limiter {
    match a
    case Acquire(id, ip) => AcquireStep(l, id, ip)
    case Admit(id) => AdmitStep(l, b, id)
    case DropCount(id) => DropCountStep(l, id)
    case ReturnSlot(id) => ReturnSlotStep(l, id)
  }

  function RunOf(l: Limiter, b: Bounds, actions: seq<Action>): Limiter
    decreases |actions|
  {
    if actions == [] then l else RunOf(StepOf(l, b, actions[0]), b, actions[1..])
  }

  // ----- the invariant -----

  function LiveIds(slots: map<nat, Phase>, key: Key): set<nat> {
    set id | id in slots && slots[id] == Live(key)
  }

  ghost predicate Conserved(l: Limiter, b: Bounds) {
    && 0 <= l.free && l.free + |l.slots| == b.globalMax
    && (forall key :: CountOf(l.perKey, key) == |LiveIds(l.slots, key)|)
    && (forall key :: key in l.perKey ==> 1 <= l.perKey[key] <= b.perKeyMax)
  }

  /** Moving one connection to a phase that is not live for `key`, or to one that
      is, changes that source's live set by exactly that connection. */
  lemma LiveAfterMove(slots: map<nat, Phase>, id: nat, phase: Phase, key: Key)
    ensures LiveIds(slots[id := phase], key) ==
            if phase == Live(key) then LiveIds(slots, key) + {id} else LiveIds(slots, key) - {id}
  {
  }

  lemma AcquireConserves(l: Limiter, b: Bounds, id: nat, ip: Key)
    requires Conserved(l, b)
    ensures Conserved(AcquireStep(l, id, ip), b)
  {
    if id !in l.slots && l.free > 0 {
      var phase := Acquired(LimiterKey(ip));
      forall key ensures LiveIds(l.slots[id := phase], key) == LiveIds(l.slots, key) {
        LiveAfterMove(l.slots, id, phase, key);
      }
    }
  }

  lemma AdmitConserves(l: Limiter, b: Bounds, id: nat)
    requires Conserved(l, b) && b.perKeyMax >= 1
    ensures Conserved(AdmitStep(l, b, id), b)
  {
    if id in l.slots && l.slots[id].Acquired? {
      var l' := AdmitStep(l, b, id);
      var k := l.slots[id].key;
      assert |l'.slots| == |l.slots|;
      forall key ensures CountOf(l'.perKey, key) == |LiveIds(l'.slots, key)| {
        LiveAfterMove(l.slots, id, l'.slots[id], key);
        assert id !in LiveIds(l.slots, key);
        assert LiveIds(l.slots, key) - {id} == LiveIds(l.slots, key);
      }
    }
  }

  lemma DropCountConserves(l: Limiter, b: Bounds, id: nat)
    requires Conserved(l, b)
    ensures Conserved(DropCountStep(l, id), b)
  {
    if id in l.slots && l.slots[id].Live? {
      var l' := DropCountStep(l, id);
      var k := l.slots[id].key;
      assert |l'.slots| == |l.slots|;
      assert id in LiveIds(l.slots, k);
      forall key ensures CountOf(l'.perKey, key) == |LiveIds(l'.slots, key)| {
        LiveAfterMove(l.slots, id, Dropping, key);
        if key != k {
          assert LiveIds(l.slots, key) - {id} == LiveIds(l.slots, key);
        }
      }
    }
  }

  lemma ReturnSlotConserves(l: Limiter, b: Bounds, id: nat)
    requires Conserved(l, b)
    ensures Conserved(ReturnSlotStep(l, id), b)
  {
    if id in l.slots && (l.slots[id].Refused? || l.slots[id].Dropping?) {
      assert (l.slots - {id}).Keys == l.slots.Keys - {id};
      assert |l.slots - {id}| == |l.slots| - 1;
      forall key ensures LiveIds(l.slots - {id}, key) == LiveIds(l.slots, key) {
      }
    }
  }

  lemma StepConserves(l: Limiter, b: Bounds, a: Action)
    requires Conserved(l, b) && b.perKeyMax >= 1
    ensures Conserved(StepOf(l, b, a), b)
  {
    match a
    case Acquire(id, ip) => AcquireConserves(l, b, id, ip);
    case Admit(id) => AdmitConserves(l, b, id);
    case DropCount(id) => DropCountConserves(l, b, id);
    case ReturnSlot(id) => ReturnSlotConserves(l, b, id);
  }

  lemma {:induction false} RunConserves(l: Limiter, b: Bounds, actions: seq<Action>)
    requires Conserved(l, b) && b.perKeyMax >= 1
    ensures Conserved(RunOf(l, b, actions), b)
    decreases |actions|
  {
    if actions == [] {
    } else {
      StepConserves(l, b, actions[0]);
      RunConserves(StepOf(l, b, actions[0]), b, actions[1..]);
    }
  }

  function InPhase(slots: map<nat, Phase>, p: Phase -> bool): set<nat> {
    set id | id in slots && p(slots[id])
  }

  /** Under every interleaving from start-up: free slots, acquisitions in flight,
      refusals, live permits and drops under way add up to the global maximum;
      each source's count is its number of live permits and lies between one and
      the ceiling; no zero count is kept. */
  lemma PermitsAreConserved(globalMax: nat, perKeyMax: nat, actions: seq<Action>)
    ensures var b := ClampBounds(globalMax, perKeyMax);
            var l := RunOf(Start(b), b, actions);
            && l.free >= 0
            && l.free + |InPhase(l.slots, (p: Phase) => p.Acquired?)| + |InPhase(l.slots, (p: Phase) => p.Refused?)|
               + |InPhase(l.slots, (p: Phase) => p.Live?)| + |InPhase(l.slots, (p: Phase) => p.Dropping?)| == b.globalMax
            && (forall key :: CountOf(l.perKey, key) == |LiveIds(l.slots, key)|)
            && (forall key :: key in l.perKey ==> 1 <= l.perKey[key] <= b.perKeyMax)
  {
    var b := ClampBounds(globalMax, perKeyMax);
    var l := RunOf(Start(b), b, actions);
    assert Conserved(Start(b), b) by {
      forall key ensures LiveIds(map[], key) == {} {
      }
    }
    RunConserves(Start(b), b, actions);
    PhasesPartition(l.slots);
  }

  lemma PhasesPartition(slots: map<nat, Phase>)
    ensures |slots| == |InPhase(slots, (p: Phase) => p.Acquired?)| + |InPhase(slots, (p: Phase) => p.Refused?)|
                       + |InPhase(slots, (p: Phase) => p.Live?)| + |InPhase(slots, (p: Phase) => p.Dropping?)|
  {
    var a, r := InPhase(slots, (p: Phase) => p.Acquired?), InPhase(slots, (p: Phase) => p.Refused?);
    var v, d := InPhase(slots, (p: Phase) => p.Live?), InPhase(slots, (p: Phase) => p.Dropping?);
    assert slots.Keys == a + r + v + d;
    assert a !! r && (a + r) !! v && (a + r + v) !! d;
  }

  /** The decrement of a dropped permit never goes below zero, and finds its
      source's entry, in every reachable state. */
  lemma DropNeverUnderflows(l: Limiter, b: Bounds, id: nat)
    requires Conserved(l, b) && id in l.slots && l.slots[id].Live?
    ensures l.slots[id].key in l.perKey && l.perKey[l.slots[id].key] >= 1
  {
    assert id in LiveIds(l.slots, l.slots[id].key);
    CardSubset({id}, LiveIds(l.slots, l.slots[id].key));
  }

  /** Admission is refused exactly when one of the two ceilings is reached. */
  lemma RefusedOnlyAtCeiling(l: Limiter, b: Bounds, id: nat, ip: Key)
    requires Conserved(l, b) && b.perKeyMax >= 1 && id !in l.slots
    ensures var l1 := AcquireStep(l, id, ip);
            var l2 := AdmitStep(l1, b, id);
            && (id !in l1.slots <==> |l.slots| == b.globalMax)
            && (id in l1.slots ==> (l2.slots[id].Refused? <==> |LiveIds(l.slots, LimiterKey(ip))| == b.perKeyMax))
  {
  }

  // ----- the limiter itself -----

  /** The semaphore and the per-source map, updated in place. The ghost map of
      slots records which connections hold a semaphore slot, and why. */
  class ConnLimiter {
    const bounds: Bounds
    var free: int
    var perKey: map<Key, int>
    ghost var slots: map<nat, Phase>

    ghost function State(): Limiter
      reads this
    {
      Limiter(free, perKey, slots)
    }

    constructor (globalMax: nat, perKeyMax: nat)
      ensures bounds == ClampBounds(globalMax, perKeyMax)
      ensures State() == Start(bounds) && Conserved(State(), bounds)
    {
      bounds := ClampBounds(globalMax, perKeyMax);
      free := ClampBounds(globalMax, perKeyMax).globalMax;
      perKey := map[];
      slots := map[];
      new;
      assert forall key :: LiveIds(map[], key) == {};
    }

    /** First section of an admission: the semaphore. */
    method AcquireSlot(ip: Key, ghost id: nat) returns (ok: bool)
      requires Conserved(State(), bounds) && id !in slots
      modifies this
      ensures Conserved(State(), bounds) && State() == AcquireStep(old(State()), id, ip)
      ensures ok <==> id in slots
      ensures !ok <==> |old(slots)| == bounds.globalMax
    {
      AcquireConserves(State(), bounds, id, ip);
      ok := free > 0;
      if ok {
        free, slots := free - 1, slots[id := Acquired(LimiterKey(ip))];
      }
    }

    /** Second section: the per-source count, under its lock. */
    method CountSource(key: Key, ghost id: nat) returns (ok: bool)
      requires Conserved(State(), bounds) && bounds.perKeyMax >= 1 && id in slots && slots[id] == Acquired(key)
      modifies this
      ensures Conserved(State(), bounds) && State() == AdmitStep(old(State()), bounds, id)
      ensures ok <==> slots[id] == Live(key)
      ensures !ok <==> slots[id] == Refused
    {
      AdmitConserves(State(), bounds, id);
      if key !in perKey {
        perKey := perKey[key := 0];
      }
      ok := perKey[key] < bounds.perKeyMax;
      slots := slots[id := if ok then Live(key) else Refused];
      if ok {
        perKey := perKey[key := perKey[key] + 1];
      }
    }

    /** A refused or dropped connection gives its semaphore slot back. */
    method ReturnSlot(ghost id: nat)
      requires Conserved(State(), bounds) && id in slots && (slots[id].Refused? || slots[id].Dropping?)
      modifies this
      ensures Conserved(State(), bounds) && State() == ReturnSlotStep(old(State()), id)
    {
      ReturnSlotConserves(State(), bounds, id);
      free, slots := free + 1, slots - {id};
    }

    /** Admission, run without interruption. A refusal by the source's ceiling
        gives the slot back and leaves the limiter as it was. */
    method TryAdmit(ip: Key, ghost id: nat) returns (permit: Option<Key>)
      requires Conserved(State(), bounds) && bounds.perKeyMax >= 1 && id !in slots
      modifies this
      ensures Conserved(State(), bounds)
      ensures permit.Some? ==> permit.value == LimiterKey(ip) && id in slots && slots[id] == Live(LimiterKey(ip))
      ensures permit.None? <==> |old(slots)| == bounds.globalMax || |LiveIds(old(slots), LimiterKey(ip))| == bounds.perKeyMax
      ensures permit.None? ==> State() == old(State())
    {
      RefusedOnlyAtCeiling(State(), bounds, id, ip);
      RefusalRestores(State(), bounds, id, ip);
      var acquired := AcquireSlot(ip, id);
      if !acquired {
        return None;
      }
      var key := LimiterKey(ip);
      var counted := CountSource(key, id);
      if !counted {
        ReturnSlot(id);
        return None;
      }
      return Some(key);
    }

    /** First half of dropping a permit: the source's count. The decrement finds
        its entry and never goes below zero. */
    method DropSource(key: Key, ghost id: nat)
      requires Conserved(State(), bounds) && id in slots && slots[id] == Live(key)
      modifies this
      ensures Conserved(State(), bounds) && State() == DropCountStep(old(State()), id)
    {
      DropNeverUnderflows(State(), bounds, id);
      DropCountConserves(State(), bounds, id);
      if key in perKey {
        var count := perKey[key] - 1;
        assert count >= 0;
        perKey := if count == 0 then perKey - {key} else perKey[key := count];
      }
      slots := slots[id := Dropping];
    }

    method DropPermit(key: Key, ghost id: nat)
      requires Conserved(State(), bounds) && id in slots && slots[id] == Live(key)
      modifies this
      ensures Conserved(State(), bounds)
      ensures State() == ReturnSlotStep(DropCountStep(old(State()), id), id)
    {
      DropSource(key, id);
      ReturnSlot(id);
    }
  }

  /** A refused admission leaves no trace once its slot is returned. */
  lemma RefusalRestores(l: Limiter, b: Bounds, id: nat, ip: Key)
    requires Conserved(l, b) && b.perKeyMax >= 1 && id !in l.slots
    ensures var l2 := AdmitStep(AcquireStep(l, id, ip), b, id);
            id in l2.slots && l2.slots[id] == Refused ==> ReturnSlotStep(l2, id) == l
  {
  }

  /** Admitting and then dropping a connection leaves the limiter as it was. */
  lemma AdmitThenDropRestores(l: Limiter, b: Bounds, id: nat, ip: Key)
    requires Conserved(l, b) && id !in l.slots && l.free > 0
    requires CountOf(l.perKey, LimiterKey(ip)) < b.perKeyMax
    ensures ReturnSlotStep(DropCountStep(AdmitStep(AcquireStep(l, id, ip), b, id), id), id) == l
  {
    var key := LimiterKey(ip);
    var l3 := DropCountStep(AdmitStep(AcquireStep(l, id, ip), b, id), id);
    assert l3.perKey == l.perKey;
    assert l3.slots - {id} == l.slots;
  }
}
