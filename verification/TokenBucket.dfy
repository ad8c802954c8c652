/** Token buckets: the per-source accept limiter and the relay-wide budget on
    outbound licence checks. Tokens are reals; call times are instants in
    seconds. */
module TokenBucket {
  import opened Prelude

  datatype Limits = Limits(rate: real, burst: real)

  ghost predicate ValidLimits(lim: Limits) {
    lim.rate >= 0.0 && lim.burst >= 0.0
  }

  datatype Bucket = Bucket(tokens: real, last: real)
  datatype Taken = Taken(bucket: Bucket, ok: bool)

  /** Elapsed time, saturating at zero as `Instant` subtraction does. */
  function Elapsed(since: real, now: real): (d: real)
    ensures d >= 0.0
  {
    if now > since then now - since else 0.0
  }

  function RefilledTo(b: Bucket, lim: Limits, now: real): real {
    b.tokens + Elapsed(b.last, now) * lim.rate
  }

  /** Tokens available at `now`, after refilling. */
  function Level(b: Bucket, lim: Limits, now: real): real {
    if RefilledTo(b, lim, now) < lim.burst then RefilledTo(b, lim, now) else lim.burst
  }

  /** Refill, then take one token if there is one. */
  function Take(b: Bucket, lim: Limits, now: real): Taken {
    var level := Level(b, lim, now);
    if level >= 1.0 then Taken(Bucket(level - 1.0, now), true) else Taken(Bucket(level, now), false)
  }

  // ----- one bucket -----

  predicate NonDecreasing(times: seq<real>) {
    forall i, j :: 0 <= i < j < |times| ==> times[i] <= times[j]
  }

  /** How many of the calls at `times` a bucket admits, as a real. */
  function Admitted(b: Bucket, lim: Limits, times: seq<real>): real
    decreases |times|
  {
    if times == [] then 0.0
    else
      var t := Take(b, lim, times[0]);
      (if t.ok then 1.0 else 0.0) + Admitted(t.bucket, lim, times[1..])
  }

  /** Tokens earned between two instants. */
  function Gain(since: real, now: real, lim: Limits): real {
    (now - since) * lim.rate
  }

  lemma GainSplit(a: real, b: real, c: real, lim: Limits)
    ensures Gain(a, b, lim) + Gain(b, c, lim) == Gain(a, c, lim)
  {
  }

  /** One step of the accounting: what is spent now and later is covered by the
      present level and the tokens earned on the way. */
  lemma Account(total: real, spent: real, later: real, level: real, nextLevel: real, gain: real, laterGain: real)
    requires total == spent + later
    requires later <= nextLevel + laterGain
    requires nextLevel <= level - spent + gain
    ensures total <= level + (gain + laterGain)
  {
  }

  lemma LevelIsNonNegative(b: Bucket, lim: Limits, now: real)
    requires ValidLimits(lim) && b.tokens >= 0.0
    ensures Level(b, lim, now) >= 0.0
    ensures (if Take(b, lim, now).ok then 1.0 else 0.0) <= Level(b, lim, now)
  {
    assert Elapsed(b.last, now) * lim.rate >= 0.0;
  }

  lemma NoGainInNoTime(t: real, lim: Limits)
    ensures Gain(t, t, lim) == 0.0
  {
  }

  /** A refill between two calls is at most the rate times the gap. */
  lemma LevelAfterTake(b: Bucket, lim: Limits, now: real, next: real)
    requires ValidLimits(lim) && now <= next
    ensures Level(Take(b, lim, now).bucket, lim, next)
         <= Level(b, lim, now) - (if Take(b, lim, now).ok then 1.0 else 0.0) + Gain(now, next, lim)
  {
  }

  /** The rate guarantee of a single bucket: whatever happened before, a run of
      calls is admitted at most burst + rate * duration times. */
  lemma {:induction false} BucketWindowBound(b: Bucket, lim: Limits, times: seq<real>)
    requires ValidLimits(lim) && b.tokens >= 0.0
    requires times != [] && NonDecreasing(times)
    ensures Admitted(b, lim, times) <= Level(b, lim, times[0]) + Gain(times[0], times[|times| - 1], lim)
    ensures Admitted(b, lim, times) <= lim.burst + Gain(times[0], times[|times| - 1], lim)
    decreases |times|
  {
    var t := Take(b, lim, times[0]);
    LevelIsNonNegative(b, lim, times[0]);
    if |times| == 1 {
      assert Admitted(t.bucket, lim, times[1..]) == 0.0;
      NoGainInNoTime(times[0], lim);
    } else {
      var rest := times[1..];
      BucketWindowBound(t.bucket, lim, rest);
      LevelAfterTake(b, lim, times[0], times[1]);
      assert rest[0] == times[1] && rest[|rest| - 1] == times[|times| - 1];
      GainSplit(times[0], times[1], times[|times| - 1], lim);
      Account(Admitted(b, lim, times), if t.ok then 1.0 else 0.0, Admitted(t.bucket, lim, rest),
              Level(b, lim, times[0]), Level(t.bucket, lim, times[1]),
              Gain(times[0], times[1], lim), Gain(times[1], times[|times| - 1], lim));
    }
  }

  lemma GainIsNonNegative(a: real, b: real, lim: Limits)
    requires ValidLimits(lim) && a <= b
    ensures Gain(a, b, lim) >= 0.0
  {
  }

  lemma GainIsMonotone(lo: real, first: real, last: real, hi: real, lim: Limits)
    requires ValidLimits(lim) && lo <= first <= last <= hi
    ensures 0.0 <= Gain(first, last, lim) <= Gain(lo, hi, lim)
  {
    GainSplit(lo, first, last, lim);
    GainSplit(lo, last, hi, lim);
    GainIsNonNegative(lo, first, lim);
    GainIsNonNegative(first, last, lim);
    GainIsNonNegative(last, hi, lim);
  }

  /** The same bound, for any window that contains the calls. */
  lemma WiderWindowBound(b: Bucket, lim: Limits, times: seq<real>, lo: real, hi: real)
    requires ValidLimits(lim) && b.tokens >= 0.0 && NonDecreasing(times) && lo <= hi
    requires forall i :: 0 <= i < |times| ==> lo <= times[i] <= hi
    ensures Admitted(b, lim, times) <= lim.burst + Gain(lo, hi, lim)
  {
    if times == [] {
      GainIsMonotone(lo, lo, hi, hi, lim);
    } else {
      BucketWindowBound(b, lim, times);
      GainIsMonotone(lo, times[0], times[|times| - 1], hi, lim);
    }
  }

  // ----- a refusal means the allowance is spent -----

  /** The bucket after calls at `times`. */
  function BucketAfter(b: Bucket, lim: Limits, times: seq<real>): Bucket
    decreases |times|
  {
    if times == [] then b else BucketAfter(Take(b, lim, times[0]).bucket, lim, times[1..])
  }

  /** The calls admitted from the i-th on. */
  function AdmittedSince(b: Bucket, lim: Limits, times: seq<real>, i: nat): real
    requires i <= |times|
  {
    Admitted(BucketAfter(b, lim, times[..i]), lim, times[i..])
  }

  /** The tokens there at the i-th call. */
  function LevelAt(b: Bucket, lim: Limits, times: seq<real>, i: nat): real
    requires i < |times|
  {
    Level(BucketAfter(b, lim, times[..i]), lim, times[i])
  }

  /** Between two calls a bucket that does not fill up earns the full rate. */
  lemma LevelAfterTakeExact(b: Bucket, lim: Limits, now: real, next: real)
    requires ValidLimits(lim) && now <= next
    requires Level(Take(b, lim, now).bucket, lim, next) < lim.burst
    ensures Level(Take(b, lim, now).bucket, lim, next)
         == Level(b, lim, now) - (if Take(b, lim, now).ok then 1.0 else 0.0) + Gain(now, next, lim)
  {
    assert Elapsed(now, next) == next - now;
  }

  /** The accounting of one call, from below. */
  lemma AccountExact(total: real, spent: real, later: real, level: real, nextLevel: real, gain: real, laterGain: real)
    requires total == spent + later
    requires later + 1.0 > nextLevel + laterGain
    requires nextLevel == level - spent + gain
    ensures total + 1.0 > level + (gain + laterGain)
  {
  }

  /** The last call of `times` is refused. */
  predicate RefusesLast(b: Bucket, lim: Limits, times: seq<real>)
    requires times != []
  {
    !Take(BucketAfter(b, lim, times[..|times| - 1]), lim, times[|times| - 1]).ok
  }

  /** In some stretch of calls that ends with the last, and begins with the first
      or at a full bucket, fewer than one token was left unspent. */
  ghost predicate SpentFrom(b: Bucket, lim: Limits, times: seq<real>, i: nat) {
    && i < |times|
    && (i == 0 || LevelAt(b, lim, times, i) == lim.burst)
    && AdmittedSince(b, lim, times, i) + 1.0 > LevelAt(b, lim, times, i) + Gain(times[i], times[|times| - 1], lim)
  }

  lemma ShiftCalls(b: Bucket, lim: Limits, times: seq<real>, i: nat)
    requires 0 < i <= |times|
    ensures BucketAfter(b, lim, times[..i]) == BucketAfter(Take(b, lim, times[0]).bucket, lim, times[1..][..i - 1])
    ensures times[i..] == times[1..][i - 1..]
  {
    assert times[..i][1..] == times[1..][..i - 1];
  }

  /** The converse of the rate guarantee: a call is refused only if the tokens of
      some stretch of time that ends with it are spent. */
  lemma {:induction false} RefusedOnlyWhenSpent(b: Bucket, lim: Limits, times: seq<real>) returns (i: nat)
    requires ValidLimits(lim) && times != [] && NonDecreasing(times) && RefusesLast(b, lim, times)
    ensures SpentFrom(b, lim, times, i)
    decreases |times|
  {
    assert times[..0] == [] && times[0..] == times;
    var t, n := Take(b, lim, times[0]), |times|;
    if n == 1 {
      NoGainInNoTime(times[0], lim);
      assert Admitted(t.bucket, lim, times[1..]) == 0.0;
      i := 0;
    } else {
      var rest := times[1..];
      ShiftCalls(b, lim, times, n - 1);
      var j := RefusedOnlyWhenSpent(t.bucket, lim, rest);
      if j > 0 || LevelAt(t.bucket, lim, rest, 0) == lim.burst {
        ShiftCalls(b, lim, times, j + 1);
        i := j + 1;
      } else {
        assert rest[..0] == [] && rest[0..] == rest;
        LevelAfterTakeExact(b, lim, times[0], times[1]);
        GainSplit(times[0], times[1], times[n - 1], lim);
        AccountExact(Admitted(b, lim, times), if t.ok then 1.0 else 0.0, Admitted(t.bucket, lim, rest),
                     Level(b, lim, times[0]), Level(t.bucket, lim, times[1]),
                     Gain(times[0], times[1], lim), Gain(times[1], times[n - 1], lim));
        i := 0;
      }
    }
  }

  lemma FullAtFirst(b: Bucket, lim: Limits, times: seq<real>)
    requires ValidLimits(lim) && times != [] && b.tokens == lim.burst
    ensures LevelAt(b, lim, times, 0) == lim.burst
  {
    assert times[..0] == [];
    assert Elapsed(b.last, times[0]) * lim.rate >= 0.0;
  }

  /** From a full bucket. */
  lemma FullBucketRefusesOnlyWhenSpent(b: Bucket, lim: Limits, times: seq<real>)
    requires ValidLimits(lim) && times != [] && NonDecreasing(times) && RefusesLast(b, lim, times) && b.tokens == lim.burst
    ensures exists i: nat :: i < |times| && AdmittedSince(b, lim, times, i) + 1.0 > lim.burst + Gain(times[i], times[|times| - 1], lim)
  {
    var i := RefusedOnlyWhenSpent(b, lim, times);
    FullAtFirst(b, lim, times);
  }

  /** The budget on outbound licence checks: one bucket, read and refilled under
      its own lock, so its call times never decrease. */
  class ValidateBudget {
    const limits: Limits
    var state: Bucket

    constructor (rate: nat, burst: nat, now: real)
      ensures limits == BudgetLimits(rate, burst)
      ensures state == Bucket(limits.burst, now)
    {
      limits := BudgetLimits(rate, burst);
      state := Bucket(BudgetLimits(rate, burst).burst, now);
    }

    method TryTake(now: real) returns (ok: bool)
      modifies this
      ensures Taken(state, ok) == Take(old(state), limits, now)
    {
      var tokens := RefilledTo(state, limits, now);
      if !(tokens < limits.burst) {
        tokens := limits.burst;
      }
      if tokens >= 1.0 {
        state := Bucket(tokens - 1.0, now);
        return true;
      }
      state := Bucket(tokens, now);
      return false;
    }
  }

  /** A zero burst would block every check, so it is raised to one. */
  function BudgetLimits(rate: nat, burst: nat): (lim: Limits)
    ensures ValidLimits(lim) && lim.burst >= 1.0
    ensures lim.rate == rate as real && (burst >= 1 ==> lim.burst == burst as real) && (burst == 0 ==> lim.burst == 1.0)
  {
    Limits(rate as real, Max(burst, 1) as real)
  }

  // ----- the per-source limiter -----

  type Key = seq<bv8>

  /** IPv6 addresses (16 octets) are throttled per /64; IPv4 addresses whole. */
  function LimiterKey(ip: Key): (k: Key)
    ensures |k| == |ip|
    ensures forall i :: 0 <= i < |ip| ==> k[i] == if |ip| == 16 && i >= 8 then 0 else ip[i]
  {
    seq(|ip|, i requires 0 <= i < |ip| => if |ip| == 16 && i >= 8 then 0 else ip[i])
  }

  /** Two addresses share a key exactly when they are the same IPv4 address or
      lie in the same IPv6 /64. */
  lemma LimiterKeyCollapses(a: Key, b: Key)
    ensures LimiterKey(a) == LimiterKey(b) <==>
            if |a| == 16 && |b| == 16 then a[..8] == b[..8] else a == b
  {
    var x, y := LimiterKey(a), LimiterKey(b);
    if x == y {
      assert |a| == |b|;
      forall i | 0 <= i < |a| && (|a| != 16 || i < 8) ensures a[i] == b[i] {
        assert x[i] == y[i];
      }
    } else if |a| == 16 && |b| == 16 && a[..8] == b[..8] {
      forall i | 0 <= i < 16 ensures x[i] == y[i] {
        if i < 8 {
          assert a[..8][i] == b[..8][i];
        }
      }
      assert false;
    }
  }

  type Buckets = map<Key, Bucket>

  datatype Event = Check(key: Key, at: real) | Sweep(at: real)
  datatype Answered = Answered(buckets: Buckets, ok: bool)

  /** A bucket that would be full by `now`: dropping it forgets nothing. */
  predicate Idle(b: Bucket, lim: Limits, now: real) {
    RefilledTo(b, lim, now) >= lim.burst
  }

  function Swept(m: Buckets, lim: Limits, now: real): Buckets {
    map k | k in m && !Idle(m[k], lim, now) :: m[k]
  }

  function BucketOf(m: Buckets, lim: Limits, key: Key, now: real): Bucket {
    if key in m then m[key] else Bucket(lim.burst, now)
  }

  /** Admit or refuse one connection; at capacity, idle buckets go first. */
  function CheckAt(m: Buckets, lim: Limits, maxEntries: nat, key: Key, now: real): Answered {
    var m1 := if |m| >= maxEntries then Swept(m, lim, now) else m;
    var t := Take(BucketOf(m1, lim, key, now), lim, now);
    Answered(m1[key := t.bucket], t.ok)
  }

  function StepBuckets(m: Buckets, lim: Limits, maxEntries: nat, e: Event): Buckets {
    match e
    case Check(key, at) => CheckAt(m, lim, maxEntries, key, at).buckets
    case Sweep(at) => Swept(m, lim, at)
  }

  /** The limiter's answers to a run of events. */
  function Answers(m: Buckets, lim: Limits, maxEntries: nat, events: seq<Event>): seq<bool>
    decreases |events|
  {
    if events == [] then []
    else
      (if events[0].Check? then [CheckAt(m, lim, maxEntries, events[0].key, events[0].at).ok] else [])
      + Answers(StepBuckets(m, lim, maxEntries, events[0]), lim, maxEntries, events[1..])
  }

  /** The reference limiter: one bucket per key, never dropped. */
  function PlainCheck(m: Buckets, lim: Limits, key: Key, now: real): Answered {
    var t := Take(BucketOf(m, lim, key, now), lim, now);
    Answered(m[key := t.bucket], t.ok)
  }

  function PlainAnswers(m: Buckets, lim: Limits, events: seq<Event>): seq<bool>
    decreases |events|
  {
    if events == [] then []
    else if events[0].Sweep? then PlainAnswers(m, lim, events[1..])
    else
      var a := PlainCheck(m, lim, events[0].key, events[0].at);
      [a.ok] + PlainAnswers(a.buckets, lim, events[1..])
  }

  predicate InOrder(events: seq<Event>) {
    forall i, j :: 0 <= i < j < |events| ==> events[i].at <= events[j].at
  }

  /** `m` holds the buckets of `full` except some that are already full. */
  ghost predicate Forgets(m: Buckets, full: Buckets, lim: Limits, now: real) {
    && (forall k :: k in m ==> k in full && m[k] == full[k])
    && (forall k :: k in full && k !in m ==> Idle(full[k], lim, now))
  }

  lemma IdleStaysIdle(b: Bucket, lim: Limits, now: real, later: real)
    requires ValidLimits(lim) && now <= later && Idle(b, lim, now)
    ensures Idle(b, lim, later)
  {
    assert Elapsed(b.last, now) * lim.rate <= Elapsed(b.last, later) * lim.rate;
  }

  lemma ForgetsLater(m: Buckets, full: Buckets, lim: Limits, now: real, later: real)
    requires ValidLimits(lim) && now <= later && Forgets(m, full, lim, now)
    ensures Forgets(m, full, lim, later)
  {
    forall k | k in full && k !in m ensures Idle(full[k], lim, later) {
      IdleStaysIdle(full[k], lim, now, later);
    }
  }

  /** One check: same answer, and only full buckets stay forgotten. */
  lemma CheckForgets(m: Buckets, full: Buckets, lim: Limits, maxEntries: nat, key: Key, now: real)
    requires ValidLimits(lim) && Forgets(m, full, lim, now)
    ensures CheckAt(m, lim, maxEntries, key, now).ok == PlainCheck(full, lim, key, now).ok
    ensures Forgets(CheckAt(m, lim, maxEntries, key, now).buckets, PlainCheck(full, lim, key, now).buckets, lim, now)
  {
    var m1 := if |m| >= maxEntries then Swept(m, lim, now) else m;
    assert Forgets(m1, full, lim, now);
    assert Take(BucketOf(m1, lim, key, now), lim, now) == Take(BucketOf(full, lim, key, now), lim, now);
  }

  /** Sweeping and at-capacity eviction are unobservable: for calls in time
      order the limiter answers every check as one bucket per key would. */
  lemma {:induction false} SweepingIsUnobservable(m: Buckets, full: Buckets, lim: Limits, maxEntries: nat,
                                                  events: seq<Event>, now: real)
    requires ValidLimits(lim) && Forgets(m, full, lim, now)
    requires InOrder(events) && (events != [] ==> now <= events[0].at)
    ensures Answers(m, lim, maxEntries, events) == PlainAnswers(full, lim, events)
    decreases |events|
  {
    if events == [] {
    } else {
      var e := events[0];
      ForgetsLater(m, full, lim, now, e.at);
      match e
      case Check(key, at) =>
        CheckForgets(m, full, lim, maxEntries, key, at);
        SweepingIsUnobservable(CheckAt(m, lim, maxEntries, key, at).buckets,
                               PlainCheck(full, lim, key, at).buckets, lim, maxEntries, events[1..], at);
      case Sweep(at) =>
        SweepingIsUnobservable(Swept(m, lim, at), full, lim, maxEntries, events[1..], at);
    }
  }

  // ----- the window bound -----

  ghost predicate ValidBuckets(m: Buckets) {
    forall k :: k in m ==> m[k].tokens >= 0.0
  }

  /** One if this event admits a connection from `key`. */
  function Spent(m: Buckets, lim: Limits, maxEntries: nat, e: Event, key: Key): real {
    if e.Check? && e.key == key && CheckAt(m, lim, maxEntries, key, e.at).ok then 1.0 else 0.0
  }

  /** How many checks of `key` in a run are admitted, as a real. */
  function AdmittedOf(m: Buckets, lim: Limits, maxEntries: nat, events: seq<Event>, key: Key): real
    decreases |events|
  {
    if events == [] then 0.0
    else
      Spent(m, lim, maxEntries, events[0], key)
      + AdmittedOf(StepBuckets(m, lim, maxEntries, events[0]), lim, maxEntries, events[1..], key)
  }

  /** The tokens `key` could spend at `now`. */
  function LevelOf(m: Buckets, lim: Limits, key: Key, now: real): real {
    Level(BucketOf(m, lim, key, now), lim, now)
  }

  lemma SweepKeepsLevel(m: Buckets, lim: Limits, key: Key, at: real, next: real)
    requires ValidLimits(lim) && at <= next
    ensures LevelOf(Swept(m, lim, at), lim, key, next) == LevelOf(m, lim, key, next)
  {
    if key in m && Idle(m[key], lim, at) {
      IdleStaysIdle(m[key], lim, at, next);
    }
  }

  /** Taking a token from one bucket leaves every other key's level alone. */
  lemma OtherKeysKeepLevel(m: Buckets, lim: Limits, key: Key, other: Key, b: Bucket, next: real)
    requires key != other
    ensures LevelOf(m[other := b], lim, key, next) == LevelOf(m, lim, key, next)
  {
  }

  lemma StepKeepsBucketsValid(m: Buckets, lim: Limits, maxEntries: nat, e: Event)
    requires ValidLimits(lim) && ValidBuckets(m)
    ensures ValidBuckets(StepBuckets(m, lim, maxEntries, e))
  {
  }

  /** A check by `key` itself: the level drops by what was spent. */
  lemma OwnCheckLevel(m1: Buckets, lim: Limits, key: Key, now: real, next: real)
    requires ValidLimits(lim) && now <= next
    ensures var t := Take(BucketOf(m1, lim, key, now), lim, now);
            LevelOf(m1[key := t.bucket], lim, key, next)
            <= LevelOf(m1, lim, key, now) - (if t.ok then 1.0 else 0.0) + Gain(now, next, lim)
  {
    LevelAfterTake(BucketOf(m1, lim, key, now), lim, now, next);
  }

  lemma StepLevel(m: Buckets, lim: Limits, maxEntries: nat, e: Event, key: Key, next: real)
    requires ValidLimits(lim) && e.at <= next
    ensures LevelOf(StepBuckets(m, lim, maxEntries, e), lim, key, next)
         <= LevelOf(m, lim, key, e.at) - Spent(m, lim, maxEntries, e, key) + Gain(e.at, next, lim)
  {
    var m1 := if e.Sweep? || |m| >= maxEntries then Swept(m, lim, e.at) else m;
    assert LevelOf(m1, lim, key, e.at) == LevelOf(m, lim, key, e.at) by {
      SweepKeepsLevel(m, lim, key, e.at, e.at);
    }
    assert LevelOf(m1, lim, key, next) <= LevelOf(m1, lim, key, e.at) + Gain(e.at, next, lim) by {
      LevelGrowth(m1, lim, key, e.at, next);
    }
    if e.Check? {
      var t := Take(BucketOf(m1, lim, e.key, e.at), lim, e.at);
      if e.key == key {
        OwnCheckLevel(m1, lim, key, e.at, next);
      } else {
        OtherKeysKeepLevel(m1, lim, key, e.key, t.bucket, next);
      }
    }
  }

  lemma SpentWithinLevel(m: Buckets, lim: Limits, maxEntries: nat, e: Event, key: Key)
    requires ValidLimits(lim) && ValidBuckets(m)
    ensures Spent(m, lim, maxEntries, e, key) <= LevelOf(m, lim, key, e.at)
  {
    LevelIsNonNegative(BucketOf(m, lim, key, e.at), lim, e.at);
    if e.Check? && e.key == key {
      SweepKeepsLevel(m, lim, key, e.at, e.at);
    }
  }

  lemma LevelGrowth(m: Buckets, lim: Limits, key: Key, now: real, next: real)
    requires ValidLimits(lim) && now <= next
    ensures LevelOf(m, lim, key, next) <= LevelOf(m, lim, key, now) + Gain(now, next, lim)
  {
    if key in m {
      var b := m[key];
      assert Elapsed(b.last, next) <= Elapsed(b.last, now) + (next - now);
      assert Elapsed(b.last, next) * lim.rate <= (Elapsed(b.last, now) + (next - now)) * lim.rate;
    }
  }

  /** In any window of a run, whatever came before and whoever else connects, one
      source is admitted at most burst + rate * (length of the window) times. */
  lemma {:induction false} WindowBound(m: Buckets, lim: Limits, maxEntries: nat, events: seq<Event>, key: Key)
    requires ValidLimits(lim) && ValidBuckets(m) && events != [] && InOrder(events)
    ensures AdmittedOf(m, lim, maxEntries, events, key)
         <= LevelOf(m, lim, key, events[0].at) + Gain(events[0].at, events[|events| - 1].at, lim)
    ensures AdmittedOf(m, lim, maxEntries, events, key)
         <= lim.burst + Gain(events[0].at, events[|events| - 1].at, lim)
    decreases |events|
  {
    var e := events[0];
    var m' := StepBuckets(m, lim, maxEntries, e);
    StepKeepsBucketsValid(m, lim, maxEntries, e);
    if |events| == 1 {
      SpentWithinLevel(m, lim, maxEntries, e, key);
      assert AdmittedOf(m', lim, maxEntries, events[1..], key) == 0.0;
      NoGainInNoTime(e.at, lim);
    } else {
      var rest := events[1..];
      StepLevel(m, lim, maxEntries, e, key, events[1].at);
      WindowBound(m', lim, maxEntries, rest, key);
      assert rest[0] == events[1] && rest[|rest| - 1] == events[|events| - 1];
      GainSplit(e.at, events[1].at, events[|events| - 1].at, lim);
      Account(AdmittedOf(m, lim, maxEntries, events, key), Spent(m, lim, maxEntries, e, key),
              AdmittedOf(m', lim, maxEntries, rest, key),
              LevelOf(m, lim, key, e.at), LevelOf(m', lim, key, events[1].at),
              Gain(e.at, events[1].at, lim), Gain(events[1].at, events[|events| - 1].at, lim));
    }
  }

  function AfterEvents(m: Buckets, lim: Limits, maxEntries: nat, events: seq<Event>): Buckets
    decreases |events|
  {
    if events == [] then m else AfterEvents(StepBuckets(m, lim, maxEntries, events[0]), lim, maxEntries, events[1..])
  }

  lemma {:induction false} BucketsStayValid(m: Buckets, lim: Limits, maxEntries: nat, events: seq<Event>)
    requires ValidLimits(lim) && ValidBuckets(m)
    ensures ValidBuckets(AfterEvents(m, lim, maxEntries, events))
    decreases |events|
  {
    if events == [] {
    } else {
      StepKeepsBucketsValid(m, lim, maxEntries, events[0]);
      BucketsStayValid(StepBuckets(m, lim, maxEntries, events[0]), lim, maxEntries, events[1..]);
    }
  }

  /** The limiter's promise, from start-up: after any run at all, the checks of
      any one source in the next stretch of time are bounded. */
  lemma WindowBoundFromStart(lim: Limits, maxEntries: nat, before: seq<Event>, window: seq<Event>, key: Key)
    requires ValidLimits(lim) && window != [] && InOrder(window)
    ensures AdmittedOf(AfterEvents(map[], lim, maxEntries, before), lim, maxEntries, window, key)
         <= lim.burst + Gain(window[0].at, window[|window| - 1].at, lim)
  {
    BucketsStayValid(map[], lim, maxEntries, before);
    WindowBound(AfterEvents(map[], lim, maxEntries, before), lim, maxEntries, window, key);
  }

  /** From start-up the swept limiter and the reference limiter agree. */
  lemma SweepingIsUnobservableFromStart(lim: Limits, maxEntries: nat, events: seq<Event>)
    requires ValidLimits(lim) && InOrder(events)
    ensures Answers(map[], lim, maxEntries, events) == PlainAnswers(map[], lim, events)
  {
    if events != [] {
      SweepingIsUnobservable(map[], map[], lim, maxEntries, events, events[0].at);
    }
  }

  // ----- each source has one bucket -----

  /** When `key` was checked. */
  function TimesOf(events: seq<Event>, key: Key): seq<real> {
    if events == [] then []
    else (if events[0].Check? && events[0].key == key then [events[0].at] else []) + TimesOf(events[1..], key)
  }

  /** `b` is the bucket of `key`: stored, or dropped because it was full. */
  ghost predicate HasBucket(m: Buckets, lim: Limits, key: Key, b: Bucket, now: real) {
    if key in m then m[key] == b else Idle(b, lim, now)
  }

  lemma SweepKeepsBucket(m: Buckets, lim: Limits, key: Key, b: Bucket, now: real)
    requires HasBucket(m, lim, key, b, now)
    ensures HasBucket(Swept(m, lim, now), lim, key, b, now)
  {
  }

  lemma StepKeepsBucket(m: Buckets, lim: Limits, maxEntries: nat, e: Event, key: Key, b: Bucket)
    requires HasBucket(m, lim, key, b, e.at)
    ensures var t := Take(b, lim, e.at);
            var own := e.Check? && e.key == key;
            && HasBucket(StepBuckets(m, lim, maxEntries, e), lim, key, if own then t.bucket else b, e.at)
            && (own ==> CheckAt(m, lim, maxEntries, key, e.at).ok == t.ok)
  {
    SweepKeepsBucket(m, lim, key, b, e.at);
  }

  lemma HasBucketLater(m: Buckets, lim: Limits, key: Key, b: Bucket, now: real, later: real)
    requires ValidLimits(lim) && now <= later && HasBucket(m, lim, key, b, now)
    ensures HasBucket(m, lim, key, b, later)
  {
    if key !in m {
      IdleStaysIdle(b, lim, now, later);
    }
  }

  /** For calls in time order the limiter treats each source as one bucket would,
      whatever other sources do and whenever buckets are dropped. */
  lemma {:induction false} SourceIsOneBucket(m: Buckets, lim: Limits, maxEntries: nat, events: seq<Event>, key: Key, b: Bucket, now: real)
    requires ValidLimits(lim) && InOrder(events) && HasBucket(m, lim, key, b, now)
    requires events != [] ==> now <= events[0].at
    ensures AdmittedOf(m, lim, maxEntries, events, key) == Admitted(b, lim, TimesOf(events, key))
    ensures HasBucket(AfterEvents(m, lim, maxEntries, events), lim, key, BucketAfter(b, lim, TimesOf(events, key)),
                      if events == [] then now else events[|events| - 1].at)
    decreases |events|
  {
    if events == [] {
    } else {
      var e := events[0];
      HasBucketLater(m, lim, key, b, now, e.at);
      StepKeepsBucket(m, lim, maxEntries, e, key, b);
      if e.Check? && e.key == key {
        assert TimesOf(events, key)[1..] == TimesOf(events[1..], key);
        SourceIsOneBucket(StepBuckets(m, lim, maxEntries, e), lim, maxEntries, events[1..], key, Take(b, lim, e.at).bucket, e.at);
      } else {
        assert TimesOf(events, key) == TimesOf(events[1..], key);
        SourceIsOneBucket(StepBuckets(m, lim, maxEntries, e), lim, maxEntries, events[1..], key, b, e.at);
      }
    }
  }

  lemma {:induction false} TimesAreOrdered(events: seq<Event>, key: Key, lo: real, hi: real)
    requires InOrder(events) && forall i :: 0 <= i < |events| ==> lo <= events[i].at <= hi
    ensures NonDecreasing(TimesOf(events, key))
    ensures forall i :: 0 <= i < |TimesOf(events, key)| ==> lo <= TimesOf(events, key)[i] <= hi
  {
    if events == [] {
    } else {
      TimesAreOrdered(events[1..], key, events[0].at, hi);
    }
  }

  lemma FullIsIdle(lim: Limits, last: real, now: real)
    requires ValidLimits(lim)
    ensures Idle(Bucket(lim.burst, last), lim, now)
  {
    assert Elapsed(last, now) * lim.rate >= 0.0;
  }

  /** The source's own calls decide: its checks behave as those of a bucket that
      was full at the first of them. */
  lemma SourceHasFullBucket(lim: Limits, maxEntries: nat, events: seq<Event>, key: Key, last: real, now: real)
    requires ValidLimits(lim) && InOrder(events) && (events != [] ==> events[|events| - 1].at <= now)
    ensures var full, earlier := Bucket(lim.burst, last), TimesOf(events, key);
            && AdmittedOf(map[], lim, maxEntries, events, key) == Admitted(full, lim, earlier)
            && CheckAt(AfterEvents(map[], lim, maxEntries, events), lim, maxEntries, key, now).ok
               == Take(BucketAfter(full, lim, earlier), lim, now).ok
  {
    var full, start := Bucket(lim.burst, last), if events == [] then now else events[0].at;
    FullIsIdle(lim, last, start);
    SourceIsOneBucket(map[], lim, maxEntries, events, key, full, start);
    var m, b := AfterEvents(map[], lim, maxEntries, events), BucketAfter(full, lim, TimesOf(events, key));
    HasBucketLater(m, lim, key, b, if events == [] then start else events[|events| - 1].at, now);
    StepKeepsBucket(m, lim, maxEntries, Check(key, now), key, b);
  }

  /** No source is throttled below its allowance. After any run from start-up, in
      time order: if a check is refused, then in some stretch of the source's
      calls that ends with it, more than burst + rate * (its length) - 1 were
      admitted. */
  lemma RefusedSourceIsSpent(lim: Limits, maxEntries: nat, events: seq<Event>, key: Key, now: real)
    requires ValidLimits(lim) && InOrder(events) && (events != [] ==> events[|events| - 1].at <= now)
    requires !CheckAt(AfterEvents(map[], lim, maxEntries, events), lim, maxEntries, key, now).ok
    ensures var times := TimesOf(events, key) + [now];
            var full := Bucket(lim.burst, times[0]);
            && AdmittedOf(map[], lim, maxEntries, events, key) == Admitted(full, lim, TimesOf(events, key))
            && exists i: nat :: i < |times| && AdmittedSince(full, lim, times, i) + 1.0 > lim.burst + Gain(times[i], now, lim)
  {
    var times := TimesOf(events, key) + [now];
    var full := Bucket(lim.burst, times[0]);
    SourceHasFullBucket(lim, maxEntries, events, key, times[0], now);
    TimesAreOrdered(events, key, if events == [] then now else events[0].at, now);
    assert times[..|times| - 1] == TimesOf(events, key);
    FullBucketRefusesOnlyWhenSpent(full, lim, times);
  }

  /** The limiter itself: buckets updated in place behind a lock. */
  class RateLimiter {
    const limits: Limits
    const maxEntries: nat := 65_536
    var buckets: Buckets

    constructor (ratePerSec: nat, burst: nat)
      ensures limits == Limits(ratePerSec as real, burst as real) && ValidLimits(limits)
      ensures buckets == map[]
    {
      limits := Limits(ratePerSec as real, burst as real);
      buckets := map[];
    }

    method CheckIp(ip: Key, now: real) returns (ok: bool)
      modifies this
      ensures Answered(buckets, ok) == CheckAt(old(buckets), limits, maxEntries, LimiterKey(ip), now)
    {
      var key := LimiterKey(ip);
      if |buckets| >= maxEntries {
        SweepIdle(now);
      }
      var bucket := if key in buckets then buckets[key] else Bucket(limits.burst, now);
      var tokens := RefilledTo(bucket, limits, now);
      if !(tokens < limits.burst) {
        tokens := limits.burst;
      }
      ok := tokens >= 1.0;
      buckets := buckets[key := Bucket(if ok then tokens - 1.0 else tokens, now)];
    }

    /** Retain the buckets that are not yet full. No source can tell: from `now`
        on, each has the tokens it would have had. */
    method SweepIdle(now: real)
      modifies this
      ensures buckets == Swept(old(buckets), limits, now)
      ensures forall k :: k in buckets ==> RefilledTo(buckets[k], limits, now) < limits.burst
      ensures ValidLimits(limits) ==>
                forall key, next :: now <= next ==> LevelOf(buckets, limits, key, next) == LevelOf(old(buckets), limits, key, next)
    {
      var left := buckets.Keys;
      while left != {}
        invariant left <= buckets.Keys
        invariant forall k :: k in old(buckets) ==> (k in buckets <==> k in left || !Idle(old(buckets)[k], limits, now))
        invariant forall k :: k in buckets ==> k in old(buckets) && buckets[k] == old(buckets)[k]
        decreases |left|
      {
        var k :| k in left;
        left := left - {k};
        if !(RefilledTo(buckets[k], limits, now) < limits.burst) {
          buckets := buckets - {k};
        }
      }
      forall key, next | ValidLimits(limits) && now <= next
        ensures LevelOf(Swept(old(buckets), limits, now), limits, key, next) == LevelOf(old(buckets), limits, key, next)
      {
        SweepKeepsLevel(old(buckets), limits, key, now, next);
      }
    }
  }
}
