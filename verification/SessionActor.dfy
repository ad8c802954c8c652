/** The session actor: one loop that owns the multiplexed connection, accepts the
    single control stream and opens outbound streams for queued commands, one at
    a time. What the outside world does between polls is an arbitrary input. */
module SessionActor {
  import opened Prelude
  import opened Routing
  import T = Router

  datatype Inbound = NewStream | ConnectionError | ConnectionClosed
  datatype OpenResult = Opened(stream: nat) | OpenFailed

  /** What one turn of the loop finds: commands that arrived, commands whose
      caller has given up, cancellation, the control deadline, and what the
      connection has ready. */
  datatype World = World(
    arrivals: seq<nat>,
    givenUp: set<nat>,
    cancelled: bool,
    deadline: bool,
    outbound: Option<OpenResult>,
    inbound: Option<Inbound>)

  /** What became of a command: its stream was opened and handed to it, opening
      failed and it was told so, or its caller had already left. */
  datatype Outcome = Served(id: nat, stream: nat) | Refused(id: nat) | Abandoned(id: nat)

  datatype Actor = Actor(
    controlStarted: bool,
    pendingOpen: Option<nat>,
    queue: seq<nat>,
    stopped: bool,
    controlStreams: nat,
    finished: seq<Outcome>,
    orphanStreams: nat)

  const FRESH_ACTOR := Actor(false, None, [], false, 0, [], 0)

  datatype Event = InboundEvent(inbound: Inbound) | CommandEvent(id: nat) | OpenedEvent(result: OpenResult)

  /** Drop a pending open whose caller already gave up. */
  function DropAbandoned(a: Actor, w: World): Actor {
    if a.pendingOpen.Some? && a.pendingOpen.value in w.givenUp
    then a.(pendingOpen := None, finished := a.finished + [Abandoned(a.pendingOpen.value)])
    else a
  }

  /** The poll order: finish a pending open, then drive inbound, then accept a
      new command if none is pending. */
  function Poll(a: Actor, w: World): Option<Event> {
    if a.pendingOpen.Some? && w.outbound.Some? then Some(OpenedEvent(w.outbound.value))
    else if w.inbound.Some? then Some(InboundEvent(w.inbound.value))
    else if a.pendingOpen.None? && a.queue != [] then Some(CommandEvent(a.queue[0]))
    else None
  }

  function Handle(a: Actor, e: Event): Actor {
    match e
    case InboundEvent(NewStream) =>
      if !a.controlStarted then a.(controlStarted := true, controlStreams := a.controlStreams + 1)
      else a.(stopped := true)
    case InboundEvent(_) => a.(stopped := true)
    case CommandEvent(id) => a.(pendingOpen := Some(id), queue := if a.queue == [] then [] else a.queue[1..])
    case OpenedEvent(result) =>
      if a.pendingOpen.None? then a.(orphanStreams := a.orphanStreams + 1)
      else
        var id := a.pendingOpen.value;
        a.(pendingOpen := None,
           finished := a.finished + [if result.Opened? then Served(id, result.stream) else Refused(id)])
  }

  function Turn(a: Actor, w: World): Actor {
    if a.stopped then a
    else
      var a1 := DropAbandoned(a.(queue := a.queue + w.arrivals), w);
      if w.cancelled || (w.deadline && !a1.controlStarted) then a1.(stopped := true)
      else
        var e := Poll(a1, w);
        if e.None? then a1 else Handle(a1, e.value)
  }

  function Turns(a: Actor, ws: seq<World>): Actor
    decreases |ws|
  {
    if ws == [] then a else Turns(Turn(a, ws[0]), ws[1..])
  }

  /** The commands that reached the actor before it stopped, in order. */
  function Arrived(a: Actor, ws: seq<World>): seq<nat>
    decreases |ws|
  {
    if ws == [] || a.stopped then [] else ws[0].arrivals + Arrived(Turn(a, ws[0]), ws[1..])
  }

  function Ids(outcomes: seq<Outcome>): (ids: seq<nat>)
    ensures |ids| == |outcomes|
    ensures forall i :: 0 <= i < |outcomes| ==> ids[i] == outcomes[i].id
  {
    seq(|outcomes|, i requires 0 <= i < |outcomes| => outcomes[i].id)
  }

  /** Everything accepted so far: finished, pending, then queued. */
  function Accounted(a: Actor): seq<nat> {
    Ids(a.finished) + (if a.pendingOpen.Some? then [a.pendingOpen.value] else []) + a.queue
  }

  lemma IdsAppend(outcomes: seq<Outcome>, o: Outcome)
    ensures Ids(outcomes + [o]) == Ids(outcomes) + [o.id]
  {
  }

  ghost predicate ActorInvariant(a: Actor) {
    && a.controlStreams == (if a.controlStarted then 1 else 0)
    && a.orphanStreams == 0
  }

  /** One turn loses, repeats and reorders no command, and opens nothing that is
      not asked for. */
  lemma TurnAccounts(a: Actor, w: World)
    requires ActorInvariant(a)
    ensures ActorInvariant(Turn(a, w))
    ensures !a.stopped ==> Accounted(Turn(a, w)) == Accounted(a) + w.arrivals
  {
    if !a.stopped {
      var a0 := a.(queue := a.queue + w.arrivals);
      assert Accounted(a0) == Accounted(a) + w.arrivals;
      var a1 := DropAbandoned(a0, w);
      if a0.pendingOpen.Some? {
        IdsAppend(a0.finished, Abandoned(a0.pendingOpen.value));
      }
      assert Accounted(a1) == Accounted(a0);
      if !(w.cancelled || (w.deadline && !a1.controlStarted)) && Poll(a1, w).Some? {
        HandleAccounts(a1, w);
      }
    }
  }

  lemma HandleAccounts(a: Actor, w: World)
    requires ActorInvariant(a) && Poll(a, w).Some?
    ensures ActorInvariant(Handle(a, Poll(a, w).value))
    ensures Accounted(Handle(a, Poll(a, w).value)) == Accounted(a)
  {
  }

  /** An opened stream always finds a pending command: the fallback that would
      drop it is unreachable, on every turn from every state. */
  lemma OpenedOnlyWhilePending(a: Actor, w: World)
    ensures Poll(a, w).Some? && Poll(a, w).value.OpenedEvent? ==> a.pendingOpen.Some?
    ensures a.pendingOpen.Some? ==> !(Poll(a, w).Some? && Poll(a, w).value.CommandEvent?)
  {
  }

  lemma {:induction false} TurnsAccount(a: Actor, ws: seq<World>)
    requires ActorInvariant(a)
    ensures ActorInvariant(Turns(a, ws))
    ensures Accounted(Turns(a, ws)) == Accounted(a) + Arrived(a, ws)
    decreases |ws|
  {
    if ws == [] {
    } else {
      TurnAccounts(a, ws[0]);
      TurnsAccount(Turn(a, ws[0]), ws[1..]);
      if a.stopped {
        StoppedForGood(a, ws[1..]);
      } else {
        assert Accounted(a) + ws[0].arrivals + Arrived(Turn(a, ws[0]), ws[1..])
            == Accounted(a) + (ws[0].arrivals + Arrived(Turn(a, ws[0]), ws[1..]));
      }
    }
  }

  lemma {:induction false} StoppedForGood(a: Actor, ws: seq<World>)
    requires a.stopped
    ensures Turns(a, ws) == a && Arrived(a, ws) == []
    decreases |ws|
  {
    if ws == [] {
    } else {
      StoppedForGood(a, ws[1..]);
    }
  }

  /** The actor over every run: at most one control stream, no opened stream
      without its command, and the commands dealt with are exactly a prefix of
      the commands in arrival order, followed by the one pending and the queue. */
  lemma CommandsAreServedInOrder(ws: seq<World>)
    ensures var a := Turns(FRESH_ACTOR, ws);
            && a.controlStreams <= 1
            && a.orphanStreams == 0
            && Ids(a.finished) <= Arrived(FRESH_ACTOR, ws)
            && Accounted(a) == Arrived(FRESH_ACTOR, ws)
  {
    TurnsAccount(FRESH_ACTOR, ws);
    assert Accounted(FRESH_ACTOR) == [];
    var a := Turns(FRESH_ACTOR, ws);
    assert Accounted(a)[..|a.finished|] == Ids(a.finished);
  }

  /** Distinct commands get at most one outcome each, hence at most one reply. */
  lemma AtMostOneReplyEach(ws: seq<World>)
    requires NoDuplicates(Arrived(FRESH_ACTOR, ws))
    ensures NoDuplicates(Ids(Turns(FRESH_ACTOR, ws).finished))
    ensures forall i, j :: 0 <= i < j < |Turns(FRESH_ACTOR, ws).finished| ==>
              Turns(FRESH_ACTOR, ws).finished[i].id != Turns(FRESH_ACTOR, ws).finished[j].id
  {
    CommandsAreServedInOrder(ws);
    var a := Turns(FRESH_ACTOR, ws);
    forall i, j | 0 <= i < j < |a.finished| ensures a.finished[i].id != a.finished[j].id {
      assert Ids(a.finished)[i] == Arrived(FRESH_ACTOR, ws)[i];
      assert Ids(a.finished)[j] == Arrived(FRESH_ACTOR, ws)[j];
    }
  }

  /** An actor still running was never cancelled, and had its control stream
      whenever the deadline passed. */
  lemma {:induction false} RunningMetItsDeadlines(a: Actor, ws: seq<World>, i: nat)
    requires !Turns(a, ws).stopped && i < |ws|
    ensures !ws[i].cancelled
    ensures ws[i].deadline ==> Turns(a, ws[..i]).controlStarted
    decreases i
  {
    if a.stopped {
      StoppedForGood(a, ws);
    }
    if i == 0 {
      assert ws[..0] == [];
      if Turn(a, ws[0]).stopped {
        StoppedForGood(Turn(a, ws[0]), ws[1..]);
      }
    } else {
      RunningMetItsDeadlines(Turn(a, ws[0]), ws[1..], i - 1);
      assert ws[..i][1..] == ws[1..][..i - 1];
    }
  }

  // ----- progress -----

  /** A turn the actor gets to poll in: it is running and nothing stops it. */
  predicate Polls(a: Actor, w: World) {
    !a.stopped && !w.cancelled && (w.deadline ==> a.controlStarted)
  }

  /** A pending command is dealt with on the first turn that finds the connection
      ready, whatever else is ready on that turn: its caller gets the stream or
      is told of the failure, unless it gave up. */
  lemma PendingIsServedWhenReady(a: Actor, w: World)
    requires Polls(a, w) && a.pendingOpen.Some? && w.outbound.Some?
    ensures var a', id := Turn(a, w), a.pendingOpen.value;
            a'.finished == a.finished + [if id in w.givenUp then Abandoned(id)
                                         else if w.outbound.value.Opened? then Served(id, w.outbound.value.stream)
                                         else Refused(id)]
  {
  }

  /** With nothing pending and nothing inbound, the head of the queue is accepted,
      and everything behind it stays in order. */
  lemma HeadIsAccepted(a: Actor, w: World)
    requires Polls(a, w) && a.pendingOpen.None? && w.inbound.None? && a.queue + w.arrivals != []
    ensures var a' := Turn(a, w);
            && a'.pendingOpen.Some? && [a'.pendingOpen.value] + a'.queue == a.queue + w.arrivals
            && a'.finished == a.finished && !a'.stopped
  {
  }

  /** A turn that can move the command in hand forward: the connection is ready
      for the pending one, or nothing inbound keeps the next from being accepted. */
  predicate Productive(a: Actor, w: World) {
    && Polls(a, w)
    && (if a.pendingOpen.Some? then w.outbound.Some? || a.pendingOpen.value in w.givenUp else w.inbound.None?)
  }

  function ProductiveTurns(a: Actor, ws: seq<World>): nat
    decreases |ws|
  {
    if ws == [] then 0 else (if Productive(a, ws[0]) then 1 else 0) + ProductiveTurns(Turn(a, ws[0]), ws[1..])
  }

  /** How far the commands have come: two steps each, accepted and dealt with. */
  function Progress(a: Actor): nat {
    2 * |a.finished| + if a.pendingOpen.Some? then 1 else 0
  }

  /** No turn undoes progress, and a productive one makes some unless all `n`
      commands are dealt with. */
  lemma TurnProgresses(a: Actor, w: World, n: nat)
    requires ActorInvariant(a) && n <= |Accounted(a)|
    ensures Progress(Turn(a, w)) >= Progress(a)
    ensures Productive(a, w) ==> Progress(Turn(a, w)) >= Min(Progress(a) + 1, 2 * n)
    ensures n <= |Accounted(Turn(a, w))|
  {
    TurnAccounts(a, w);
  }

  lemma {:induction false} TurnsProgress(a: Actor, ws: seq<World>, n: nat)
    requires ActorInvariant(a) && n <= |Accounted(a)|
    ensures Progress(Turns(a, ws)) >= Min(Progress(a) + ProductiveTurns(a, ws), 2 * n)
    decreases |ws|
  {
    if ws == [] {
    } else {
      TurnAccounts(a, ws[0]);
      TurnProgresses(a, ws[0], n);
      TurnsProgress(Turn(a, ws[0]), ws[1..], n);
    }
  }

  /** No command waits for ever: whatever else happens, once the turns that can
      move a command forward number twice the commands ahead of and including the
      n-th, the first n have been dealt with, in order. */
  lemma QueueIsServed(a: Actor, ws: seq<World>, n: nat)
    requires ActorInvariant(a) && n <= |Accounted(a)|
    requires Progress(a) + ProductiveTurns(a, ws) >= 2 * n
    ensures var a' := Turns(a, ws);
            n <= |a'.finished| && Ids(a'.finished)[..n] == Accounted(a)[..n]
  {
    TurnsProgress(a, ws, n);
    TurnsAccount(a, ws);
    var a' := Turns(a, ws);
    assert Ids(a'.finished)[..n] == Accounted(a')[..n];
  }

  /** Rounds of two turns: one with nothing inbound, on which a command is
      accepted, and one on which the connection is ready. Nobody gives up, and
      nothing stops the actor. */
  predicate Rounds(a: Actor, ws: seq<World>, n: nat) {
    && |ws| == 2 * n
    && (forall k :: 0 <= k < |ws| ==> ws[k].givenUp == {} && !ws[k].cancelled && (ws[k].deadline ==> a.controlStarted))
    && (forall k :: 0 <= k < n ==> ws[2 * k].inbound.None? && ws[2 * k + 1].outbound.Some?)
  }

  function Dealt(id: nat, result: OpenResult): Outcome {
    if result.Opened? then Served(id, result.stream) else Refused(id)
  }

  /** One round deals with the head of the queue. */
  lemma OneRound(a: Actor, accept: World, ready: World)
    requires Polls(a, accept) && Polls(a, ready) && accept.givenUp == ready.givenUp == {}
    requires a.pendingOpen.None? && a.queue != [] && accept.inbound.None? && ready.outbound.Some?
    ensures var a' := Turn(Turn(a, accept), ready);
            && a'.finished == a.finished + [Dealt(a.queue[0], ready.outbound.value)]
            && a'.queue == a.queue[1..] + accept.arrivals + ready.arrivals
            && a'.pendingOpen.None? && a'.controlStarted == a.controlStarted && !a'.stopped
  {
    HeadIsAccepted(a, accept);
    var a1 := Turn(a, accept);
    assert (a.queue + accept.arrivals)[1..] == a.queue[1..] + accept.arrivals;
    PendingIsServedWhenReady(a1, ready);
  }

  lemma RoundsLater(a: Actor, a2: Actor, ws: seq<World>, n: nat)
    requires n > 0 && Rounds(a, ws, n) && a2.controlStarted == a.controlStarted
    ensures Rounds(a2, ws[2..], n - 1)
  {
    var rest := ws[2..];
    forall k | 0 <= k < |rest|
      ensures rest[k].givenUp == {} && !rest[k].cancelled && (rest[k].deadline ==> a2.controlStarted)
    {
      assert rest[k] == ws[k + 2];
    }
    forall k | 0 <= k < n - 1 ensures rest[2 * k].inbound.None? && rest[2 * k + 1].outbound.Some? {
      assert rest[2 * k] == ws[2 * (k + 1)] && rest[2 * k + 1] == ws[2 * (k + 1) + 1];
    }
  }

  /** What becomes of the given commands in as many rounds: each is dealt with by
      what the connection offered in its round. */
  function RoundResults(ids: seq<nat>, ws: seq<World>): seq<Outcome>
    requires |ws| == 2 * |ids|
  {
    if ids == [] then []
    else [Dealt(ids[0], if ws[1].outbound.Some? then ws[1].outbound.value else OpenFailed)] + RoundResults(ids[1..], ws[2..])
  }

  lemma FirstRound(a: Actor, ws: seq<World>, n: nat) returns (a2: Actor)
    requires !a.stopped && a.pendingOpen.None? && 0 < n <= |a.queue| && Rounds(a, ws, n)
    ensures Turns(a, ws) == Turns(a2, ws[2..]) && Rounds(a2, ws[2..], n - 1)
    ensures !a2.stopped && a2.pendingOpen.None? && n - 1 <= |a2.queue| && a2.queue[..n - 1] == a.queue[..n][1..]
    ensures ws[1].outbound.Some? && a2.finished == a.finished + [Dealt(a.queue[..n][0], ws[1].outbound.value)]
  {
    assert ws[2 * 0].inbound.None? && ws[2 * 0 + 1].outbound.Some?;
    a2 := Turn(Turn(a, ws[0]), ws[1]);
    OneRound(a, ws[0], ws[1]);
    RoundsLater(a, a2, ws, n);
    assert ws[1..][1..] == ws[2..];
  }

  /** A queue of n commands is dealt with in n rounds, in order. */
  lemma {:induction false} RoundsServeQueue(a: Actor, ws: seq<World>, n: nat)
    requires !a.stopped && a.pendingOpen.None? && n <= |a.queue| && Rounds(a, ws, n)
    ensures var a' := Turns(a, ws);
            && a'.finished == a.finished + RoundResults(a.queue[..n], ws)
            && !a'.stopped && a'.pendingOpen.None?
    decreases n
  {
    if n == 0 {
    } else {
      var a2 := FirstRound(a, ws, n);
      RoundsServeQueue(a2, ws[2..], n - 1);
    }
  }

  // ----- stopping -----

  /** The inbound side is reached on this turn: no pending open is ready first. */
  predicate HearsInbound(a: Actor, w: World) {
    w.inbound.Some? && (w.outbound.None? || a.pendingOpen.None? || a.pendingOpen.value in w.givenUp)
  }

  /** Cancelled, out of time for the control stream, or told by the connection: an
      error, its end, or a second stream. */
  predicate HasCauseToStop(a: Actor, w: World) {
    || w.cancelled
    || (w.deadline && !a.controlStarted)
    || (HearsInbound(a, w) && (w.inbound.value != NewStream || a.controlStarted))
  }

  /** The actor stops if and only if some turn gives it cause. */
  lemma {:induction false} StopsIffCause(a: Actor, ws: seq<World>)
    requires !a.stopped
    ensures Turns(a, ws).stopped <==> exists i :: 0 <= i < |ws| && HasCauseToStop(Turns(a, ws[..i]), ws[i])
    decreases |ws|
  {
    if ws == [] {
    } else {
      assert ws[..0] == [];
      var a' := Turn(a, ws[0]);
      if a'.stopped {
        assert HasCauseToStop(Turns(a, ws[..0]), ws[0]);
        StoppedForGood(a', ws[1..]);
      } else {
        StopsIffCause(a', ws[1..]);
        forall i | 0 < i < |ws| ensures Turns(a, ws[..i]) == Turns(a', ws[1..][..i - 1]) {
          assert ws[..i][1..] == ws[1..][..i - 1];
        }
        if Turns(a', ws[1..]).stopped {
          var i :| 0 <= i < |ws[1..]| && HasCauseToStop(Turns(a', ws[1..][..i]), ws[1..][i]);
          assert ws[1..][i] == ws[i + 1] && HasCauseToStop(Turns(a, ws[..i + 1]), ws[i + 1]);
        } else {
          assert forall i :: 0 < i < |ws| ==> ws[i] == ws[1..][i - 1];
        }
      }
    }
  }

  /** The first stream the daemon opens becomes the control stream. */
  lemma FirstStreamIsControl(a: Actor, w: World)
    requires Polls(a, w) && HearsInbound(a, w) && w.inbound == Some(NewStream)
    ensures Turn(a, w).controlStarted && (Turn(a, w).stopped <==> a.controlStarted)
  {
  }

  /** The loop itself. When it breaks, the session's routes are torn down. */
  method RunSession(router: T.Router, session: nat, ws: seq<World>) returns (a: Actor)
    requires router.Valid()
    modifies router
    ensures a == Turns(FRESH_ACTOR, ws)
    ensures router.Valid()
    ensures router.Table() == if a.stopped then WithoutSession(old(router.Table()), session) else old(router.Table())
  {
    var controlStarted, pendingOpen, queue, stopped := false, None, [], false;
    var controlStreams: nat, finished := 0, [];
    var i := 0;
    while i < |ws| && !stopped
      invariant 0 <= i <= |ws|
      invariant Turns(FRESH_ACTOR, ws)
             == Turns(Actor(controlStarted, pendingOpen, queue, stopped, controlStreams, finished, 0), ws[i..])
    {
      var w := ws[i];
      ghost var before := Actor(controlStarted, pendingOpen, queue, stopped, controlStreams, finished, 0);
      assert ws[i..][1..] == ws[i + 1..];
      i := i + 1;
      queue := queue + w.arrivals;
      if pendingOpen.Some? && pendingOpen.value in w.givenUp {
        finished := finished + [Abandoned(pendingOpen.value)];
        pendingOpen := None;
      }
      if w.cancelled || (w.deadline && !controlStarted) {
        stopped := true;
      } else if pendingOpen.Some? && w.outbound.Some? {
        // The pending command is always there to receive the opened stream.
        finished := finished + [if w.outbound.value.Opened? then Served(pendingOpen.value, w.outbound.value.stream)
                                else Refused(pendingOpen.value)];
        pendingOpen := None;
      } else if w.inbound.Some? {
        if w.inbound.value.NewStream? && !controlStarted {
          controlStarted, controlStreams := true, controlStreams + 1;
        } else {
          stopped := true;
        }
      } else if pendingOpen.None? && queue != [] {
        pendingOpen, queue := Some(queue[0]), queue[1..];
      }
      assert Actor(controlStarted, pendingOpen, queue, stopped, controlStreams, finished, 0) == Turn(before, w);
    }
    a := Actor(controlStarted, pendingOpen, queue, stopped, controlStreams, finished, 0);
    if stopped {
      StoppedForGood(a, ws[i..]);
      router.RemoveSession(session);
    } else {
      assert ws[i..] == [];
    }
  }
}
