/** A byte stream over WebSocket messages. Binary messages (section 5.6 of RFC
    6455) carry the bytes; ping, pong (section 5.5) and text are skipped; a close
    message or the end of the connection reads as end of stream. */
module WsByteStream {
  import opened Prelude

  type Bytes = seq<bv8>

  const MAX_WS_MESSAGE: nat := 1024 * 1024

  datatype Message = Binary(data: Bytes) | Ping | Pong | Text | RawFrame | Close

  /** What the WebSocket yields next: a message or a transport error. */
  datatype Item = Msg(message: Message) | Failed

  /** The reading half: what has arrived, whether the connection has ended after
      it, the leftover of the last message, and the end-of-stream flag. */
  datatype Reader = Reader(inbox: seq<Item>, ended: bool, readBuf: Bytes, closed: bool)

  datatype ReadResult = Ready(data: Bytes) | ReadError | Pending

  datatype ReadStep = ReadStep(reader: Reader, result: ReadResult)

  /** Messages that are not part of the byte protocol. */
  predicate IsNoise(m: Message) {
    !m.Close? && (m.Binary? ==> m.data == [])
  }

  // ----- reading -----

  /** The next item is one the reader takes in without returning: bytes within
      bounds, or a message that is not part of the byte protocol. */
  predicate Fetchable(r: Reader) {
    && r.readBuf == [] && !r.closed && r.inbox != []
    && r.inbox[0].Msg? && !r.inbox[0].message.Close?
    && (r.inbox[0].message.Binary? ==> |r.inbox[0].message.data| <= MAX_WS_MESSAGE)
  }

  function Fetch(r: Reader): Reader
    requires Fetchable(r)
  {
    r.(inbox := r.inbox[1..], readBuf := BytesOf(r.inbox[0]))
  }

  /** Hand out up to `size` leftover bytes, fetching messages as needed. */
  function PollRead(r: Reader, size: nat): ReadStep
    decreases |r.inbox|
  {
    if r.readBuf != [] then
      var n := Min(size, |r.readBuf|);
      ReadStep(r.(readBuf := r.readBuf[n..]), Ready(r.readBuf[..n]))
    else if r.closed then ReadStep(r, Ready([]))
    else if r.inbox == [] then
      if r.ended then ReadStep(r.(closed := true), Ready([])) else ReadStep(r, Pending)
    else if Fetchable(r) then PollRead(Fetch(r), size)
    else if r.inbox[0] == Msg(Close) then ReadStep(r.(inbox := r.inbox[1..], closed := true), Ready([]))
    else ReadStep(r.(inbox := r.inbox[1..]), ReadError)
  }

  /** The bytes one item stands for. */
  function BytesOf(i: Item): Bytes {
    if i.Msg? && i.message.Binary? && |i.message.data| <= MAX_WS_MESSAGE then i.message.data else []
  }

  /** The bytes of a run of items, up to a close message. */
  function Payload(items: seq<Item>): Bytes {
    if items == [] || items[0] == Msg(Close) then []
    else BytesOf(items[0]) + Payload(items[1..])
  }

  /** Everything the reader will still hand out, given what is yet to arrive. */
  function Unread(r: Reader, later: seq<Item>): Bytes {
    r.readBuf + (if r.closed then [] else Payload(r.inbox + later))
  }

  /** Taking in the next item changes nothing about what is unread. */
  lemma FetchKeepsUnread(r: Reader, later: seq<Item>)
    requires Fetchable(r)
    ensures Unread(Fetch(r), later) == Unread(r, later)
  {
    assert (r.inbox + later)[0] == r.inbox[0];
    assert (r.inbox + later)[1..] == r.inbox[1..] + later;
  }

  /** A refused item or a close message carries no bytes. */
  lemma RefusedItemIsEmpty(r: Reader, later: seq<Item>)
    requires r.readBuf == [] && !r.closed && r.inbox != [] && !Fetchable(r)
    ensures Unread(r, later) == if r.inbox[0] == Msg(Close) then [] else Unread(r.(inbox := r.inbox[1..]), later)
  {
    assert (r.inbox + later)[0] == r.inbox[0];
    assert (r.inbox + later)[1..] == r.inbox[1..] + later;
  }

  lemma SplitBytes(buf: Bytes, n: nat, more: Bytes)
    requires n <= |buf|
    ensures buf + more == buf[..n] + (buf[n..] + more)
  {
  }

  function DataOf(result: ReadResult): Bytes {
    if result.Ready? then result.data else []
  }

  /** An oversize message is refused, never skipped, whatever harmless messages
      come before it. */
  lemma {:induction false} OversizeIsRefused(r: Reader, size: nat, k: nat)
    requires r.readBuf == [] && !r.closed && k < |r.inbox|
    requires forall i :: 0 <= i < k ==> r.inbox[i].Msg? && IsNoise(r.inbox[i].message)
    requires r.inbox[k].Msg? && r.inbox[k].message.Binary? && |r.inbox[k].message.data| > MAX_WS_MESSAGE
    ensures PollRead(r, size) == ReadStep(r.(inbox := r.inbox[k + 1..]), ReadError)
    decreases k
  {
    if k == 0 {
    } else {
      assert r.inbox[0].Msg? && IsNoise(r.inbox[0].message);
      var r' := Fetch(r);
      assert r'.inbox[k - 1] == r.inbox[k] && r'.inbox[k..] == r.inbox[k + 1..];
      assert forall i :: 0 <= i < k - 1 ==> r'.inbox[i] == r.inbox[i + 1];
      OversizeIsRefused(r', size, k - 1);
    }
  }

  function ErrorOf(result: ReadResult): nat {
    if result.ReadError? then 1 else 0
  }

  /** One read moves bytes from the unread part to the caller, in order, and
      loses none, whatever is skipped or refused on the way. */
  lemma {:induction false} ReadConserves(r: Reader, size: nat, later: seq<Item>)
    requires r.ended ==> later == []
    ensures var s := PollRead(r, size);
            Unread(r, later) == DataOf(s.result) + Unread(s.reader, later)
    decreases |r.inbox|
  {
    if r.readBuf != [] {
      SplitBytes(r.readBuf, Min(size, |r.readBuf|), if r.closed then [] else Payload(r.inbox + later));
    } else if Fetchable(r) {
      FetchKeepsUnread(r, later);
      ReadConserves(Fetch(r), size, later);
    } else if !r.closed && r.inbox != [] {
      RefusedItemIsEmpty(r, later);
    }
  }

  /** A read returns less than asked for only if a message is used up. */
  lemma {:induction false} ShortReadEndsMessage(r: Reader, size: nat)
    ensures var s := PollRead(r, size);
            |DataOf(s.result)| < size && DataOf(s.result) != [] ==> s.reader.readBuf == []
    decreases |r.inbox|
  {
    if !Fetchable(r) {
    } else {
      ShortReadEndsMessage(Fetch(r), size);
    }
  }

  /** What a read returns and leaves: never more than asked for; an empty result
      with room in the buffer is end of stream; no result yet means nothing had
      arrived and the connection is open. Items are consumed strictly in order. */
  lemma {:induction false} ReadShape(r: Reader, size: nat)
    ensures var s := PollRead(r, size);
            && |DataOf(s.result)| <= size
            && (s.result == Ready([]) && size > 0 ==> s.reader.closed && s.reader.readBuf == [])
            && (s.result == Pending ==> s.reader.inbox == [] && s.reader.readBuf == [] && !s.reader.closed && !s.reader.ended)
            && s.reader.ended == r.ended
            && |s.reader.inbox| <= |r.inbox|
            && s.reader.inbox == r.inbox[|r.inbox| - |s.reader.inbox|..]
    decreases |r.inbox|
  {
    if !Fetchable(r) {
    } else {
      ReadShape(Fetch(r), size);
    }
  }

  // ----- writing -----

  /** What the WebSocket does with a message offered to it: `Busy` and `Broken`
      are answers of `poll_ready`, `Refuses` an error of `start_send`, which queues
      nothing. */
  datatype Sink = Takes | Busy | Broken | Refuses

  datatype WriteResult = Wrote(count: nat) | WritePending | WriteError

  /** The outcome of a write: how much of the buffer one message takes. */
  function PollWrite(buf: Bytes, sink: Sink): WriteResult {
    match sink
    case Takes => Wrote(Min(|buf|, MAX_WS_MESSAGE))
    case Busy => WritePending
    case _ => WriteError
  }

  /** The message a write puts on the wire. */
  function Sent(buf: Bytes, result: WriteResult): seq<Message>
    requires result.Wrote? ==> result.count <= |buf|
  {
    if result.Wrote? then [Binary(buf[..result.count])] else []
  }

  // ----- a writer and a reader joined by a connection -----

  /** `accepted` is what the writer was told it wrote, `delivered` what the reader
      was given; `wire` is in flight. `faults` counts transport errors on the
      reader's side, `errors` the reads that failed. */
  datatype Link = Link(
    accepted: Bytes,
    wire: seq<Item>,
    closeSent: bool,
    lost: bool,
    reader: Reader,
    delivered: Bytes,
    faults: nat,
    errors: nat)

  const NEW_LINK := Link([], [], false, false, Reader([], false, [], false), [], 0, 0)

  datatype LinkEvent =
    | Write(buf: Bytes, sink: Sink)
    | Noise(message: Message)
    | SendClose
    | Deliver
    | Fault
    | Lose
    | Read(size: nat)

  function LinkStep(k: Link, e: LinkEvent): Link {
    match e
    case Write(buf, sink) =>
      var result := PollWrite(buf, sink);
      if k.closeSent || k.lost || !result.Wrote? then k
      else
        var taken := buf[..result.count];
        k.(accepted := k.accepted + taken, wire := k.wire + [Msg(Binary(taken))])
    case Noise(m) =>
      if k.closeSent || k.lost || !IsNoise(m) then k else k.(wire := k.wire + [Msg(m)])
    case SendClose =>
      if k.closeSent || k.lost then k else k.(closeSent := true, wire := k.wire + [Msg(Close)])
    case Deliver =>
      if k.wire == [] then k
      else k.(wire := k.wire[1..], reader := k.reader.(inbox := k.reader.inbox + [k.wire[0]]))
    case Fault =>
      if k.lost then k
      else k.(faults := k.faults + 1, reader := k.reader.(inbox := k.reader.inbox + [Failed]))
    case Lose =>
      k.(lost := true, wire := [], reader := k.reader.(ended := true))
    case Read(size) =>
      var s := PollRead(k.reader, size);
      k.(reader := s.reader, delivered := k.delivered + DataOf(s.result), errors := k.errors + ErrorOf(s.result))
  }

  function LinkRun(k: Link, events: seq<LinkEvent>): Link
    decreases |events|
  {
    if events == [] then k else LinkRun(LinkStep(k, events[0]), events[1..])
  }

  predicate Sendable(i: Item) {
    i.Msg? && (i.message.Binary? ==> |i.message.data| <= MAX_WS_MESSAGE)
  }

  /** Nothing but transport errors from `at` on. */
  ghost predicate OnlyFaults(items: seq<Item>, at: nat) {
    forall j :: at <= j < |items| ==> items[j] == Failed
  }

  /** Only transport errors can follow a close message. */
  ghost predicate CloseIsLast(items: seq<Item>, closeSent: bool) {
    forall i :: 0 <= i < |items| && items[i] == Msg(Close) ==> closeSent && OnlyFaults(items, i + 1)
  }

  function CountFaults(items: seq<Item>): nat {
    if items == [] then 0 else (if items[0] == Failed then 1 else 0) + CountFaults(items[1..])
  }

  /** The messages between writer and reader: arrived, then in flight. */
  function Flight(k: Link): seq<Item> {
    k.reader.inbox + k.wire
  }

  ghost predicate WellFormedLink(k: Link) {
    && (forall i :: 0 <= i < |k.reader.inbox| ==> k.reader.inbox[i] == Failed || Sendable(k.reader.inbox[i]))
    && (forall i :: 0 <= i < |k.wire| ==> Sendable(k.wire[i]))
    && CloseIsLast(Flight(k), k.closeSent)
    && (k.lost <==> k.reader.ended)
    && (k.lost ==> k.wire == [])
    && (k.reader.closed ==> k.lost || (k.closeSent && OnlyFaults(Flight(k), 0)))
  }

  ghost predicate BytesAccounted(k: Link) {
    if k.lost then k.delivered + Unread(k.reader, k.wire) <= k.accepted
    else k.delivered + Unread(k.reader, k.wire) == k.accepted
  }

  /** Every transport error has been reported once or is yet to be met. */
  ghost predicate FaultsAccounted(k: Link) {
    k.errors + CountFaults(k.reader.inbox) == k.faults
  }

  ghost predicate LinkInvariant(k: Link) {
    WellFormedLink(k) && BytesAccounted(k) && FaultsAccounted(k)
  }

  lemma {:induction false} PayloadAppend(items: seq<Item>, i: Item)
    requires forall j :: 0 <= j < |items| ==> items[j] != Msg(Close)
    ensures Payload(items + [i]) == Payload(items) + BytesOf(i)
  {
    if items == [] {
      assert [i][1..] == [];
    } else {
      assert (items + [i])[1..] == items[1..] + [i];
      PayloadAppend(items[1..], i);
    }
  }

  lemma {:induction false} PayloadPrefix(items: seq<Item>, more: seq<Item>)
    ensures Payload(items) <= Payload(items + more)
  {
    if items == [] || items[0] == Msg(Close) {
    } else {
      assert (items + more)[1..] == items[1..] + more;
      PayloadPrefix(items[1..], more);
    }
  }

  /** A transport error carries no bytes, wherever it falls. */
  lemma {:induction false} PayloadIgnoresFault(items: seq<Item>, more: seq<Item>)
    ensures Payload(items + [Failed] + more) == Payload(items + more)
  {
    if items == [] {
      assert ([Failed] + more)[1..] == more && items + [Failed] + more == [Failed] + more && items + more == more;
    } else {
      assert (items + [Failed] + more)[1..] == items[1..] + [Failed] + more;
      assert (items + more)[1..] == items[1..] + more;
      PayloadIgnoresFault(items[1..], more);
    }
  }

  lemma {:induction false} CountFaultsAppend(items: seq<Item>, i: Item)
    ensures CountFaults(items + [i]) == CountFaults(items) + (if i == Failed then 1 else 0)
  {
    if items == [] {
      assert items + [i] == [i] && [i][1..] == [];
    } else {
      assert (items + [i])[1..] == items[1..] + [i];
      CountFaultsAppend(items[1..], i);
    }
  }

  lemma SendKeepsCloseLast(items: seq<Item>, i: Item, closes: bool)
    requires CloseIsLast(items, false) && (closes <==> i == Msg(Close))
    ensures CloseIsLast(items + [i], closes)
    ensures Payload(items + [i]) == Payload(items) + BytesOf(i)
  {
    PayloadAppend(items, i);
  }

  lemma SendKeepsWellFormed(k: Link, i: Item, closes: bool)
    requires WellFormedLink(k) && !k.closeSent && !k.lost && Sendable(i) && (closes <==> i == Msg(Close))
    ensures WellFormedLink(k.(closeSent := closes, wire := k.wire + [i]))
    ensures Payload(Flight(k.(closeSent := closes, wire := k.wire + [i]))) == Payload(Flight(k)) + BytesOf(i)
  {
    assert Flight(k.(closeSent := closes, wire := k.wire + [i])) == Flight(k) + [i];
    SendKeepsCloseLast(Flight(k), i, closes);
  }

  lemma SendKeepsInvariant(k: Link, i: Item, bytes: Bytes, closes: bool)
    requires LinkInvariant(k) && !k.closeSent && !k.lost
    requires Sendable(i) && (closes <==> i == Msg(Close)) && bytes == BytesOf(i)
    ensures LinkInvariant(k.(accepted := k.accepted + bytes, closeSent := closes, wire := k.wire + [i]))
  {
    var k1 := k.(closeSent := closes, wire := k.wire + [i]);
    var k' := k1.(accepted := k.accepted + bytes);
    SendKeepsWellFormed(k, i, closes);
    assert WellFormedLink(k') by {
      assert Flight(k') == Flight(k1);
    }
    assert BytesAccounted(k') by {
      SendKeepsAccount(k, k', bytes);
    }
  }

  lemma SendKeepsAccount(k: Link, k': Link, bytes: Bytes)
    requires BytesAccounted(k) && !k.lost && !k.reader.closed
    requires k'.reader == k.reader && k'.delivered == k.delivered && !k'.lost
    requires k'.accepted == k.accepted + bytes && Payload(Flight(k')) == Payload(Flight(k)) + bytes
    ensures BytesAccounted(k')
  {
  }

  /** Consuming items from the front keeps the link well formed. */
  lemma ConsumeKeepsWellFormed(k: Link, r: Reader, delivered: Bytes, errors: nat)
    requires WellFormedLink(k)
    requires r.ended == k.reader.ended && |r.inbox| <= |k.reader.inbox|
    requires r.inbox == k.reader.inbox[|k.reader.inbox| - |r.inbox|..]
    requires r.closed ==> r.ended || (k.closeSent && OnlyFaults(r.inbox + k.wire, 0))
    ensures WellFormedLink(k.(reader := r, delivered := delivered, errors := errors))
  {
    var flight := r.inbox + k.wire;
    var drop := |k.reader.inbox| - |r.inbox|;
    assert forall i :: 0 <= i < |flight| ==> flight[i] == Flight(k)[drop + i];
    forall i | 0 <= i < |flight| && flight[i] == Msg(Close) ensures k.closeSent && OnlyFaults(flight, i + 1) {
      assert Flight(k)[drop + i] == Msg(Close);
    }
  }

  lemma DeliveryKeepsAccount(k: Link, r: Reader, data: Bytes, errors: nat)
    requires BytesAccounted(k) && Unread(k.reader, k.wire) == data + Unread(r, k.wire)
    ensures BytesAccounted(k.(reader := r, delivered := k.delivered + data, errors := errors))
  {
  }

  lemma ReadKeepsWellFormed(k: Link, size: nat)
    requires WellFormedLink(k)
    ensures WellFormedLink(LinkStep(k, Read(size)))
  {
    var s := PollRead(k.reader, size);
    ReadShape(k.reader, size);
    ClosedOnlyAtEnd(k.reader, size, k.wire, k.closeSent);
    ConsumeKeepsWellFormed(k, s.reader, k.delivered + DataOf(s.result), k.errors + ErrorOf(s.result));
  }

  lemma ReadKeepsInvariant(k: Link, size: nat)
    requires LinkInvariant(k)
    ensures LinkInvariant(LinkStep(k, Read(size)))
  {
    var s := PollRead(k.reader, size);
    ReadKeepsWellFormed(k, size);
    ReadConserves(k.reader, size, k.wire);
    DeliveryKeepsAccount(k, s.reader, DataOf(s.result), k.errors + ErrorOf(s.result));
    ReadReportsFault(k.reader, size);
  }

  /** The reader closes on a close message, which only errors follow, or on a lost
      connection. */
  lemma {:induction false} ClosedOnlyAtEnd(r: Reader, size: nat, later: seq<Item>, closeSent: bool)
    requires CloseIsLast(r.inbox + later, closeSent)
    requires r.closed ==> r.ended || (closeSent && OnlyFaults(r.inbox + later, 0))
    ensures var r' := PollRead(r, size).reader;
            r'.closed ==> r'.ended || (closeSent && OnlyFaults(r'.inbox + later, 0))
    decreases |r.inbox|
  {
    if r.readBuf == [] && !r.closed && r.inbox != [] {
      var flight := r.inbox + later;
      assert r.inbox[1..] + later == flight[1..] && flight[0] == r.inbox[0];
      if Fetchable(r) {
        TailKeepsCloseLast(flight, closeSent);
        ClosedOnlyAtEnd(Fetch(r), size, later, closeSent);
      } else if r.inbox[0] == Msg(Close) {
        assert OnlyFaults(flight, 1);
      }
    }
  }

  lemma TailKeepsCloseLast(items: seq<Item>, closeSent: bool)
    requires items != [] && CloseIsLast(items, closeSent)
    ensures CloseIsLast(items[1..], closeSent)
  {
    var rest := items[1..];
    forall i | 0 <= i < |rest| && rest[i] == Msg(Close) ensures closeSent && OnlyFaults(rest, i + 1) {
      assert items[i + 1] == Msg(Close);
      assert OnlyFaults(items, i + 2);
    }
  }

  /** A read fails exactly on the transport error it uses up. */
  lemma {:induction false} ReadReportsFault(r: Reader, size: nat)
    requires forall i :: 0 <= i < |r.inbox| ==> r.inbox[i] == Failed || Sendable(r.inbox[i])
    ensures var s := PollRead(r, size);
            CountFaults(r.inbox) == CountFaults(s.reader.inbox) + ErrorOf(s.result)
    decreases |r.inbox|
  {
    if Fetchable(r) {
      ReadReportsFault(Fetch(r), size);
    } else if r.inbox != [] {
      assert r.inbox[0] == Failed || Sendable(r.inbox[0]);
    }
  }

  lemma LoseKeepsInvariant(k: Link)
    requires LinkInvariant(k)
    ensures LinkInvariant(LinkStep(k, Lose))
  {
    var k' := LinkStep(k, Lose);
    assert Flight(k') == k.reader.inbox == Flight(k)[..|k.reader.inbox|];
    forall i | 0 <= i < |Flight(k')| && Flight(k')[i] == Msg(Close) ensures k.closeSent && OnlyFaults(Flight(k'), i + 1) {
      assert Flight(k)[i] == Msg(Close);
    }
    PayloadPrefix(k.reader.inbox, k.wire);
    assert Unread(k'.reader, []) <= Unread(k.reader, k.wire);
  }

  /** An error met anywhere leaves a close message last. */
  lemma FaultKeepsCloseLast(inbox: seq<Item>, wire: seq<Item>, closeSent: bool)
    requires CloseIsLast(inbox + wire, closeSent)
    ensures CloseIsLast(inbox + [Failed] + wire, closeSent)
  {
    var before, after := inbox + wire, inbox + [Failed] + wire;
    forall i | 0 <= i < |after| && after[i] == Msg(Close) ensures closeSent && OnlyFaults(after, i + 1) {
      var was := if i < |inbox| then i else i - 1;
      assert before[was] == Msg(Close);
      assert OnlyFaults(before, was + 1);
      forall j | i < j < |after| ensures after[j] == Failed {
        if j != |inbox| {
          assert after[j] == before[if j < |inbox| then j else j - 1];
        }
      }
    }
  }

  lemma FaultKeepsInvariant(k: Link)
    requires LinkInvariant(k)
    ensures LinkInvariant(LinkStep(k, Fault))
  {
    if !k.lost {
      var k' := LinkStep(k, Fault);
      assert Flight(k') == k.reader.inbox + [Failed] + k.wire;
      FaultKeepsCloseLast(k.reader.inbox, k.wire, k.closeSent);
      PayloadIgnoresFault(k.reader.inbox, k.wire);
      CountFaultsAppend(k.reader.inbox, Failed);
      if k.reader.closed {
        assert forall i :: 0 <= i < |Flight(k')| && i != |k.reader.inbox| ==>
                 Flight(k')[i] == Flight(k)[if i < |k.reader.inbox| then i else i - 1];
      }
    }
  }

  lemma DeliverKeepsInvariant(k: Link)
    requires LinkInvariant(k)
    ensures LinkInvariant(LinkStep(k, Deliver))
  {
    if k.wire != [] {
      assert Flight(LinkStep(k, Deliver)) == Flight(k);
      CountFaultsAppend(k.reader.inbox, k.wire[0]);
    }
  }

  lemma LinkStepKeepsInvariant(k: Link, e: LinkEvent)
    requires LinkInvariant(k)
    ensures LinkInvariant(LinkStep(k, e))
  {
    match e
    case Write(buf, sink) =>
      if !k.closeSent && !k.lost && PollWrite(buf, sink).Wrote? {
        var taken := buf[..PollWrite(buf, sink).count];
        SendKeepsInvariant(k, Msg(Binary(taken)), taken, false);
      }
    case Noise(m) =>
      if !k.closeSent && !k.lost && IsNoise(m) {
        SendKeepsInvariant(k, Msg(m), [], false);
        assert k.accepted + [] == k.accepted;
      }
    case SendClose =>
      if !k.closeSent && !k.lost {
        SendKeepsInvariant(k, Msg(Close), [], true);
        assert k.accepted + [] == k.accepted;
      }
    case Deliver => DeliverKeepsInvariant(k);
    case Fault => FaultKeepsInvariant(k);
    case Lose => LoseKeepsInvariant(k);
    case Read(size) => ReadKeepsInvariant(k, size);
  }

  lemma {:induction false} LinkRunKeepsInvariant(k: Link, events: seq<LinkEvent>)
    requires LinkInvariant(k)
    ensures LinkInvariant(LinkRun(k, events))
    decreases |events|
  {
    if events == [] {
    } else {
      LinkStepKeepsInvariant(k, events[0]);
      LinkRunKeepsInvariant(LinkStep(k, events[0]), events[1..]);
    }
  }

  /** What the invariant says of the bytes and errors seen so far. */
  lemma InvariantBoundsReads(k: Link)
    requires BytesAccounted(k) && FaultsAccounted(k)
    ensures k.delivered <= k.accepted && k.errors <= k.faults
    ensures !k.lost && Unread(k.reader, k.wire) == [] ==> k.delivered == k.accepted
  {
  }

  /** A link on which nothing has been sent, delivered or broken. */
  lemma IdleLinkMeetsInvariant(k: Link)
    requires k.wire == [] && k.reader.inbox == [] && k.reader.readBuf == [] && k.accepted == [] && k.delivered == []
    requires !k.lost && !k.reader.ended && !k.reader.closed && k.faults == k.errors == 0
    ensures LinkInvariant(k)
  {
    assert Flight(k) == [];
    assert Unread(k.reader, k.wire) == [];
  }

  lemma RunFromNewKeepsInvariant(events: seq<LinkEvent>)
    ensures LinkInvariant(LinkRun(NEW_LINK, events))
  {
    IdleLinkMeetsInvariant(NEW_LINK);
    LinkRunKeepsInvariant(NEW_LINK, events);
  }

  /** The round trip, over every run: the bytes read are a prefix of the bytes
      accepted; they are all of them once nothing is in flight and the connection
      was not lost. No transport error is reported twice. */
  lemma ReadsArePrefixOfWrites(events: seq<LinkEvent>)
    ensures var k := LinkRun(NEW_LINK, events);
            && k.delivered <= k.accepted
            && (!k.lost && k.wire == [] && k.reader.inbox == [] && k.reader.readBuf == [] ==> k.delivered == k.accepted)
            && k.errors <= k.faults
  {
    RunFromNewKeepsInvariant(events);
    InvariantBoundsReads(LinkRun(NEW_LINK, events));
  }

  lemma ClosedReaderIsDrained(k: Link)
    requires WellFormedLink(k) && BytesAccounted(k) && k.reader.closed && k.reader.readBuf == []
    ensures k.lost || (k.closeSent && k.delivered == k.accepted)
  {
  }

  lemma FailedReadIsNew(k: Link, size: nat)
    requires LinkInvariant(k)
    ensures PollRead(k.reader, size).result == ReadError ==> k.errors < k.faults
  {
    ReadReportsFault(k.reader, size);
  }

  lemma EmptyReadDrains(k: Link, size: nat)
    requires LinkInvariant(k) && size > 0 && PollRead(k.reader, size).result == Ready([])
    ensures var r := PollRead(k.reader, size).reader;
            r.closed && r.readBuf == [] && (k.lost || (k.closeSent && k.delivered == k.accepted))
  {
    var k' := LinkStep(k, Read(size));
    ReadKeepsInvariant(k, size);
    ReadShape(k.reader, size);
    ClosedReaderIsDrained(k');
    assert k'.delivered == k.delivered;
  }

  /** After any run, a read fails only on a transport error not reported before,
      and an empty result with room in the buffer means end of stream: the
      connection was lost, or it was closed and every accepted byte has been
      delivered. */
  lemma EmptyReadMeansEnd(events: seq<LinkEvent>, size: nat)
    ensures var k := LinkRun(NEW_LINK, events);
            var s := PollRead(k.reader, size);
            && (s.result == ReadError ==> k.errors < k.faults)
            && (size > 0 && s.result == Ready([]) ==>
                  && s.reader.closed && s.reader.readBuf == []
                  && (k.lost || (k.closeSent && k.delivered == k.accepted)))
  {
    var k := LinkRun(NEW_LINK, events);
    RunFromNewKeepsInvariant(events);
    FailedReadIsNew(k, size);
    if size > 0 && PollRead(k.reader, size).result == Ready([]) {
      EmptyReadDrains(k, size);
    }
  }

  lemma {:induction false} EndLasts(k: Link, events: seq<LinkEvent>)
    requires k.reader.closed && k.reader.readBuf == []
    ensures var k' := LinkRun(k, events);
            && k'.reader.closed && k'.reader.readBuf == []
            && k'.delivered == k.delivered && k'.errors == k.errors
    decreases |events|
  {
    if events == [] {
    } else {
      var k' := LinkStep(k, events[0]);
      assert k'.delivered == k.delivered;
      EndLasts(k', events[1..]);
    }
  }

  /** End of stream is sticky: once a read with room came back empty, every read
      of every continuation does, whatever is still written, delivered or broken,
      and nothing more is handed out or reported. */
  lemma EndIsSticky(k: Link, size: nat, events: seq<LinkEvent>, nextSize: nat)
    requires size > 0 && PollRead(k.reader, size).result == Ready([])
    ensures var k' := LinkRun(LinkStep(k, Read(size)), events);
            && PollRead(k'.reader, nextSize).result == Ready([])
            && k'.delivered == k.delivered && k'.errors == k.errors
  {
    ReadShape(k.reader, size);
    var end := LinkStep(k, Read(size));
    assert end.delivered == k.delivered;
    EndLasts(end, events);
  }

  // ----- the stream itself -----

  /** `inbox` and `ended` stand for the WebSocket's receive side, `outbox` for its
      send side. */
  class WsByteStream {
    var inbox: seq<Item>
    var ended: bool
    var readBuf: Bytes
    var closed: bool
    var outbox: seq<Message>

    function State(): Reader
      reads this
    {
      Reader(inbox, ended, readBuf, closed)
    }

    constructor ()
      ensures State() == Reader([], false, [], false) && outbox == []
    {
      inbox, ended, readBuf, closed, outbox := [], false, [], false, [];
    }

    method Read(size: nat) returns (result: ReadResult)
      modifies this
      ensures ReadStep(State(), result) == PollRead(old(State()), size)
      ensures outbox == old(outbox)
    {
      while true
        invariant PollRead(State(), size) == PollRead(old(State()), size)
        invariant outbox == old(outbox)
        decreases |inbox|, |readBuf| == 0
      {
        if readBuf != [] {
          var n := if size < |readBuf| then size else |readBuf|;
          result := Ready(readBuf[..n]);
          readBuf := readBuf[n..];
          return;
        }
        if closed {
          return Ready([]);
        }
        if inbox == [] {
          if ended {
            closed := true;
            return Ready([]);
          }
          return Pending;
        }
        var item := inbox[0];
        inbox := inbox[1..];
        match item {
          case Failed => return ReadError;
          case Msg(Binary(data)) =>
            if data != [] {
              if |data| > MAX_WS_MESSAGE {
                return ReadError;
              }
              readBuf := data;
            }
          case Msg(Close) =>
            closed := true;
            return Ready([]);
          case Msg(_) =>
        }
      }
    }

    /** Offer one bounded message. The writer is told of a number of bytes exactly
        when that many went out: the whole buffer, or as much as one message may
        hold. */
    method Write(buf: Bytes, sink: Sink) returns (result: WriteResult)
      modifies this
      ensures State() == old(State())
      ensures result == PollWrite(buf, sink)
      ensures (result.Wrote? <==> sink.Takes?) && (result.WritePending? <==> sink.Busy?)
      ensures result.Wrote? ==> result.count <= MAX_WS_MESSAGE && result.count <= |buf|
      ensures result.Wrote? ==> result.count == |buf| || result.count == MAX_WS_MESSAGE
      ensures outbox == old(outbox) + Sent(buf, result)
    {
      if sink.Busy? {
        return WritePending;
      }
      if sink.Broken? {
        return WriteError;
      }
      var n := if |buf| < MAX_WS_MESSAGE then |buf| else MAX_WS_MESSAGE;
      if sink.Refuses? {
        return WriteError;
      }
      outbox := outbox + [Binary(buf[..n])];
      return Wrote(n);
    }
  }
}
