/**
 * A whole session: the handshake, the messages sent meanwhile, the hand-over in the middle of a buffer, the messages
 * received.
 */
module Sessions {
  import opened Wrappers
  import opened Octets
  import opened Messages
  import opened MessageWriting
  import opened Receiving
  import opened Protocol
  import opened Delivery
  import opened Transports
  import opened Authentication
  import opened Replies

  /**
   * Everything `Native` and the objects it owns hold. `lost` says the protocol left what is modelled;
   * the history is absent once a reply came without a reply serial, which the source then reads uninitialised.
   * `throws` says of the program which of the handlings, counted from the first, end in an exception of its callback;
   * the protocol swallows it and goes on.
   */
  datatype Session = Session(link: Link, line: bytes, required: AuthRequired, authenticated: bool,
                             state: State, cache: bytes, handled: seq<Handling>, lost: bool,
                             history: Option<seq<TableEvent>>, throws: set<nat>)

  /** What happens to a session: the program sends a message, with callbacks if it is a call, or bytes arrive. */
  datatype Event = Send(message: Outgoing, handlers: nat) | Chunk(data: bytes)

  /** A session in which `BeginAuth` was just called. */
  function Opened(required: AuthRequired, uid: nat, throws: set<nat>): Session {
    Session(WriteAll(CONNECTED, [AuthLine(uid)]), [], required, false, START, [], [], false, Some([]), throws)
  }

  // ----- replies among what was handled

  predicate IsReply(h: Handling) {
    h.Dispatched? && (h.message.kind == TYPE_METHOD_RETURN || h.message.kind == TYPE_ERROR)
  }

  predicate ReplySerialsSet(hs: seq<Handling>) {
    forall h :: h in hs && IsReply(h) ==> h.message.replySerial.Some?
  }

  predicate RepliesTo(h: Handling, serial: nat) {
    IsReply(h) && h.message.replySerial == Some(serial)
  }

  function ReplyEvent(h: Handling, throws: bool): TableEvent
    requires IsReply(h) && h.message.replySerial.Some?
  {
    Replied(h.message.replySerial.value, h.message.kind == TYPE_ERROR, throws)
  }

  /** The replies among handlings, the first of which is the `from`-th of the session. */
  function RepliesOf(hs: seq<Handling>, from: nat, throws: set<nat>): seq<TableEvent>
    requires ReplySerialsSet(hs)
  {
    if hs == [] then []
    else
      var n := |hs| - 1;
      RepliesOf(hs[..n], from, throws) + if IsReply(hs[n]) then [ReplyEvent(hs[n], from + n in throws)] else []
  }

  /** One more handling adds at most one reply. */
  lemma RepliesNext(hs: seq<Handling>, from: nat, throws: set<nat>, i: nat)
    requires i < |hs| && ReplySerialsSet(hs[..i])
    ensures ReplySerialsSet(hs[..i + 1]) <==> (IsReply(hs[i]) ==> hs[i].message.replySerial.Some?)
    ensures ReplySerialsSet(hs[..i + 1]) ==>
      RepliesOf(hs[..i + 1], from, throws) == RepliesOf(hs[..i], from, throws)
        + if IsReply(hs[i]) then [ReplyEvent(hs[i], from + i in throws)] else []
  {
    hide IsReply;
    assert hs[..i + 1] == hs[..i] + [hs[i]] && hs[..i + 1][..i] == hs[..i];
  }

  // ----- steps

  predicate ReplyExpected(m: Outgoing) {
    m.MethodCall? && m.flags % 2 == 0
  }

  /** The history of a session after some more handlings. */
  function Extend(s: Session, handled: seq<Handling>): Option<seq<TableEvent>> {
    if s.history.Some? && ReplySerialsSet(handled) then
      Some(s.history.value + RepliesOf(handled, |s.handled|, s.throws))
    else None
  }

  /** `onReceiveMessageData`: an exception resets the protocol but not its cache. */
  function ReceiveMessages(host: Order, s: Session, chunk: bytes): (r: Session)
    requires Framed(s.state)
    ensures Framed(r.state) && r.throws == s.throws
  {
    var p := ReceiveChunk(host, s.state, s.cache, chunk);
    s.(state := if p.status.Threw? then START else p.state, cache := p.rest, handled := s.handled + p.handled,
       lost := p.status.Stuck?, history := Extend(s, p.handled))
  }

  /** `onReceiveAuthData` until the handshake is over, from then on `onReceiveMessageData`. */
  function Receive(host: Order, s: Session, chunk: bytes): (r: Session)
    requires Framed(s.state)
    ensures Framed(r.state) && r.throws == s.throws
  {
    if s.lost then s
    else if s.authenticated then ReceiveMessages(host, s, chunk)
    else
      var h := Listen(s.required, s.line, s.link, chunk);
      var heard := s.(line := h.data, link := h.link, authenticated := h.authenticated);
      if h.authenticated then ReceiveMessages(host, heard, h.rest) else heard
  }

  function Step(host: Order, s: Session, e: Event): (r: Session)
    requires Framed(s.state)
    ensures Framed(r.state) && r.throws == s.throws
  {
    match e
    case Send(m, handlers) =>
      var sent := s.(link := SendMessage(s.link, Packet(host, m)));
      if ReplyExpected(m) && s.history.Some? then
        sent.(history := Some(s.history.value + [Called(m.serial, handlers)]))
      else sent
    case Chunk(data) => Receive(host, s, data)
  }

  function Run(host: Order, s: Session, events: seq<Event>): (r: Session)
    requires Framed(s.state)
    ensures Framed(r.state) && r.throws == s.throws
  {
    if events == [] then s else Step(host, Run(host, s, events[..|events| - 1]), events[|events| - 1])
  }

  /** The bytes received in a run. */
  function StreamOf(events: seq<Event>): bytes {
    if events == [] then []
    else
      var last := events[|events| - 1];
      StreamOf(events[..|events| - 1]) + if last.Chunk? then last.data else []
  }

  /** The packets sent in a run. */
  function SentIn(host: Order, events: seq<Event>): seq<bytes> {
    if events == [] then []
    else
      var last := events[|events| - 1];
      SentIn(host, events[..|events| - 1]) + if last.Send? then [Packet(host, last.message)] else []
  }

  // ----- the hand-over

  /** The session is where its stream puts it. */
  ghost predicate HandedOver(host: Order, s: Session, stream: bytes)
    requires Framed(s.state)
  {
    && (s.authenticated <==> Accepted(s.required, stream))
    && (!s.authenticated ==> s.line == stream && s.state == START && s.cache == [] && s.handled == [] && !s.lost)
    && (s.authenticated ==> ProcessedTo(s, Process(host, START, stream[FirstLine(stream).value..])))
  }

  ghost predicate ProcessedTo(s: Session, p: Progress) {
    && p.handled <= s.handled
    && (p.status.Waiting? ==> !s.lost && s.state == p.state && s.cache == p.rest && s.handled == p.handled)
  }

  /**
   * Exact hand-over, in any run: the handshake is over exactly when the first line of the received stream is an
   * accepted one, whatever the chunks, and the message protocol then has processed precisely the bytes after that
   * line. If no header among them is refused, the state, cache and dispatches are those of one call with all of them.
   */
  lemma {:induction false} HandOver(host: Order, required: AuthRequired, uid: nat, throws: set<nat>, events: seq<Event>)
    ensures var s := Run(host, Opened(required, uid, throws), events);
            s.required == required && HandedOver(host, s, StreamOf(events))
  {
    if events != [] {
      var n := |events| - 1;
      HandOver(host, required, uid, throws, events[..n]);
      hide HandedOver;
      var s, stream := Run(host, Opened(required, uid, throws), events[..n]), StreamOf(events[..n]);
      match events[n]
      case Send(m, handlers) =>
        SendKeeps(host, s, events[n], stream);
        assert stream + [] == stream;
      case Chunk(data) =>
        ChunkHandsOver(host, s, stream, data);
    }
    NothingHandedOver(host, required, uid, throws);
  }

  /** In any run, the session is authenticated if and only if the stream's first line says so. */
  lemma AuthenticatedExactly(host: Order, required: AuthRequired, uid: nat, throws: set<nat>, events: seq<Event>)
    ensures var stream := StreamOf(events);
            Run(host, Opened(required, uid, throws), events).authenticated
            <==> (required.AuthBasic? && FirstLineSays(stream, "OK")) || FirstLineSays(stream, "AGREE_UNIX_FD")
  {
    hide Run, StreamOf, FirstLineSays, Accepted, ProcessedTo, Process, FirstLine, AuthLine;
    HandOver(host, required, uid, throws, events);
    AcceptedExactly(required, StreamOf(events));
  }

  lemma NothingHandedOver(host: Order, required: AuthRequired, uid: nat, throws: set<nat>)
    ensures HandedOver(host, Opened(required, uid, throws), [])
  {}

  lemma SendKeeps(host: Order, s: Session, e: Event, stream: bytes)
    requires Framed(s.state) && e.Send? && HandedOver(host, s, stream)
    ensures Step(host, s, e).required == s.required && HandedOver(host, Step(host, s, e), stream)
  {
    hide Process, Packet, FirstLine, React;
  }

  lemma ChunkHandsOver(host: Order, s: Session, stream: bytes, chunk: bytes)
    requires Framed(s.state) && HandedOver(host, s, stream)
    ensures Receive(host, s, chunk).required == s.required && HandedOver(host, Receive(host, s, chunk), stream + chunk)
  {
    hide Process, FirstLine, ReceiveMessages, React, ProcessedTo, Listen;
    FirstLineStays(stream, chunk);
    if s.authenticated {
      var from := FirstLine(stream).value;
      assert (stream + chunk)[from..] == stream[from..] + chunk;
      ProcessedFurther(host, s, stream[from..], chunk);
    } else {
      var k := ListenIsByFirstLine(s.required, s.line, s.link, chunk);
      var h := Listen(s.required, s.line, s.link, chunk);
      if h.authenticated {
        var heard := s.(line := h.data, link := h.link, authenticated := true);
        NothingProcessed(host, heard);
        ProcessedFurther(host, heard, [], h.rest);
        assert [] + h.rest == h.rest;
      }
    }
  }

  lemma NothingProcessed(host: Order, s: Session)
    requires s.state == START && s.cache == [] && s.handled == [] && !s.lost
    ensures ProcessedTo(s, Process(host, START, []))
  {}

  lemma ProcessedFurther(host: Order, s: Session, done: bytes, chunk: bytes)
    requires Framed(s.state) && s.authenticated && ProcessedTo(s, Process(host, START, done))
    ensures var r := Receive(host, s, chunk);
            r.authenticated && r.required == s.required && ProcessedTo(r, Process(host, START, done + chunk))
  {
    hide Process, ReceiveChunk;
    ProcessAppend(host, START, done, chunk);
    if !s.lost {
      ReceiveChunkIsProcess(host, s.state, s.cache, chunk);
    }
  }

  // ----- after a refused header

  /** The same messages n times more. */
  function Repeatedly(handled: seq<Handling>, again: seq<Handling>, n: nat): seq<Handling> {
    if n == 0 then handled else Repeatedly(handled, again, n - 1) + again
  }

  function ChunkCount(events: seq<Event>): nat {
    if events == [] then 0 else ChunkCount(events[..|events| - 1]) + if events[|events| - 1].Chunk? then 1 else 0
  }

  /** The messages in the cache are `again`, and then comes a header that is refused. */
  ghost predicate Refused(host: Order, s: Session, again: seq<Handling>) {
    && s.authenticated && !s.lost && s.state == START && s.cache != []
    && Process(host, START, s.cache).status.Threw? && Process(host, START, s.cache).handled == again
  }

  /**
   * A session whose cache is refused from the start of a message never gets over it: whatever arrives, every chunk
   * dispatches once more what precedes the refused header, and the cache only grows.
   */
  lemma {:induction false} RefusalRepeats(host: Order, s: Session, again: seq<Handling>, events: seq<Event>)
    requires Refused(host, s, again)
    ensures Framed(s.state) && RefusedAfter(host, s, again, events, Run(host, s, events))
  {
    hide Step, RefusedAfter, Refused;
    assert Framed(s.state) by { RefusedIsFramed(host, s, again); }
    if events == [] {
      NotYetRepeated(host, s, again);
    } else {
      var n := |events| - 1;
      RefusalRepeats(host, s, again, events[..n]);
      assert events[..n] + [events[n]] == events;
      RefusedOnceMore(host, s, again, events[..n], Run(host, s, events[..n]), events[n]);
    }
  }

  /** r is s after the events, each chunk having dispatched the same messages again. */
  ghost predicate RefusedAfter(host: Order, s: Session, again: seq<Handling>, events: seq<Event>, r: Session) {
    && Refused(host, r, again)
    && r.cache == s.cache + StreamOf(events)
    && r.handled == Repeatedly(s.handled, again, ChunkCount(events))
  }

  lemma RefusedIsFramed(host: Order, s: Session, again: seq<Handling>)
    requires Refused(host, s, again)
    ensures Framed(s.state)
  {
    hide Process;
  }

  lemma NotYetRepeated(host: Order, s: Session, again: seq<Handling>)
    requires Refused(host, s, again)
    ensures RefusedAfter(host, s, again, [], s)
  {
    hide Refused;
    assert s.cache + [] == s.cache;
  }

  lemma RefusedOnceMore(host: Order, s: Session, again: seq<Handling>, events: seq<Event>, r: Session, e: Event)
    requires Framed(r.state) && RefusedAfter(host, s, again, events, r)
    ensures RefusedAfter(host, s, again, events + [e], Step(host, r, e))
  {
    hide Step, Refused, Repeatedly, StreamOf, ChunkCount;
    RefusedStep(host, r, again, e);
    RepeatedOnce(s.handled, again, ChunkCount(events));
    StreamGrows(events, e);
    assert s.cache + StreamOf(events) + (if e.Chunk? then e.data else []) == s.cache + StreamOf(events + [e]);
  }

  lemma StreamGrows(events: seq<Event>, e: Event)
    ensures StreamOf(events + [e]) == StreamOf(events) + if e.Chunk? then e.data else []
    ensures ChunkCount(events + [e]) == ChunkCount(events) + if e.Chunk? then 1 else 0
  {
    assert (events + [e])[..|events|] == events;
  }

  lemma RepeatedOnce(handled: seq<Handling>, again: seq<Handling>, n: nat)
    ensures Repeatedly(handled, again, 0) == handled
    ensures Repeatedly(handled, again, n + 1) == Repeatedly(handled, again, n) + again
  {}

  lemma RefusedStep(host: Order, s: Session, again: seq<Handling>, e: Event)
    requires Framed(s.state) && Refused(host, s, again)
    ensures var r := Step(host, s, e);
            && Refused(host, r, again)
            && r.cache == s.cache + (if e.Chunk? then e.data else [])
            && r.handled == if e.Chunk? then s.handled + again else s.handled
  {
    hide Process, ReceiveChunk, SendMessage, Packet;
    if e.Chunk? {
      RefusedCacheRepeats(host, s.cache, e.data);
    }
  }

  /**
   * How a session gets there: a chunk makes it refused exactly when the cached beginning of a message and the chunk
   * together contain a header that is refused; what precedes that header is what is dispatched again and again.
   */
  lemma RefusedExactlyWhenThrowing(host: Order, s: Session, chunk: bytes, again: seq<Handling>)
    requires s.authenticated && !s.lost && s.state == START && 0 < |s.cache| < Needed(START)
    ensures var all := Process(host, START, s.cache + chunk);
            Refused(host, Receive(host, s, chunk), again) <==> all.status.Threw? && all.handled == again
    ensures var all := Process(host, START, s.cache + chunk);
            Receive(host, s, chunk).handled == s.handled + all.handled
  {
    hide Process, ReceiveChunk;
    ReceiveChunkIsProcess(host, START, s.cache, chunk);
    var r := Receive(host, s, chunk);
    var p := ReceiveChunk(host, START, s.cache, chunk);
    if p.status.Threw? {
      ThrowLeaves(host, START, s.cache, chunk);
    } else if p.status.Waiting? && r.state == START {
      RestWaits(host, START, s.cache + chunk);
    }
  }

  lemma RestWaits(host: Order, st: State, buffer: bytes)
    requires Framed(st) && Process(host, st, buffer).status.Waiting?
    ensures var p := Process(host, st, buffer);
            Process(host, p.state, p.rest).status.Waiting?
  {
    hide Process;
    ProcessIsIdempotent(host, st, buffer);
  }

  /**
   * A run that gets there: a sendable message, cut within its first sixteen bytes, then one over the limits and
   * anything more. From the second chunk on the first message is dispatched with every chunk.
   */
  lemma OversizeAfterSendableIsRefused(host: Order, o: Order, s: Session, m: Outgoing, large: Outgoing, more: bytes,
                                       first: bytes, second: bytes)
    requires Sendable(m) && Framable(large) && !WithinLimits(large)
    requires s.authenticated && !s.lost && s.state == START && s.cache == []
    requires 0 < |first| < Needed(START) && first + second == Packet(o, m) + (Packet(o, large) + more)
    ensures var r := Receive(host, Receive(host, s, first), second);
            Refused(host, r, [Arrival(m)]) && r.handled == s.handled + [Arrival(m)]
  {
    hide Process, Packet, Sendable, WithinLimits, Framable, Receive, Refused;
    ShortChunkIsCached(host, s, first);
    PacketIsDelivered(host, o, m, Packet(o, large) + more);
    OversizePacketThrows(host, o, large, more);
    assert [Arrival(m)] + [] == [Arrival(m)];
    RefusedExactlyWhenThrowing(host, Receive(host, s, first), second, [Arrival(m)]);
  }

  lemma ShortChunkIsCached(host: Order, s: Session, chunk: bytes)
    requires s.authenticated && !s.lost && s.state == START && s.cache == [] && |chunk| < Needed(START)
    ensures var r := Receive(host, s, chunk);
            && r.authenticated && !r.lost && r.state == START && r.cache == chunk && r.handled == s.handled
  {
    hide Process;
    ShortBufferWaits(host, START, chunk);
    assert [] + chunk == chunk && s.handled + [] == s.handled;
  }

  // ----- the order of what is sent

  function Greeting(uid: nat): seq<bytes> {
    [NUL_OCTET, AuthLine(uid)]
  }

  /** What has been written, what waits, and how often each was counted. */
  ghost predicate InOrder(link: Link, authenticated: bool, uid: nat, sends: seq<bytes>, k: nat) {
    && link.ready == authenticated
    && link.queued == link.pumped + |link.buffered| <= |sends|
    && link.sent == |link.log| - 1 && link.bytesSent == Total(link.log) - 1
    && (!authenticated ==> link.log == Greeting(uid) + Negotiations(k) && link.buffered == sends && link.pumped == 0)
    && (authenticated ==> link.log == Greeting(uid) + [BEGIN_LINE] + sends && link.buffered == [])
  }

  /**
   * Whatever the order of sends and arrivals: before BEGIN no message is written and all of them wait, after BEGIN
   * every message has been written, once and in the order sent. BEGIN is written once; with AUTH_BASIC nothing else
   * is.
   */
  lemma {:induction false} SendOrder(host: Order, required: AuthRequired, uid: nat, throws: set<nat>,
      events: seq<Event>) returns (k: nat)
    ensures var s := Run(host, Opened(required, uid, throws), events);
            InOrder(s.link, s.authenticated, uid, SentIn(host, events), k)
    ensures (required.AuthBasic? ==> k == 0) && (k > 0 ==> FirstLine(StreamOf(events)).Some?)
  {
    hide FirstLine, InOrder, HandedOver, Step, Packet, AuthLine;
    if events == [] {
      OpenedInOrder(required, uid, throws);
      return 0;
    }
    var n := |events| - 1;
    k := SendOrder(host, required, uid, throws, events[..n]);
    HandOver(host, required, uid, throws, events[..n]);
    var s := Run(host, Opened(required, uid, throws), events[..n]);
    var stream, sends := StreamOf(events[..n]), SentIn(host, events[..n]);
    match events[n]
    case Send(m, handlers) =>
      SendStep(host, s, m, handlers);
      SendInOrder(s.link, s.authenticated, uid, sends, k, Packet(host, m));
      assert stream + [] == stream;
    case Chunk(data) =>
      ChunkStep(host, s, data);
      k := ChunkInOrder(host, s, stream, data, uid, sends, k);
      assert sends + [] == sends;
  }

  lemma SendStep(host: Order, s: Session, m: Outgoing, handlers: nat)
    requires Framed(s.state)
    ensures var r := Step(host, s, Send(m, handlers));
            r.link == SendMessage(s.link, Packet(host, m)) && r.authenticated == s.authenticated
  {
    hide SendMessage, Packet;
  }

  lemma ChunkStep(host: Order, s: Session, data: bytes)
    requires Framed(s.state)
    ensures Step(host, s, Chunk(data)) == Receive(host, s, data)
  {
    hide Receive;
  }

  lemma OpenedInOrder(required: AuthRequired, uid: nat, throws: set<nat>)
    ensures InOrder(Opened(required, uid, throws).link, false, uid, [], 0)
  {
    hide AuthLine;
    var log := [NUL_OCTET] + [AuthLine(uid)];
    assert log == Greeting(uid) + Negotiations(0);
    assert [AuthLine(uid)][..0] == [] && [NUL_OCTET][..0] == [];
    TotalConcat([NUL_OCTET], [AuthLine(uid)]);
  }

  lemma SendInOrder(link: Link, authenticated: bool, uid: nat, sends: seq<bytes>, k: nat, data: bytes)
    requires InOrder(link, authenticated, uid, sends, k)
    ensures InOrder(SendMessage(link, data), authenticated, uid, sends + [data], k)
  {
    hide AuthLine, Total;
    TotalConcat(link.log, [data]);
    if authenticated {
      assert link.log + [data] == Greeting(uid) + [BEGIN_LINE] + (sends + [data]);
    }
  }

  lemma ChunkInOrder(host: Order, s: Session, stream: bytes, chunk: bytes, uid: nat, sends: seq<bytes>, k: nat)
      returns (more: nat)
    requires Framed(s.state) && HandedOver(host, s, stream) && InOrder(s.link, s.authenticated, uid, sends, k)
    requires (s.required.AuthBasic? ==> k == 0) && (k > 0 ==> FirstLine(stream).Some?)
    ensures var r := Receive(host, s, chunk);
            InOrder(r.link, r.authenticated, uid, sends, more)
    ensures (s.required.AuthBasic? ==> more == 0) && (more > 0 ==> FirstLine(stream + chunk).Some?)
  {
    hide InOrder, Process, FirstLine, ReceiveChunk, Extend, Listen, React;
    FirstLineStays(stream, chunk);
    more := k;
    if !s.lost && !s.authenticated {
      var j := ListenIsByFirstLine(s.required, s.line, s.link, chunk);
      if Listen(s.required, s.line, s.link, chunk).authenticated {
        BeginInOrder(s.link, uid, sends);
      } else {
        NegotiationsInOrder(s.link, uid, sends, k, j);
        more := k + j;
      }
    }
  }

  lemma BeginInOrder(link: Link, uid: nat, sends: seq<bytes>)
    requires InOrder(link, false, uid, sends, 0)
    ensures InOrder(Release(WriteAll(link, [BEGIN_LINE])), true, uid, sends, 0)
  {
    hide AuthLine, Total;
    assert Negotiations(0) == [];
    assert link.log + [BEGIN_LINE] + sends == Greeting(uid) + [BEGIN_LINE] + sends;
    TotalConcat(link.log, [BEGIN_LINE]);
    TotalConcat(link.log + [BEGIN_LINE], sends);
  }

  lemma NegotiationsInOrder(link: Link, uid: nat, sends: seq<bytes>, k: nat, j: nat)
    requires InOrder(link, false, uid, sends, k)
    ensures InOrder(WriteAll(link, Negotiations(j)), false, uid, sends, k + j)
  {
    hide AuthLine, Total;
    NegotiationsAdd(k, j);
    assert Greeting(uid) + Negotiations(k) + Negotiations(j) == Greeting(uid) + (Negotiations(k) + Negotiations(j));
    TotalConcat(link.log, Negotiations(j));
  }

  // ----- a session from the first line to the last reply

  /**
   * A server that accepts the handshake and then sends messages, cut into any chunks and mixed with any sends: the
   * session handles exactly those messages in order, is left waiting for the next one, and has written BEGIN and then
   * all it was given.
   */
  lemma SessionEndToEnd(host: Order, o: Order, uid: nat, throws: set<nat>, accepted: bytes, ms: seq<Outgoing>,
      events: seq<Event>)
    requires FirstLine(accepted) == Some(|accepted|) && StartsWith(accepted, OK_WORD)
    requires forall m | m in ms :: Sendable(m)
    requires StreamOf(events) == accepted + Packets(o, ms)
    ensures var s := Run(host, Opened(AuthBasic, uid, throws), events);
            && s.authenticated && !s.lost && s.state == START && s.cache == []
            && s.handled == Deliveries(ms)
            && s.link.log == Greeting(uid) + [BEGIN_LINE] + SentIn(host, events) && s.link.buffered == []
  {
    hide FirstLine, Process, Packets, Deliveries, Sendable, StreamOf, SentIn, Run, AuthLine;
    var stream := StreamOf(events);
    FirstLineStays(accepted, Packets(o, ms));
    assert accepted[..|accepted|] == accepted;
    assert stream[|accepted|..] == Packets(o, ms);
    HandOver(host, AuthBasic, uid, throws, events);
    var k := SendOrder(host, AuthBasic, uid, throws, events);
    PacketsAreDelivered(host, o, ms);
  }

  // ----- calls and their replies in a run

  /** A handling of the session that is a reply to the serial and whose callback returns. */
  predicate SettlesAt(h: Handling, k: nat, throws: set<nat>, serial: nat) {
    RepliesTo(h, serial) && k !in throws
  }

  lemma {:induction false} TableAfterReplies(history: seq<TableEvent>, hs: seq<Handling>, from: nat, throws: set<nat>,
      serial: nat)
    requires ReplySerialsSet(hs)
    ensures serial in TableAfter(history + RepliesOf(hs, from, throws)).waiting
            <==> serial in TableAfter(history).waiting
                 && forall k :: 0 <= k < |hs| ==> !SettlesAt(hs[k], from + k, throws, serial)
  {
    hide TableAfter;
    if hs == [] {
      assert history + RepliesOf(hs, from, throws) == history;
    } else {
      var n := |hs| - 1;
      var earlier, last := hs[..n], hs[n];
      assert hs == earlier + [last];
      TableAfterReplies(history, earlier, from, throws, serial);
      var before := history + RepliesOf(earlier, from, throws);
      if IsReply(last) {
        var reply := ReplyEvent(last, from + n in throws);
        KeysAfterReply(before, reply);
        assert before + [reply] == history + RepliesOf(hs, from, throws);
      } else {
        assert RepliesOf(hs, from, throws) == RepliesOf(earlier, from, throws);
      }
    }
  }

  lemma KeysAfterReply(history: seq<TableEvent>, reply: TableEvent)
    requires reply.Replied?
    ensures var keys := TableAfter(history).waiting.Keys;
            TableAfter(history + [reply]).waiting.Keys == if reply.throws then keys else keys - {reply.serial}
  {
    assert (history + [reply])[..|history|] == history;
  }

  /** What one chunk adds: some handlings, and their replies to the history. */
  lemma ChunkAdds(host: Order, s: Session, chunk: bytes) returns (added: seq<Handling>)
    requires Framed(s.state)
    ensures Receive(host, s, chunk).handled == s.handled + added
    ensures Receive(host, s, chunk).history.Some? <==> s.history.Some? && ReplySerialsSet(added)
    ensures s.history.Some? && ReplySerialsSet(added) ==>
              Receive(host, s, chunk).history.value == s.history.value + RepliesOf(added, |s.handled|, s.throws)
  {
    hide ReceiveChunk, Listen;
    if s.history.Some? {
      assert s.history.value + RepliesOf([], |s.handled|, s.throws) == s.history.value;
    }
    if s.lost {
      added := [];
    } else if s.authenticated {
      added := ReceiveChunk(host, s.state, s.cache, chunk).handled;
    } else {
      var h := Listen(s.required, s.line, s.link, chunk);
      added := if h.authenticated then ReceiveChunk(host, s.state, s.cache, h.rest).handled else [];
    }
  }

  /**
   * Since `before`, a call with this serial is waiting unless something handled since then was a reply to it and its
   * callback returned.
   */
  ghost predicate WaitingSince(before: seq<Handling>, s: Session, serial: nat)
    requires s.history.Some?
  {
    && before <= s.handled
    && (serial in TableAfter(s.history.value).waiting
        <==> forall k :: |before| <= k < |s.handled| ==> !SettlesAt(s.handled[k], k, s.throws, serial))
  }

  /**
   * In any run, a call that expects a reply is waiting at the end exactly when none of the messages dispatched after it
   * was sent is a return or an error with its serial whose callback returned, provided its serial is not used again
   * later.
   */
  lemma {:induction false} WaitingUntilReplied(host: Order, required: AuthRequired, uid: nat,
                                               throws: set<nat>, events: seq<Event>, i: nat)
    requires i < |events| && events[i].Send? && ReplyExpected(events[i].message)
    requires forall j :: i < j < |events| && events[j].Send? && ReplyExpected(events[j].message) ==>
               events[j].message.serial != events[i].message.serial
    requires Run(host, Opened(required, uid, throws), events).history.Some?
    ensures var s, before := Run(host, Opened(required, uid, throws), events),
      Run(host, Opened(required, uid, throws), events[..i]);
            WaitingSince(before.handled, s, events[i].message.serial)
  {
    hide Receive, WaitingSince, Step;
    var n := |events| - 1;
    var s, serial := Run(host, Opened(required, uid, throws), events[..n]), events[i].message.serial;
    var before := Run(host, Opened(required, uid, throws), events[..i]);
    StepHistory(host, s, events[n]);
    if i == n {
      CallWaits(host, s, events[n]);
    } else {
      assert events[..n][..i] == events[..i];
      WaitingUntilReplied(host, required, uid, throws, events[..n], i);
      match events[n]
      case Send(m, handlers) =>
        SendWaits(host, before.handled, s, events[n], serial);
      case Chunk(data) =>
        ChunkStep(host, s, data);
        ChunkWaits(host, before.handled, s, data, serial);
    }
  }

  lemma StepHistory(host: Order, s: Session, e: Event)
    requires Framed(s.state) && Step(host, s, e).history.Some?
    ensures s.history.Some?
  {
    hide Packet, SendMessage, Receive;
    if e.Chunk? {
      var added := ChunkAdds(host, s, e.data);
    }
  }

  lemma CallWaits(host: Order, s: Session, e: Event)
    requires Framed(s.state) && s.history.Some? && e.Send? && ReplyExpected(e.message)
    ensures Step(host, s, e).history.Some? && WaitingSince(s.handled, Step(host, s, e), e.message.serial)
  {
    hide Packet, SendMessage, SettlesAt;
    SendExtends(e, s.history.value);
  }

  lemma SendWaits(host: Order, before: seq<Handling>, s: Session, e: Event, serial: nat)
    requires Framed(s.state) && s.history.Some? && e.Send? && (ReplyExpected(e.message) ==> e.message.serial != serial)
    requires WaitingSince(before, s, serial)
    ensures Step(host, s, e).history.Some? && WaitingSince(before, Step(host, s, e), serial)
  {
    hide Packet, SendMessage, SettlesAt;
    SendExtends(e, s.history.value);
  }

  lemma ChunkWaits(host: Order, before: seq<Handling>, s: Session, chunk: bytes, serial: nat)
    requires Framed(s.state) && s.history.Some? && WaitingSince(before, s, serial)
    requires Receive(host, s, chunk).history.Some?
    ensures WaitingSince(before, Receive(host, s, chunk), serial)
  {
    hide SettlesAt, TableAfter, RepliesOf, Receive;
    var added := ChunkAdds(host, s, chunk);
    TableAfterReplies(s.history.value, added, |s.handled|, s.throws, serial);
    SettledEarlierOrLater(s.handled, added, |before|, s.throws, serial);
  }

  lemma SettledEarlierOrLater(hs: seq<Handling>, added: seq<Handling>, from: nat, throws: set<nat>, serial: nat)
    requires from <= |hs|
    ensures var all, n := hs + added, |hs|;
            (forall k :: from <= k < |all| ==> !SettlesAt(all[k], k, throws, serial))
            <==> (forall k :: from <= k < n ==> !SettlesAt(hs[k], k, throws, serial))
                 && forall k :: 0 <= k < |added| ==> !SettlesAt(added[k], n + k, throws, serial)
  {
    hide SettlesAt;
    var all, n := hs + added, |hs|;
    if forall k :: from <= k < |all| ==> !SettlesAt(all[k], k, throws, serial) {
      forall k | from <= k < n
        ensures !SettlesAt(hs[k], k, throws, serial)
      {
        assert all[k] == hs[k];
      }
      forall k | 0 <= k < |added|
        ensures !SettlesAt(added[k], n + k, throws, serial)
      {
        assert all[n + k] == added[k];
      }
    } else {
      var k :| from <= k < |all| && SettlesAt(all[k], k, throws, serial);
      assert if k < n then all[k] == hs[k] else all[k] == added[k - n] && k == n + (k - n);
    }
  }

  lemma SendExtends(e: Event, history: seq<TableEvent>)
    requires e.Send?
    ensures var called := Called(e.message.serial, e.handlers);
            TableAfter(history + [called]) == TableAfter(history).After(called)
  {
    var called := Called(e.message.serial, e.handlers);
    assert (history + [called])[..|history|] == history;
  }

  /** The history is there as long as every reply came with a reply serial. */
  lemma {:induction false} HistoryKept(host: Order, required: AuthRequired, uid: nat, throws: set<nat>,
      events: seq<Event>)
    ensures var s := Run(host, Opened(required, uid, throws), events);
            s.history.Some? <==> ReplySerialsSet(s.handled)
  {
    hide Receive, Packet, SendMessage;
    if events != [] {
      var n := |events| - 1;
      HistoryKept(host, required, uid, throws, events[..n]);
      if events[n].Chunk? {
        var s := Run(host, Opened(required, uid, throws), events[..n]);
        var added := ChunkAdds(host, s, events[n].data);
        assert forall h :: h in s.handled + added <==> h in s.handled || h in added;
      }
    }
  }

  predicate Answers(m: Outgoing, serial: nat) {
    (m.MethodReturn? || m.Error?) && m.replySerial == serial
  }

  lemma ArrivalReplies(m: Outgoing, serial: nat)
    requires SerialsOk(m)
    ensures RepliesTo(Arrival(m), serial) <==> Answers(m, serial)
    ensures IsReply(Arrival(m)) ==> Arrival(m).message.replySerial.Some?
  {}

  /**
   * The circle closed: the peer's returns and errors, marshalled, cut into chunks and received, settle exactly the
   * calls they answer. A call is still waiting at the end if and only if none of the messages that arrived after it
   * was sent is a return or an error for its serial whose callback returned.
   */
  lemma CallsAreAnswered(host: Order, o: Order, uid: nat, throws: set<nat>, accepted: bytes, ms: seq<Outgoing>,
                         events: seq<Event>, i: nat)
    requires FirstLine(accepted) == Some(|accepted|) && StartsWith(accepted, OK_WORD)
    requires forall m | m in ms :: Sendable(m) && SerialsOk(m)
    requires StreamOf(events) == accepted + Packets(o, ms)
    requires i < |events| && events[i].Send? && ReplyExpected(events[i].message)
    requires forall j :: i < j < |events| && events[j].Send? && ReplyExpected(events[j].message) ==>
               events[j].message.serial != events[i].message.serial
    ensures var s := Run(host, Opened(AuthBasic, uid, throws), events);
            var before, serial := Run(host, Opened(AuthBasic, uid, throws), events[..i]), events[i].message.serial;
            && s.history.Some? && |before.handled| <= |ms|
            && (serial in TableAfter(s.history.value).waiting
                <==> forall k :: |before.handled| <= k < |ms| && k !in throws ==> !Answers(ms[k], serial))
  {
    hide FirstLine, Process, Packets, Deliveries, Sendable, StreamOf, Run, Arrival, Answers, RepliesTo, Expected,
      SerialsOk, TableAfter;
    var s := Run(host, Opened(AuthBasic, uid, throws), events);
    var before, serial := Run(host, Opened(AuthBasic, uid, throws), events[..i]), events[i].message.serial;
    SessionEndToEnd(host, o, uid, throws, accepted, ms, events);
    ArrivalsInOrder(ms);
    forall k | 0 <= k < |ms|
      ensures RepliesTo(s.handled[k], serial) <==> Answers(ms[k], serial)
      ensures IsReply(s.handled[k]) ==> s.handled[k].message.replySerial.Some?
    {
      ArrivalReplies(ms[k], serial);
    }
    HistoryKept(host, AuthBasic, uid, throws, events);
    WaitingUntilReplied(host, AuthBasic, uid, throws, events, i);
  }

  lemma {:induction false} ArrivalsInOrder(ms: seq<Outgoing>)
    ensures |Deliveries(ms)| == |ms| && forall k :: 0 <= k < |ms| ==> Deliveries(ms)[k] == Arrival(ms[k])
  {
    hide Arrival;
    if ms != [] {
      ArrivalsInOrder(ms[1..]);
    }
  }

  // ----- distinct serials

  /** No two calls of the run that expect a reply have the same serial. */
  predicate CallSerialsDistinct(events: seq<Event>) {
    forall i, j :: 0 <= i < j < |events| && events[i].Send? && events[j].Send?
                   && ReplyExpected(events[i].message) && ReplyExpected(events[j].message) ==>
      events[i].message.serial != events[j].message.serial
  }

  /** The event sends a call that expects a reply, under this serial. */
  predicate Calls(e: Event, serial: nat) {
    e.Send? && ReplyExpected(e.message) && e.message.serial == serial
  }

  ghost predicate CallsAmong(history: seq<TableEvent>, events: seq<Event>) {
    forall k :: 0 <= k < |history| && history[k].Called? ==>
      exists i :: 0 <= i < |events| && Calls(events[i], history[k].serial)
  }

  /**
   * Then every call is waiting or answered, and answered at most once: what is proved of unambiguous histories holds
   * of the run.
   */
  lemma {:induction false} RunIsUnambiguous(host: Order, required: AuthRequired, uid: nat, throws: set<nat>,
      events: seq<Event>)
    requires CallSerialsDistinct(events) && Run(host, Opened(required, uid, throws), events).history.Some?
    ensures var history := Run(host, Opened(required, uid, throws), events).history.value;
            Unambiguous(history) && CallsAmong(history, events)
  {
    hide Receive, Packet, SendMessage, Unambiguous, CallsAmong;
    if events == [] {
      NoHistory();
    } else {
      var n := |events| - 1;
      var s := Run(host, Opened(required, uid, throws), events[..n]);
      assert events[..n] + [events[n]] == events;
      match events[n]
      case Send(m, handlers) =>
        RunIsUnambiguous(host, required, uid, throws, events[..n]);
        CallsAmongMore(s.history.value, events[..n], events[n]);
        if ReplyExpected(m) {
          CallAdded(s.history.value, events, Called(m.serial, handlers));
        }
      case Chunk(data) =>
        var added := ChunkAdds(host, s, data);
        RunIsUnambiguous(host, required, uid, throws, events[..n]);
        CallsAmongMore(s.history.value, events[..n], events[n]);
        RepliesAdded(s.history.value, added, |s.handled|, throws, events);
    }
  }

  lemma NoHistory()
    ensures Unambiguous([]) && CallsAmong([], [])
  {}

  lemma CallsAmongMore(history: seq<TableEvent>, events: seq<Event>, e: Event)
    requires CallsAmong(history, events)
    ensures CallsAmong(history, events + [e])
  {
    var more := events + [e];
    forall k | 0 <= k < |history| && history[k].Called?
      ensures exists i :: 0 <= i < |more| && Calls(more[i], history[k].serial)
    {
      var i :| 0 <= i < |events| && Calls(events[i], history[k].serial);
      assert more[i] == events[i];
    }
  }

  lemma {:induction false} RepliesAdded(history: seq<TableEvent>, hs: seq<Handling>, from: nat, throws: set<nat>,
                                        events: seq<Event>)
    requires ReplySerialsSet(hs) && Unambiguous(history) && CallsAmong(history, events)
    ensures var all := history + RepliesOf(hs, from, throws);
            Unambiguous(all) && CallsAmong(all, events)
  {
    hide Unambiguous;
    if hs == [] {
      assert history + RepliesOf(hs, from, throws) == history;
    } else {
      var n := |hs| - 1;
      RepliesAdded(history, hs[..n], from, throws, events);
      var before := history + RepliesOf(hs[..n], from, throws);
      if IsReply(hs[n]) {
        var e := ReplyEvent(hs[n], from + n in throws);
        assert history + RepliesOf(hs, from, throws) == before + [e];
        UnambiguousAfter(before, e);
      } else {
        assert RepliesOf(hs, from, throws) == RepliesOf(hs[..n], from, throws);
      }
    }
  }

  lemma CallAdded(history: seq<TableEvent>, events: seq<Event>, call: TableEvent)
    requires events != [] && CallSerialsDistinct(events) && Unambiguous(history)
    requires CallsAmong(history, events[..|events| - 1]) && CallsAmong(history, events)
    requires var last := events[|events| - 1];
             last.Send? && ReplyExpected(last.message) && call.Called? && call.serial == last.message.serial
    ensures Unambiguous(history + [call]) && CallsAmong(history + [call], events)
  {
    hide Unambiguous;
    UnambiguousAfter(history, call);
    var n := |events| - 1;
    forall k | 0 <= k < |history| && history[k].Called?
      ensures history[k].serial != call.serial
    {
      var i :| 0 <= i < n && Calls(events[..n][i], history[k].serial);
      assert events[..n][i] == events[i];
    }
  }

  /**
   * Where the distinct serials come from: messages made one after another and numbered by the counter, fewer than 2^32
   * of them automatically, then sent in any order but each at most once.
   */
  lemma AutomaticCallsDistinct(events: seq<Event>, requests: seq<nat>, given: seq<nat>, made: seq<nat>)
    requires Numbered(requests, given) && Draws(requests) < WORD_LIMIT
    requires |made| == |events|
    requires forall i :: 0 <= i < |events| && events[i].Send? && ReplyExpected(events[i].message) ==>
               made[i] < |given| && requests[made[i]] == 0 && events[i].message.serial == given[made[i]]
    requires forall i, j :: 0 <= i < j < |events| && events[i].Send? && events[j].Send? ==> made[i] != made[j]
    ensures CallSerialsDistinct(events)
  {
    forall i, j | 0 <= i < j < |events| && events[i].Send? && events[j].Send?
                  && ReplyExpected(events[i].message) && ReplyExpected(events[j].message)
      ensures events[i].message.serial != events[j].message.serial
    {
      if made[i] < made[j] {
        AutomaticSerialsDiffer(requests, given, made[i], made[j]);
      } else {
        AutomaticSerialsDiffer(requests, given, made[j], made[i]);
      }
    }
  }
}
