/** End to end: the messages one host sends are the messages another receives, however the bytes travel. */
module Delivery {
  import opened Octets
  import opened Signatures
  import opened Values
  import opened Marshalling
  import opened Unmarshalling
  import opened RoundTrips
  import opened Numerals
  import opened Messages
  import opened Receiving
  import opened Protocol

  /** The parts of a packet, as they lie one after another. */
  ghost predicate Parts(o: Order, m: Outgoing, header: bytes, gap: bytes, body: bytes) {
    && body == MarshallAll(o, m.Parameters(), 0)
    && header == Marshall(o, Struct(SentHeader(o, m)), 0)
    && |header| == 16 + SizeAll(HeaderFields(m), 0)
    && header[0] == Flag(o)
    && header[12..16] == Word(o, SizeAll(HeaderFields(m), 0), 4)
    && gap == Zeros(Padding(8, |header|))
    && Packet(o, m) == header + gap + body
  }

  /** The header values a sender writes. */
  function SentHeader(o: Order, m: Outgoing): seq<Value> {
    HeaderValues(o, m.TypeCode(), m.WireFlags(), |MarshallAll(o, m.Parameters(), 0)|, m.serial, HeaderFields(m))
  }

  lemma PacketParts(o: Order, m: Outgoing) returns (header: bytes, gap: bytes, body: bytes)
    requires Framable(m)
    ensures Parts(o, m, header, gap, body)
    ensures |body| == SizeAll(m.Parameters(), 0)
  {
    hide MarshallAll, Marshall, Padding, Word, HeaderFields, EntriesOk, ParametersOk, AllHaveType, HeaderSize, Size,
      SizeAll, Entries;
    var fields := HeaderFields(m);
    FieldsOfEntries(m);
    FieldsSound(Entries(m), 0);
    SizeAllAnyOrder(o, fields, 0);
    SizeAllAnyOrder(o, m.Parameters(), 0);
    body := MarshallAll(o, m.Parameters(), 0);
    var fieldBytes := MarshallAll(o, fields, 0);
    HeaderMarshalls(o, m.TypeCode(), m.WireFlags(), |body|, m.serial, fields);
    header := FixedHeader(o, m.TypeCode(), m.WireFlags(), |body|, m.serial, |fieldBytes|) + fieldBytes;
    gap := Zeros(Padding(8, |header|));
  }

  /** The sender's header is a value the round trip holds for, and already normal. */
  lemma SentHeaderReady(o: Order, m: Outgoing)
    requires Framable(m)
    ensures Ready(Struct(SentHeader(o, m)), StructOf(HEADER_TYPES), 0)
    ensures Normal(Struct(SentHeader(o, m))) == Struct(SentHeader(o, m))
  {
    hide MarshallAll, HeaderFields, Fields, EntriesOk, ParametersOk, Ready, NormalAll, Entries, HeaderValues, SizeAll;
    FieldsOfEntries(m);
    SizeAllAnyOrder(o, HeaderFields(m), 0);
    SizeAllAnyOrder(o, m.Parameters(), 0);
    HeaderReady(o, m.TypeCode(), m.WireFlags(), |MarshallAll(o, m.Parameters(), 0)|, m.serial, Entries(m));
  }

  /** The receiver unmarshals the sender's header from the frame it cut. */
  lemma HeaderArrives(o: Order, m: Outgoing, header: bytes, gap: bytes, body: bytes)
    requires Framable(m) && Parts(o, m, header, gap, body)
    ensures UnmarshallStruct(o, HEADER_SIGNATURE_TEXT, header + gap, 0) == Ok(Struct(SentHeader(o, m)), |header|)
  {
    hide SentHeader, Ready, Decode, Normal, UnmarshallStruct, Parts, Marshall, Framable, WellFormed, Print;
    var t := StructOf(HEADER_TYPES);
    var v := Struct(SentHeader(o, m));
    HeaderOfParts(o, m, header, gap, body);
    SentHeaderReady(o, m);
    assert Holds(header + gap, 0, Marshall(o, v, 0));
    RoundTrip(o, v, t, header + gap, 0);
    HeaderTypeText();
    SignatureDrivenIsTypeDriven(o, t, header + gap, 0);
    StructDispatch(o, HEADER_SIGNATURE_TEXT, header + gap, 0);
  }

  lemma HeaderTypeText()
    ensures WellFormed(StructOf(HEADER_TYPES)) && HEADER_SIGNATURE_TEXT != [] && HEADER_SIGNATURE_TEXT[0] == OPEN_STRUCT
  {
    FieldTypesText();
  }

  lemma FieldsOfEntries(m: Outgoing)
    ensures HeaderFields(m) == Fields(Entries(m))
  {}

  lemma HeaderOfParts(o: Order, m: Outgoing, header: bytes, gap: bytes, body: bytes)
    requires Parts(o, m, header, gap, body)
    ensures header == Marshall(o, Struct(SentHeader(o, m)), 0)
  {}

  /** What the receiver makes of a packet, sound or not. */
  function HandledAs(o: Order, m: Outgoing): Handling {
    Handle(SentHeader(o, m), MarshallAll(o, m.Parameters(), 0))
  }

  /**
   * Framing does not depend on the parameters: whatever their layout, a packet at the front of the stream is taken
   * whole and nothing more, unless handling it leaves the model; what follows is processed as if it came first.
   */
  lemma PacketIsFramed(host: Order, o: Order, m: Outgoing, rest: bytes)
    requires Framable(m) && WithinLimits(m)
    ensures var p, handling := Process(host, START, Packet(o, m) + rest), HandledAs(o, m);
            if handling.Unknown? then p.handled == [] && p.status == Stuck
            else p == Process(host, START, rest).After([handling])
  {
    var header, gap, body := PacketParts(o, m);
    FlagTellsOrder(host, o);
    WordLimit();
    WordRoundTrip(o, SizeAll(HeaderFields(m), 0), 4);
    HeaderArrives(o, m, header, gap, body);
    WordSurvives(|body|);
    PacketFrames(host, o, m, header, gap, body, rest);
  }

  /** A packet at the front of the stream is handled as the message it was made from, and nothing more is taken. */
  lemma PacketIsDelivered(host: Order, o: Order, m: Outgoing, rest: bytes)
    requires Sendable(m)
    ensures Process(host, START, Packet(o, m) + rest) == Process(host, START, rest).After([Arrival(m)])
  {
    hide Process, Framable, ParametersOk, WithinLimits, Packet, Handle;
    HandledAsSent(o, m);
    PacketIsFramed(host, o, m, rest);
  }

  lemma PacketFrames(host: Order, o: Order, m: Outgoing, header: bytes, gap: bytes, body: bytes, rest: bytes)
    requires Parts(o, m, header, gap, body)
    requires var n := SizeAll(HeaderFields(m), 0);
             && n <= MAX_ARRAY_SIZE && HeaderSize(n) + |body| <= MAX_MESSAGE_SIZE
             && WordValue(o, Word(o, n, 4)) == n
    requires HeaderOrder(host, Flag(o)) == o
    requires UnmarshallStruct(o, HEADER_SIGNATURE_TEXT, header + gap, 0) == Ok(Struct(SentHeader(o, m)), |header|)
    requires NumberOf(Plain(Fixed(Uint32, |body|)), WORD_LIMIT) == Success(|body|)
    ensures var p, handling := Process(host, START, Packet(o, m) + rest), Handle(SentHeader(o, m), body);
            if handling.Unknown? then p.handled == [] && p.status == Stuck
            else p == Process(host, START, rest).After([handling])
  {
    hide MarshallAll, Marshall, Padding, Word, WordValue, HeaderFields, UnmarshallStruct, Handle, NumberOf, Process,
      Packet, Expected, HeaderOrder;
    var n := SizeAll(HeaderFields(m), 0);
    var buffer := Packet(o, m) + rest;
    var frame := header + gap;
    assert |frame| == HeaderSize(n);
    assert buffer == frame + (body + rest);
    assert buffer[0] == header[0] && buffer[12..16] == header[12..16];
    SizeTurn(host, START, buffer);
    var sized := State(UnmarshallHeader, HeaderSize(n), 0, []);
    assert SizeStep(host, START, buffer) == Success(sized);
    assert buffer[..HeaderSize(n)] == frame && buffer[HeaderSize(n)..] == body + rest;
    HeaderTurn(host, sized, buffer);
    var read := State(GetBody, HeaderSize(n), |body|, SentHeader(o, m));
    assert [] + SentHeader(o, m) == SentHeader(o, m);
    assert HeaderStep(host, sized, buffer) == Success(read);
    assert (body + rest)[..|body|] == body && (body + rest)[|body|..] == rest;
    BodyTurn(host, read, body + rest);
  }

  /** A packet over the limits stops the receiver with an exception before anything of it is handled. */
  lemma OversizePacketThrows(host: Order, o: Order, m: Outgoing, rest: bytes)
    requires Framable(m) && !WithinLimits(m)
    ensures Process(host, START, Packet(o, m) + rest).handled == []
    ensures Process(host, START, Packet(o, m) + rest).status == Threw
  {
    var header, gap, body := PacketParts(o, m);
    FlagTellsOrder(host, o);
    WordLimit();
    WordRoundTrip(o, SizeAll(HeaderFields(m), 0), 4);
    WordSurvives(|body|);
    HeaderArrives(o, m, header, gap, body);
    OversizeFrames(host, o, m, header, gap, body, rest);
  }

  lemma OversizeFrames(host: Order, o: Order, m: Outgoing, header: bytes, gap: bytes, body: bytes, rest: bytes)
    requires Parts(o, m, header, gap, body)
    requires WordValue(o, Word(o, SizeAll(HeaderFields(m), 0), 4)) == SizeAll(HeaderFields(m), 0)
    requires HeaderOrder(host, Flag(o)) == o
    requires UnmarshallStruct(o, HEADER_SIGNATURE_TEXT, header + gap, 0) == Ok(Struct(SentHeader(o, m)), |header|)
    requires NumberOf(Plain(Fixed(Uint32, |body|)), WORD_LIMIT)
          == if |body| < INT_LIMIT then Success(|body|) else Exception
    requires SizeAll(HeaderFields(m), 0) > MAX_ARRAY_SIZE ||
      HeaderSize(SizeAll(HeaderFields(m), 0)) + |body| > MAX_MESSAGE_SIZE
    ensures Process(host, START, Packet(o, m) + rest).handled == []
    ensures Process(host, START, Packet(o, m) + rest).status == Threw
  {
    hide MarshallAll, Marshall, Padding, Word, WordValue, HeaderFields, UnmarshallStruct, NumberOf, Process, Packet,
      HeaderOrder;
    var n := SizeAll(HeaderFields(m), 0);
    var buffer := Packet(o, m) + rest;
    var frame := header + gap;
    assert |frame| == HeaderSize(n);
    assert buffer == frame + (body + rest);
    assert buffer[0] == header[0] && buffer[12..16] == header[12..16];
    SizeTurn(host, START, buffer);
    if n <= MAX_ARRAY_SIZE {
      var sized := State(UnmarshallHeader, HeaderSize(n), 0, []);
      assert SizeStep(host, START, buffer) == Success(sized);
      assert buffer[..HeaderSize(n)] == frame;
      HeaderTurn(host, sized, buffer);
      assert HeaderStep(host, sized, buffer) == Exception;
    }
  }

  // ----- streams of messages

  function Packets(o: Order, ms: seq<Outgoing>): bytes {
    if ms == [] then [] else Packet(o, ms[0]) + Packets(o, ms[1..])
  }

  function Deliveries(ms: seq<Outgoing>): seq<Handling> {
    if ms == [] then [] else [Arrival(ms[0])] + Deliveries(ms[1..])
  }

  lemma {:induction false} PacketsAreDelivered(host: Order, o: Order, ms: seq<Outgoing>)
    requires forall m | m in ms :: Sendable(m)
    ensures Process(host, START, Packets(o, ms)) == Progress(Deliveries(ms), START, [], Waiting)
  {
    hide Process, Packet, Sendable;
    if ms == [] {
      ShortBufferWaits(host, START, []);
    } else {
      PacketIsDelivered(host, o, ms[0], Packets(o, ms[1..]));
      PacketsAreDelivered(host, o, ms[1..]);
    }
  }

  function Handlings(o: Order, ms: seq<Outgoing>): seq<Handling> {
    if ms == [] then [] else [HandledAs(o, ms[0])] + Handlings(o, ms[1..])
  }

  /** Packets with unsound parameters among them do not disturb the others. */
  lemma {:induction false} PacketsAreFramed(host: Order, o: Order, ms: seq<Outgoing>)
    requires forall m | m in ms :: Framable(m) && WithinLimits(m) && !HandledAs(o, m).Unknown?
    ensures Process(host, START, Packets(o, ms)) == Progress(Handlings(o, ms), START, [], Waiting)
  {
    hide Process, Packet, Framable, WithinLimits, HandledAs;
    if ms == [] {
      ShortBufferWaits(host, START, []);
    } else {
      PacketIsFramed(host, o, ms[0], Packets(o, ms[1..]));
      PacketsAreFramed(host, o, ms[1..]);
    }
  }

  /**
   * Any list of sendable messages, marshalled on a host of either order and cut into any chunks, arrives on a host of
   * either order as exactly those messages, in order, once each, without the ones whose serials do not fit;
   * nothing stays cached and the next message is awaited.
   */
  lemma EndToEnd(host: Order, o: Order, ms: seq<Outgoing>, chunks: seq<bytes>)
    requires forall m | m in ms :: Sendable(m)
    requires Flatten(chunks) == Packets(o, ms)
    ensures ReceiveAll(host, START, [], chunks) == Progress(Deliveries(ms), START, [], Waiting)
  {
    hide Process, ReceiveAll, Packets, Sendable;
    PacketsAreDelivered(host, o, ms);
    ChunkingInvariance(host, START, [], chunks);
    assert [] + Flatten(chunks) == Flatten(chunks);
  }

  /** With serials below 2^31 every message is dispatched just as it was sent. */
  lemma {:induction false} AllDispatched(ms: seq<Outgoing>)
    requires forall m | m in ms :: SerialsOk(m)
    ensures |Deliveries(ms)| == |ms|
    ensures forall i :: 0 <= i < |ms| ==> Deliveries(ms)[i] == Dispatched(Expected(ms[i]))
  {
    hide Expected;
    if ms != [] {
      AllDispatched(ms[1..]);
    }
  }
}
