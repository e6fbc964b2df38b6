/** The sending side as it runs: serial numbers, the field arrays built by repeated `add`, and `marshallMessage`. */
module MessageWriting {
  import opened Octets
  import opened Values
  import opened Marshalling
  import opened OutputStreams
  import opened Messages

  /** `m_SerialCounter`, a 32-bit counter shared by all messages. */
  class SerialCounter {
    var counter: nat

    ghost predicate Valid()
      reads this
    {
      counter < WORD_LIMIT
    }

    constructor ()
      ensures Valid() && counter == 1
    {
      counter := 1;
    }

    /** The serial of a new message: the one asked for, or the next one when that is zero. */
    method Assign(serial: nat) returns (given: nat)
      requires Valid() && serial < WORD_LIMIT
      modifies this
      ensures Valid()
      ensures serial != 0 ==> given == serial && counter == old(counter)
      ensures serial == 0 ==> given == old(counter) && counter == (old(counter) + 1) % WORD_LIMIT
    {
      if serial != 0 {
        return serial;
      }
      given := counter;
      counter := (counter + 1) % WORD_LIMIT;
    }
  }

  /** The counter after n automatically numbered messages: the serial of the next one. */
  function AutomaticSerial(n: nat): nat {
    if n == 0 then 1 else (AutomaticSerial(n - 1) + 1) % WORD_LIMIT
  }

  /** How many of the messages asked for no serial of their own. */
  function Draws(requests: seq<nat>): nat {
    if requests == [] then 0 else Draws(requests[..|requests| - 1]) + if requests[|requests| - 1] == 0 then 1 else 0
  }

  /** The serials of messages made one after another, each with the serial it asked for, or zero. */
  method AssignMany(serials: SerialCounter, requests: seq<nat>) returns (given: seq<nat>)
    requires serials.Valid() && serials.counter == 1 && forall r | r in requests :: r < WORD_LIMIT
    modifies serials
    ensures Numbered(requests, given)
  {
    hide Numbered, Draws, AutomaticSerial;
    given := [];
    NumberedNone();
    for i := 0 to |requests|
      invariant serials.Valid() && serials.counter == AutomaticSerial(Draws(requests[..i]))
      invariant |given| == i && Numbered(requests[..i], given)
    {
      assert requests[i] in requests;
      var serial := serials.Assign(requests[i]);
      NumberedNext(requests[..i], given, requests[i], serial);
      assert requests[..i + 1] == requests[..i] + [requests[i]];
      given := given + [serial];
    }
    assert requests[..|requests|] == requests;
  }

  /** Explicit serials are kept; the others are numbered by how many automatic ones came before. */
  ghost predicate Numbered(requests: seq<nat>, given: seq<nat>) {
    && |given| == |requests|
    && forall i :: 0 <= i < |given| ==>
         given[i] == if requests[i] != 0 then requests[i] else AutomaticSerial(Draws(requests[..i]))
  }

  lemma NumberedNone()
    ensures Numbered([], []) && AutomaticSerial(Draws([])) == 1
  {}

  /** The next one draws from the counter or leaves it. */
  lemma NumberedNext(requests: seq<nat>, given: seq<nat>, request: nat, serial: nat)
    requires Numbered(requests, given)
    requires serial == if request != 0 then request else AutomaticSerial(Draws(requests))
    ensures Numbered(requests + [request], given + [serial])
    ensures AutomaticSerial(Draws(requests + [request]))
         == var next := AutomaticSerial(Draws(requests));
            if request == 0 then (next + 1) % WORD_LIMIT else next
  {
    var all := requests + [request];
    assert all[..|requests|] == requests;
    forall i | 0 <= i < |requests|
      ensures all[..i] == requests[..i]
    {
    }
  }

  lemma {:induction false} SerialBeforeWrap(n: nat)
    requires n < WORD_LIMIT
    ensures AutomaticSerial(n) == (n + 1) % WORD_LIMIT
  {
    if n > 0 {
      SerialBeforeWrap(n - 1);
    }
  }

  /** The first 2^32 - 1 serials are distinct and not zero; the next one is zero. */
  lemma SerialsDistinct()
    ensures forall i, j :: 0 <= i < j < WORD_LIMIT - 1 ==> AutomaticSerial(i) != AutomaticSerial(j)
    ensures forall i :: 0 <= i < WORD_LIMIT - 1 ==> AutomaticSerial(i) != 0
    ensures AutomaticSerial(WORD_LIMIT - 1) == 0
  {
    forall i | 0 <= i < WORD_LIMIT
      ensures AutomaticSerial(i) == (i + 1) % WORD_LIMIT
    {
      SerialBeforeWrap(i);
    }
  }

  lemma {:induction false} DrawsGrow(requests: seq<nat>, i: nat, j: nat)
    requires i < j <= |requests| && requests[i] == 0
    ensures Draws(requests[..i]) < Draws(requests[..j]) <= Draws(requests)
    decreases |requests| - i, |requests|
  {
    var n := |requests| - 1;
    if j == |requests| {
      assert requests[..j] == requests;
      if i < n {
        assert requests[..n][..i] == requests[..i] && requests[..n][..n] == requests[..n];
        DrawsGrow(requests[..n], i, n);
      }
    } else {
      assert requests[..n][..i] == requests[..i] && requests[..n][..j] == requests[..j];
      DrawsGrow(requests[..n], i, j);
    }
  }

  /** Messages that asked for no serial got different ones, as long as there were fewer than 2^32 of them. */
  lemma AutomaticSerialsDiffer(requests: seq<nat>, given: seq<nat>, i: nat, j: nat)
    requires Numbered(requests, given) && Draws(requests) < WORD_LIMIT
    requires i < j < |requests| && requests[i] == 0 && requests[j] == 0
    ensures given[i] != given[j] && given[i] != 0
  {
    hide AutomaticSerial;
    DrawsGrow(requests, i, j);
    DrawsGrow(requests, j, j + 1);
    assert Draws(requests[..j]) < Draws(requests[..j + 1]) <= Draws(requests);
    SerialsDistinct();
  }

  // ----- `marshallMessage`

  method MarshallMessage(o: Order, kind: byte, flags: byte, serial: nat, fields: seq<Value>, parameters: seq<Value>)
      returns (data: bytes)
    ensures data == Assemble(o, kind, flags, serial, fields, parameters)
  {
    hide MarshallAll, Word, Padding;
    var header := new MessageOStream(o);
    var body := new MessageOStream(o);
    header.WriteByte(Flag(o));
    header.WriteByte(kind);
    header.WriteByte(flags);
    header.WriteByte(1);
    assert header.data == [Flag(o), kind, flags, 1];

    MarshallContents(parameters, body);
    WriteHeaderWord(header, |body.data|);
    WriteHeaderWord(header, serial);

    var headerFields := new MessageOStream(o);
    MarshallContents(fields, headerFields);
    WriteHeaderWord(header, |headerFields.data|);
    assert header.data == FixedHeader(o, kind, flags, |body.data|, serial, |headerFields.data|);

    data := JoinStreams(header, headerFields, body);
  }

  /** The packet: header, fields, padding to eight, body. */
  method JoinStreams(header: MessageOStream, headerFields: MessageOStream, body: MessageOStream) returns (data: bytes)
    ensures var front := header.data + headerFields.data;
            data == front + Zeros(Padding(8, |front|)) + body.data
  {
    hide Padding;
    var packet := new MessageOStream(header.order);
    packet.Write(header.data);
    packet.Write(headerFields.data);
    packet.Pad(8);
    packet.Write(body.data);
    return packet.data;
  }

  /** A word written on a 4-byte boundary needs no padding. */
  method WriteHeaderWord(header: MessageOStream, v: nat)
    requires |header.data| % 4 == 0
    modifies header
    ensures header.data == old(header.data) + Word(header.order, v % WORD_LIMIT, 4)
  {
    PaddingFacts(4, |header.data|);
    header.WriteWord(v % WORD_LIMIT, 4);
    assert Zeros(0) + Word(header.order, v % WORD_LIMIT, 4) == Word(header.order, v % WORD_LIMIT, 4);
  }

  // ----- the kinds of message

  /** `array.add` of a struct with a field code and a variant. */
  method AddField(fields: seq<Value>, ghost entries: seq<Entry>, code: byte, content: BasicValue)
      returns (more: seq<Value>)
    requires fields == Fields(entries)
    ensures more == Fields(entries + [Entry(code, content)])
  {
    var field := Struct([Plain(Byte(code)), Variant([BasicCode(content)], Plain(content))]);
    more := fields + [field];
    FieldsConcat(entries, [Entry(code, content)]);
    assert [Entry(code, content)][1..] == [];
    assert Fields([Entry(code, content)]) == [field] + Fields([Entry(code, content)][1..]);
  }

  lemma {:induction false} FieldsConcat(a: seq<Entry>, b: seq<Entry>)
    ensures Fields(a + b) == Fields(a) + Fields(b)
  {
    if a == [] {
      assert a + b == b;
    } else {
      assert (a + b)[1..] == a[1..] + b;
      FieldsConcat(a[1..], b);
    }
  }

  /** The signature field, added when there are parameters. */
  method AddSignature(fields: seq<Value>, ghost entries: seq<Entry>, parameters: seq<Value>) returns (more: seq<Value>)
    requires fields == Fields(entries)
    ensures more == Fields(entries + SignatureEntry(parameters))
  {
    if parameters != [] {
      more := AddField(fields, entries, HEADER_SIGNATURE, Signature(SignatureOfAll(parameters)));
    } else {
      assert entries + [] == entries;
      more := fields;
    }
  }

  method MarshallCall(o: Order, m: Outgoing) returns (data: bytes)
    requires m.MethodCall?
    ensures data == Packet(o, m)
  {
    hide Fields, Assemble, SignatureEntry;
    FieldsOfNothing();
    var fields := AddField([], [], HEADER_PATH, ObjectPath(m.path));
    ghost var es := [] + [Entry(HEADER_PATH, ObjectPath(m.path))];
    fields := AddField(fields, es, HEADER_DESTINATION, String(m.destination));
    es := es + [Entry(HEADER_DESTINATION, String(m.destination))];
    fields := AddField(fields, es, HEADER_INTERFACE, String(m.interface));
    es := es + [Entry(HEADER_INTERFACE, String(m.interface))];
    fields := AddField(fields, es, HEADER_MEMBER, String(m.member));
    es := es + [Entry(HEADER_MEMBER, String(m.member))];
    fields := AddSignature(fields, es, m.parameters);
    assert es + SignatureEntry(m.parameters) == Entries(m);
    data := MarshallMessage(o, TYPE_METHOD_CALL, m.WireFlags(), m.serial, fields, m.parameters);
  }

  method MarshallReturn(o: Order, m: Outgoing) returns (data: bytes)
    requires m.MethodReturn?
    ensures data == Packet(o, m)
  {
    hide Fields, Assemble, SignatureEntry;
    FieldsOfNothing();
    var fields := AddField([], [], HEADER_DESTINATION, String(m.destination));
    ghost var es := [] + [Entry(HEADER_DESTINATION, String(m.destination))];
    fields := AddField(fields, es, HEADER_REPLY_SERIAL, Fixed(Uint32, m.replySerial));
    es := es + [Entry(HEADER_REPLY_SERIAL, Fixed(Uint32, m.replySerial))];
    fields := AddSignature(fields, es, m.parameters);
    assert es + SignatureEntry(m.parameters) == Entries(m);
    data := MarshallMessage(o, TYPE_METHOD_RETURN, 0, m.serial, fields, m.parameters);
  }

  method MarshallError(o: Order, m: Outgoing) returns (data: bytes)
    requires m.Error?
    ensures data == Packet(o, m)
  {
    hide Fields, Assemble, SignatureEntry;
    FieldsOfNothing();
    var parameters := [Plain(String(m.message))];
    var fields := AddField([], [], HEADER_DESTINATION, String(m.destination));
    ghost var es := [] + [Entry(HEADER_DESTINATION, String(m.destination))];
    fields := AddField(fields, es, HEADER_ERROR_NAME, String(m.name));
    es := es + [Entry(HEADER_ERROR_NAME, String(m.name))];
    fields := AddField(fields, es, HEADER_REPLY_SERIAL, Fixed(Uint32, m.replySerial));
    es := es + [Entry(HEADER_REPLY_SERIAL, Fixed(Uint32, m.replySerial))];
    fields := AddSignature(fields, es, parameters);
    assert es + SignatureEntry(parameters) == Entries(m);
    data := MarshallMessage(o, TYPE_ERROR, 0, m.serial, fields, parameters);
  }

  method MarshallSignal(o: Order, m: Outgoing) returns (data: bytes)
    requires m.Signal?
    ensures data == Packet(o, m)
  {
    hide Fields, Assemble, SignatureEntry;
    FieldsOfNothing();
    var fields := AddField([], [], HEADER_PATH, ObjectPath(m.path));
    ghost var es := [] + [Entry(HEADER_PATH, ObjectPath(m.path))];
    if m.destination != [] {
      fields := AddField(fields, es, HEADER_DESTINATION, String(m.destination));
      es := es + [Entry(HEADER_DESTINATION, String(m.destination))];
    }
    fields := AddField(fields, es, HEADER_INTERFACE, String(m.interface));
    es := es + [Entry(HEADER_INTERFACE, String(m.interface))];
    fields := AddField(fields, es, HEADER_MEMBER, String(m.member));
    es := es + [Entry(HEADER_MEMBER, String(m.member))];
    fields := AddSignature(fields, es, m.parameters);
    assert es + SignatureEntry(m.parameters) == Entries(m);
    data := MarshallMessage(o, TYPE_SIGNAL, 0, m.serial, fields, m.parameters);
  }

  lemma FieldsOfNothing()
    ensures Fields([]) == []
  {}
}
