/**
 * Whole packets byte by byte, for each kind of message, with the codes and letters of the D-Bus Specification written
 * out.
 */
module PacketBytes {
  import opened Octets
  import opened Signatures
  import opened Values
  import opened Marshalling
  import opened Messages
  import opened Receiving
  import opened WireBytes

  // ----- header fields

  const LIMIT: nat := 0x1_0000_0000

  /** A field that holds a text of the type with this letter. */
  function TextField(o: Order, code: byte, letter: char, text: bytes): bytes
    requires letter as int < 256
  {
    [code, 1, letter as int, 0] + NumberBytes(o, |text| % LIMIT, 4) + text + [0]
  }

  function NumberField(o: Order, code: byte, n: nat): bytes {
    [code, 1, 'u' as int, 0] + NumberBytes(o, n, 4)
  }

  function SignatureField(code: byte, text: bytes): bytes {
    [code, 1, 'g' as int, 0] + [|text| % 256] + text + [0]
  }

  /** A field behind what is there already, on the next 8-byte boundary. */
  function Append(before: bytes, field: bytes): bytes {
    before + Zeros((8 - |before| % 8) % 8) + field
  }

  /** The signature of the body, if there is one. */
  function AppendSignature(before: bytes, parameters: seq<Value>): bytes {
    if parameters == [] then before else Append(before, SignatureField(8, SignatureOfAll(parameters)))
  }

  /** The field array of each kind of message. */
  function FieldBytes(o: Order, m: Outgoing): bytes {
    match m
    case MethodCall(_, _, path, interface, member, destination, parameters) =>
      var f1 := Append([], TextField(o, 1, 'o', path));
      var f2 := Append(f1, TextField(o, 6, 's', destination));
      var f3 := Append(f2, TextField(o, 2, 's', interface));
      AppendSignature(Append(f3, TextField(o, 3, 's', member)), parameters)
    case MethodReturn(_, replySerial, destination, parameters) =>
      var f1 := Append([], TextField(o, 6, 's', destination));
      AppendSignature(Append(f1, NumberField(o, 5, replySerial)), parameters)
    case Error(_, replySerial, name, message, destination) =>
      var f1 := Append([], TextField(o, 6, 's', destination));
      var f2 := Append(f1, TextField(o, 4, 's', name));
      AppendSignature(Append(f2, NumberField(o, 5, replySerial)), [Plain(String(message))])
    case Signal(_, path, interface, member, destination, parameters) =>
      var f1 := Append([], TextField(o, 1, 'o', path));
      var f2 := if destination == [] then f1 else Append(f1, TextField(o, 6, 's', destination));
      var f3 := Append(f2, TextField(o, 2, 's', interface));
      AppendSignature(Append(f3, TextField(o, 3, 's', member)), parameters)
  }

  /** The bytes of one field, once it is aligned. */
  function EntryBytes(o: Order, e: Entry): bytes {
    match e.content
    case String(text) => TextField(o, e.code, 's', text)
    case ObjectPath(text) => TextField(o, e.code, 'o', text)
    case Signature(text) => SignatureField(e.code, text)
    case Fixed(_, bits) => NumberField(o, e.code, bits)
    case _ => []
  }

  predicate Carriable(b: BasicValue) {
    b.String? || b.ObjectPath? || b.Signature? || (b.Fixed? && b.kind == Uint32)
  }

  lemma EightPads(pos: nat)
    ensures Padding(8, pos) == (8 - pos % 8) % 8
    ensures Padding(4, pos + Padding(8, pos) + 4) == 0
  {
    var r, p := pos % 8, pos + Padding(8, pos);
    PaddingFacts(8, pos);
    assert r == 0 ==> (8 - r) % 8 == 0;
    assert r != 0 ==> (8 - r) % 8 == 8 - r;
    hide Padding;
    PadsToFour(p);
  }

  lemma PadsToFour(p: nat)
    requires p % 8 == 0
    ensures Padding(4, p + 4) == 0
  {
    assert p == 8 * (p / 8);
    assert (p + 4) % 4 == 0;
    PaddingFacts(4, p + 4);
    hide Padding;
  }

  lemma FieldMarshalls(o: Order, e: Entry, pos: nat)
    requires Carriable(e.content)
    ensures Marshall(o, FieldOf(e), pos) == Zeros((8 - pos % 8) % 8) + EntryBytes(o, e)
  {
    hide Padding, Zeros, FieldOf, EntryBytes, Marshall, MarshallAll;
    EightPads(pos);
    var p := pos + Padding(8, pos);
    FieldBehindPadding(o, e, pos);
    FieldInParts(o, e, p);
    ContentMarshalls(o, e, p + 4);
  }

  lemma FieldBehindPadding(o: Order, e: Entry, pos: nat)
    ensures FieldOf(e).Struct?
    ensures var gap := Padding(8, pos);
            Marshall(o, FieldOf(e), pos) == Zeros(gap) + MarshallAll(o, FieldOf(e).fields, pos + gap)
  {
    hide Padding, Zeros, MarshallAll;
  }

  lemma FieldInParts(o: Order, e: Entry, pos: nat)
    ensures FieldOf(e).Struct?
    ensures MarshallAll(o, FieldOf(e).fields, pos)
         == [e.code] + ([1, BasicCode(e.content), 0] + MarshallBasic(o, e.content, pos + 4))
  {
    hide MarshallAll, Marshall, MarshallBasic;
    PairMarshalls(o, Byte(e.code), Variant([BasicCode(e.content)], Plain(e.content)), pos);
    VariantMarshalls(o, BasicCode(e.content), e.content, pos + 1);
  }

  lemma PairMarshalls(o: Order, first: BasicValue, second: Value, pos: nat)
    requires first.Byte?
    ensures MarshallAll(o, [Plain(first), second], pos) == [first.b] + Marshall(o, second, pos + 1)
  {
    hide Marshall;
    var vs := [Plain(first), second];
    assert vs[1..] == [second] && [second][1..] == [];
    assert Marshall(o, Plain(first), pos) == [first.b] by { ByteMarshalls(o, first, pos); }
    assert MarshallAll(o, [second], pos + 1) == Marshall(o, second, pos + 1) by { OneMarshalls(o, second, pos + 1); }
  }

  lemma ByteMarshalls(o: Order, b: BasicValue, pos: nat)
    requires b.Byte?
    ensures Marshall(o, Plain(b), pos) == [b.b]
  {}

  lemma OneMarshalls(o: Order, v: Value, pos: nat)
    ensures MarshallAll(o, [v], pos) == Marshall(o, v, pos)
  {
    hide Marshall;
    assert [v][1..] == [];
    assert MarshallAll(o, [v][1..], pos + |Marshall(o, v, pos)|) == [];
  }

  lemma VariantMarshalls(o: Order, code: byte, b: BasicValue, pos: nat)
    ensures Marshall(o, Variant([code], Plain(b)), pos) == [1, code, 0] + MarshallBasic(o, b, pos + 3)
  {
    hide MarshallBasic;
    assert PutSignature([code]) == [1, code, 0];
  }

  lemma ContentMarshalls(o: Order, e: Entry, pos: nat)
    requires Carriable(e.content) && Padding(4, pos) == 0
    ensures [e.code] + ([1, BasicCode(e.content), 0] + MarshallBasic(o, e.content, pos)) == EntryBytes(o, e)
  {
    hide Padding, Word, NumberBytes;
    assert Zeros(0) == [];
    var head := [e.code, 1, BasicCode(e.content), 0];
    assert [e.code] + ([1, BasicCode(e.content), 0] + MarshallBasic(o, e.content, pos))
      == head + MarshallBasic(o, e.content, pos);
    match e.content
    case String(text) => WordBytes(o, |text| % LIMIT, 4);
    case ObjectPath(text) => WordBytes(o, |text| % LIMIT, 4);
    case Signature(_) =>
    case Fixed(_, bits) => WordBytes(o, bits, 4);
  }

  // ----- field by field

  lemma {:induction false} MarshallAllAppends(o: Order, vs: seq<Value>, v: Value, pos: nat)
    ensures var front := MarshallAll(o, vs, pos);
            MarshallAll(o, vs + [v], pos) == front + Marshall(o, v, pos + |front|)
  {
    hide Marshall;
    if vs == [] {
      assert [] + [v] == [v];
      OneMarshalls(o, v, pos);
    } else {
      var first := Marshall(o, vs[0], pos);
      assert (vs + [v])[1..] == vs[1..] + [v];
      MarshallAllAppends(o, vs[1..], v, pos + |first|);
    }
  }

  lemma {:induction false} FieldsAppend(es: seq<Entry>, e: Entry)
    ensures Fields(es + [e]) == Fields(es) + [FieldOf(e)]
  {
    if es == [] {
      assert [] + [e] == [e] && [e][1..] == [];
    } else {
      assert (es + [e])[1..] == es[1..] + [e];
      FieldsAppend(es[1..], e);
    }
  }

  /** The bytes of the fields so far, and of one field more. */
  lemma OneMoreField(o: Order, es: seq<Entry>, e: Entry, before: bytes)
    requires Carriable(e.content) && MarshallAll(o, Fields(es), 0) == before
    ensures MarshallAll(o, Fields(es + [e]), 0) == Append(before, EntryBytes(o, e))
  {
    hide MarshallAll, Fields, FieldOf, EntryBytes, Marshall, Zeros;
    FieldsAppend(es, e);
    MarshallAllAppends(o, Fields(es), FieldOf(e), 0);
    FieldMarshalls(o, e, |before|);
    var gap := Zeros((8 - |before| % 8) % 8);
    assert before + (gap + EntryBytes(o, e)) == before + gap + EntryBytes(o, e);
  }

  lemma NoFields(o: Order)
    ensures MarshallAll(o, Fields([]), 0) == []
  {}

  lemma SignatureFieldAdded(o: Order, es: seq<Entry>, parameters: seq<Value>, before: bytes)
    requires MarshallAll(o, Fields(es), 0) == before
    ensures MarshallAll(o, Fields(es + SignatureEntry(parameters)), 0) == AppendSignature(before, parameters)
  {
    hide MarshallAll, Fields, SignatureOfAll, Append;
    if parameters == [] {
      assert es + [] == es;
    } else {
      OneMoreField(o, es, Entry(HEADER_SIGNATURE, Signature(SignatureOfAll(parameters))), before);
    }
  }

  /** The field array that is sent has exactly the bytes of the table above. */
  lemma FieldArrayBytes(o: Order, m: Outgoing)
    ensures MarshallAll(o, HeaderFields(m), 0) == FieldBytes(o, m)
  {
    hide MarshallAll, Fields, FieldBytes, Entries;
    match m
    case MethodCall(_, _, _, _, _, _, _) => CallFieldBytes(o, m);
    case MethodReturn(_, _, _, _) => ReturnFieldBytes(o, m);
    case Error(_, _, _, _, _) => ErrorFieldBytes(o, m);
    case Signal(_, _, _, _, _, _) => SignalFieldBytes(o, m);
  }

  lemma CallFieldBytes(o: Order, m: Outgoing)
    requires m.MethodCall?
    ensures MarshallAll(o, Fields(Entries(m)), 0) == FieldBytes(o, m)
  {
    hide MarshallAll, Fields, SignatureEntry, Append, AppendSignature, TextField, NumberField;
    NoFields(o);
    var b1 := AddedText(o, [], Entry(1, ObjectPath(m.path)), []);
    var es1 := [] + [Entry(1, ObjectPath(m.path))];
    var b2 := AddedText(o, es1, Entry(6, String(m.destination)), b1);
    var es2 := es1 + [Entry(6, String(m.destination))];
    var b3 := AddedText(o, es2, Entry(2, String(m.interface)), b2);
    var es3 := es2 + [Entry(2, String(m.interface))];
    var b4 := AddedText(o, es3, Entry(3, String(m.member)), b3);
    var es4 := es3 + [Entry(3, String(m.member))];
    SignatureFieldAdded(o, es4, m.parameters, b4);
    assert es4 + SignatureEntry(m.parameters) == Entries(m);
  }

  lemma ReturnFieldBytes(o: Order, m: Outgoing)
    requires m.MethodReturn?
    ensures MarshallAll(o, Fields(Entries(m)), 0) == FieldBytes(o, m)
  {
    hide MarshallAll, Fields, SignatureEntry, Append, AppendSignature, TextField, NumberField;
    NoFields(o);
    var b1 := AddedText(o, [], Entry(6, String(m.destination)), []);
    var es1 := [] + [Entry(6, String(m.destination))];
    var b2 := AddedText(o, es1, Entry(5, Fixed(Uint32, m.replySerial)), b1);
    var es2 := es1 + [Entry(5, Fixed(Uint32, m.replySerial))];
    SignatureFieldAdded(o, es2, m.parameters, b2);
    assert es2 + SignatureEntry(m.parameters) == Entries(m);
  }

  lemma ErrorFieldBytes(o: Order, m: Outgoing)
    requires m.Error?
    ensures MarshallAll(o, Fields(Entries(m)), 0) == FieldBytes(o, m)
  {
    hide MarshallAll, Fields, SignatureEntry, Append, AppendSignature, TextField, NumberField;
    NoFields(o);
    var b1 := AddedText(o, [], Entry(6, String(m.destination)), []);
    var es1 := [] + [Entry(6, String(m.destination))];
    var b2 := AddedText(o, es1, Entry(4, String(m.name)), b1);
    var es2 := es1 + [Entry(4, String(m.name))];
    var b3 := AddedText(o, es2, Entry(5, Fixed(Uint32, m.replySerial)), b2);
    var es3 := es2 + [Entry(5, Fixed(Uint32, m.replySerial))];
    SignatureFieldAdded(o, es3, m.Parameters(), b3);
    assert es3 + SignatureEntry(m.Parameters()) == Entries(m);
  }

  lemma SignalFieldBytes(o: Order, m: Outgoing)
    requires m.Signal?
    ensures MarshallAll(o, Fields(Entries(m)), 0) == FieldBytes(o, m)
  {
    hide MarshallAll, Fields, SignatureEntry, Append, AppendSignature, TextField, NumberField;
    NoFields(o);
    var b1 := AddedText(o, [], Entry(1, ObjectPath(m.path)), []);
    var es1 := [] + [Entry(1, ObjectPath(m.path))];
    var es2, b2 := es1, b1;
    if m.destination != [] {
      b2 := AddedText(o, es1, Entry(6, String(m.destination)), b1);
      es2 := es1 + [Entry(6, String(m.destination))];
    }
    var b3 := AddedText(o, es2, Entry(2, String(m.interface)), b2);
    var es3 := es2 + [Entry(2, String(m.interface))];
    var b4 := AddedText(o, es3, Entry(3, String(m.member)), b3);
    var es4 := es3 + [Entry(3, String(m.member))];
    SignatureFieldAdded(o, es4, m.parameters, b4);
    assert es4 + SignatureEntry(m.parameters) == Entries(m);
  }

  lemma AddedText(o: Order, es: seq<Entry>, e: Entry, before: bytes) returns (more: bytes)
    requires Carriable(e.content) && MarshallAll(o, Fields(es), 0) == before
    ensures more == Append(before, EntryBytes(o, e)) && MarshallAll(o, Fields(es + [e]), 0) == more
  {
    OneMoreField(o, es, e, before);
    more := Append(before, EntryBytes(o, e));
  }

  // ----- packets

  /** The type byte of each kind of message. */
  function KindByte(m: Outgoing): byte {
    if m.MethodCall? then 1 else if m.MethodReturn? then 2 else if m.Error? then 3 else 4
  }

  /** NO_REPLY_EXPECTED and NO_AUTO_START of a call; no other flag is ever sent. */
  function FlagByte(m: Outgoing): byte {
    if m.MethodCall? then m.flags % 2 + 2 * (m.flags / 2 % 2) else 0
  }

  /** Every packet that is sent, byte by byte. */
  lemma PacketBytes(o: Order, m: Outgoing)
    ensures var fields, body := FieldBytes(o, m), MarshallAll(o, m.Parameters(), 0);
            var front := [if o.Little? then 'l' as int else 'B' as int, KindByte(m), FlagByte(m), 1]
                         + NumberBytes(o, |body| % LIMIT, 4) + NumberBytes(o, m.serial % LIMIT, 4)
                         + NumberBytes(o, |fields| % LIMIT, 4);
            |front| == 16 && Packet(o, m) == Append(front + fields, body)
  {
    hide MarshallAll, FieldBytes, NumberBytes, Word, HeaderFields, Padding;
    var fields, body := FieldBytes(o, m), MarshallAll(o, m.Parameters(), 0);
    FieldArrayBytes(o, m);
    WordBytes(o, |body| % LIMIT, 4);
    WordBytes(o, m.serial % LIMIT, 4);
    WordBytes(o, |fields| % LIMIT, 4);
    FlagsOnWire(m);
    EightPads(16 + |fields|);
  }

  lemma FlagsOnWire(m: Outgoing)
    ensures m.WireFlags() == FlagByte(m)
  {}

  /**
   * The flags of a packet: below four; a reply is refused exactly by odd flags, starting a service exactly by odd
   * halves. Only calls have any.
   */
  lemma FlagsAreSent(o: Order, m: Outgoing)
    ensures |Packet(o, m)| >= 16 && Packet(o, m)[2] < 4
    ensures m.MethodCall? ==> (Packet(o, m)[2] % 2 == 1 <==> m.flags % 2 == 1)
    ensures m.MethodCall? ==> (Packet(o, m)[2] / 2 == 1 <==> m.flags / 2 % 2 == 1)
    ensures !m.MethodCall? ==> Packet(o, m)[2] == 0
  {
    hide Packet, FieldBytes, MarshallAll, NumberBytes;
    PacketBytes(o, m);
  }

  /** Calls without parameters can all be sent, up to a megabyte of names. */
  lemma ShortCallIsSendable(m: Outgoing)
    requires m.MethodCall? && m.parameters == [] && m.serial < LIMIT
    requires |m.path| + |m.destination| + |m.interface| + |m.member| <= 1024 * 1024
    ensures Sendable(m)
  {
    hide FieldBytes, HeaderFields, MarshallAll, EntriesOk, Padding, ParametersOk, Entries;
    CallEntriesOk(m);
    FieldArrayBytes(Little, m);
    CallFieldsAreShort(m);
    NoParameters();
    PaddingFacts(8, 16 + |FieldBytes(Little, m)|);
  }

  lemma CallEntriesOk(m: Outgoing)
    requires m.MethodCall? && m.parameters == []
    requires |m.path| < LIMIT && |m.destination| < LIMIT && |m.interface| < LIMIT && |m.member| < LIMIT
    ensures EntriesOk(Entries(m))
  {
    var es := Entries(m);
    assert es[4..] == [] && EntriesOk(es[4..]);
    assert es[3..][1..] == es[4..] && es[2..][1..] == es[3..] && es[1..][1..] == es[2..];
    assert EntriesOk(es[3..]) && EntriesOk(es[2..]) && EntriesOk(es[1..]) && EntriesOk(es);
  }

  lemma CallFieldsAreShort(m: Outgoing)
    requires m.MethodCall? && m.parameters == []
    ensures |FieldBytes(Little, m)| <= |m.path| + |m.destination| + |m.interface| + |m.member| + 4 * 16
  {
    hide NumberBytes, Zeros;
  }

  lemma NoParameters()
    ensures ParametersOk([]) && SizeAll([], 0) == 0
  {
    assert AllWellFormed([]) && HaveTypes([], []);
  }
}
