/** What a receiver makes of an unmarshalled header and a body, and that it is the message that was sent. */
module Receiving {
  import opened Wrappers
  import opened Octets
  import opened Signatures
  import opened Values
  import opened Marshalling
  import opened Unmarshalling
  import opened RoundTrips
  import opened Numerals
  import opened Messages

  /** Unmodelled covers undefined behaviour, unending recursion and the text form of doubles. */
  datatype Result<+T> = Success(value: T) | Exception | Unmodelled {
    predicate IsFailure() {
      !Success?
    }

    function PropagateFailure<U>(): Result<U>
      requires !Success?
    {
      if Exception? then Exception else Unmodelled
    }

    function Extract(): T
      requires Success?
    {
      value
    }
  }

  function Settle<T>(r: Outcome<T>): Result<T> {
    match r
    case Ok(value, _) => Success(value)
    case Throw => Exception
    case Outside => Unmodelled
  }

  function TextOf(v: Value): Result<bytes> {
    match AsString(v)
    case Some(text) => Success(text)
    case None => Unmodelled
  }

  function NumberOf(v: Value, limit: nat): Result<nat>
    requires limit > 0
  {
    var text :- TextOf(v);
    match NumberIn(text, limit)
    case Some(n) => Success(n)
    case None => Exception
  }

  /** What the header fields say. A reply serial that is never set stays indeterminate in the source. */
  datatype Known = Known(path: bytes, interface: bytes, member: bytes, destination: bytes, sender: bytes,
                         signature: bytes, replySerial: Option<nat>)

  const NOTHING_KNOWN := Known([], [], [], [], [], [], None)

  function ReadField(field: Value, known: Known): Result<Known> {
    if !field.Struct? then Exception
    else if |field.fields| < 2 then Unmodelled
    else
      var code :- NumberOf(field.fields[0], 256);
      Record(code, field.fields[1], known)
  }

  /** The switch over the field code; codes it does not name are skipped. */
  function Record(code: nat, content: Value, known: Known): Result<Known> {
    if code == HEADER_PATH then
      var text :- TextOf(content);
      Success(known.(path := text))
    else if code == HEADER_INTERFACE then
      var text :- TextOf(content);
      Success(known.(interface := text))
    else if code == HEADER_MEMBER then
      var text :- TextOf(content);
      Success(known.(member := text))
    else if code == HEADER_DESTINATION then
      var text :- TextOf(content);
      Success(known.(destination := text))
    else if code == HEADER_SENDER then
      var text :- TextOf(content);
      Success(known.(sender := text))
    else if code == HEADER_SIGNATURE then
      var text :- TextOf(content);
      Success(known.(signature := text))
    else if code == HEADER_REPLY_SERIAL then
      var n :- NumberOf(content, WORD_LIMIT);
      Success(known.(replySerial := Some(n)))
    else Success(known)
  }

  function ReadFields(fields: seq<Value>, known: Known): Result<Known> {
    if fields == [] then Success(known)
    else
      var next :- ReadField(fields[0], known);
      ReadFields(fields[1..], next)
  }

  datatype Received = Received(kind: nat, flags: nat, serial: nat, replySerial: Option<nat>,
                               path: bytes, interface: bytes, member: bytes, destination: bytes, sender: bytes,
                               parameters: seq<Value>)

  /** `parseParameters`: any flag other than 'l' means big-endian. */
  function ParseParameters(littleEndian: bool, body: bytes, signature: bytes): Result<seq<Value>> {
    var order := if littleEndian then Little else Big;
    var all :- Settle(UnmarshallStruct(order, [OPEN_STRUCT] + signature + [CLOSE_STRUCT], body, 0));
    if all.Struct? then Success(all.fields) else Success([])
  }

  /** The receiving constructor shared by all kinds of message. */
  function ReceiveBase(header: seq<Value>, body: bytes): Result<Received> {
    if |header| < 7 then Unmodelled
    else
      var flag :- NumberOf(header[0], 256);
      var kind :- NumberOf(header[1], 256);
      var flags :- NumberOf(header[2], 256);
      var serial :- NumberOf(header[5], WORD_LIMIT);
      if !header[6].Array? then Exception
      else
        var known :- ReadFields(header[6].contents, NOTHING_KNOWN);
        var parameters :-
          if body == [] then Success([]) else ParseParameters(flag == LITTLE_FLAG, body, known.signature);
        Success(Received(kind, flags, serial, known.replySerial,
                         known.path, known.interface, known.member, known.destination, known.sender, parameters))
  }

  const STRING_STRUCT: bytes := [OPEN_STRUCT, CODE_STRING, CLOSE_STRUCT]

  /** What `onBodyComplete` does with a finished message. */
  datatype Handling = Dispatched(message: Received) | Dropped | Unknown

  /** Exceptions while a message is built are caught and the message is dropped, as are unknown types. */
  function Handle(header: seq<Value>, body: bytes): Handling {
    match Build(header, body)
    case Success(Some(m)) => Dispatched(m)
    case Success(None) => Dropped
    case Exception => Dropped
    case Unmodelled => Unknown
  }

  function Build(header: seq<Value>, body: bytes): Result<Option<Received>> {
    if |header| < 7 then Unmodelled
    else
      var kind :- NumberOf(header[1], 256);
      if kind == TYPE_METHOD_CALL || kind == TYPE_METHOD_RETURN then
        var m :- ReceiveBase(header, body);
        Success(Some(m.(flags := 0)))
      else if kind == TYPE_ERROR then
        var m :- ReceiveBase(header, body);
        var flag :- NumberOf(header[0], 256);
        var _ :- Settle(UnmarshallStruct(if flag == LITTLE_FLAG then Little else Big, STRING_STRUCT, body, 0));
        Success(Some(m))
      else if kind == TYPE_SIGNAL then
        var m :- ReceiveBase(header, body);
        Success(Some(m))
      else Success(None)
  }

  // ----- the message that was sent

  /** What a receiver should see of a message: everything but the flags. */
  function Expected(m: Outgoing): Received {
    var parameters := NormalAll(m.Parameters());
    match m
    case MethodCall(serial, _, path, interface, member, destination, _) =>
      Received(TYPE_METHOD_CALL, 0, serial, None, path, interface, member, destination, [], parameters)
    case MethodReturn(serial, replySerial, destination, _) =>
      Received(TYPE_METHOD_RETURN, 0, serial, Some(replySerial), [], [], [], destination, [], parameters)
    case Error(serial, replySerial, _, _, destination) =>
      Received(TYPE_ERROR, 0, serial, Some(replySerial), [], [], [], destination, [], parameters)
    case Signal(serial, path, interface, member, destination, _) =>
      Received(TYPE_SIGNAL, 0, serial, None, path, interface, member, destination, [], parameters)
  }

  /**
   * Parameters the wire can carry: well-formed, laid out soundly from the start of a body, with a signature of at most
   * 255 bytes.
   */
  ghost predicate ParametersOk(vs: seq<Value>) {
    && |SignatureOfAll(vs)| <= 255 && FitsAll(vs, 0) && LayoutAllOk(vs, 0)
    && exists ts :: AllWellFormed(ts) && HaveTypes(vs, ts)
  }

  predicate ReplySerialOk(m: Outgoing) {
    (m.MethodReturn? || m.Error?) ==> m.replySerial < INT_LIMIT
  }

  /** `asUint32` goes through a signed `stoi`: serials of 2^31 and more do not survive it. */
  predicate SerialsOk(m: Outgoing) {
    m.serial < INT_LIMIT && ReplySerialOk(m)
  }

  lemma ByteSurvives(b: byte)
    ensures NumberOf(Plain(Byte(b)), 256) == Success(b)
  {
    StoiOfDecimal(b);
    hide Stoi, Decimal;
  }

  /** `asUint32`: numbers below 2^31 survive the detour through text, larger ones throw. */
  lemma WordSurvives(n: nat)
    requires n < WORD_LIMIT
    ensures NumberOf(Plain(Fixed(Uint32, n)), WORD_LIMIT) == if n < INT_LIMIT then Success(n) else Exception
  {
    StoiOfDecimal(n);
    hide Stoi, Decimal;
  }

  lemma ContentText(contained: bytes, b: BasicValue)
    ensures b.String? || b.ObjectPath? || b.Signature? ==> TextOf(Variant(contained, Plain(b))) == Success(b.text)
    ensures NumberOf(Variant(contained, Plain(b)), WORD_LIMIT) == NumberOf(Plain(b), WORD_LIMIT)
  {
    hide Stoi, Decimal;
    assert AsString(Variant(contained, Plain(b))) == AsString(Plain(b));
  }

  lemma EntryRecorded(e: Entry, rest: seq<Entry>, known: Known)
    ensures ReadFields(Fields([e] + rest), known)
         == match Record(e.code, Variant([BasicCode(e.content)], Plain(e.content)), known)
            case Success(next) => ReadFields(Fields(rest), next)
            case Exception => Exception
            case Unmodelled => Unmodelled
  {
    hide Record, NumberOf;
    ByteSurvives(e.code);
    ContentText([BasicCode(e.content)], e.content);
    assert ([e] + rest)[1..] == rest;
    assert ([FieldOf(e)] + Fields(rest))[1..] == Fields(rest);
  }

  /** A field with a text in it sets the text its code stands for. */
  lemma TextRecorded(e: Entry, rest: seq<Entry>, known: Known, next: Known)
    requires e.content.String? || e.content.ObjectPath? || e.content.Signature?
    requires e.code == HEADER_PATH ==> next == known.(path := e.content.text)
    requires e.code == HEADER_INTERFACE ==> next == known.(interface := e.content.text)
    requires e.code == HEADER_MEMBER ==> next == known.(member := e.content.text)
    requires e.code == HEADER_DESTINATION ==> next == known.(destination := e.content.text)
    requires e.code == HEADER_SIGNATURE ==> next == known.(signature := e.content.text)
    requires e.code == HEADER_ERROR_NAME ==> next == known
    requires e.code in {HEADER_PATH, HEADER_INTERFACE, HEADER_MEMBER, HEADER_DESTINATION, HEADER_SIGNATURE,
      HEADER_ERROR_NAME}
    ensures ReadFields(Fields([e] + rest), known) == ReadFields(Fields(rest), next)
  {
    hide ReadFields, Fields, TextOf, NumberOf;
    EntryRecorded(e, rest, known);
    ContentText([BasicCode(e.content)], e.content);
  }

  lemma ReplySerialRecorded(n: nat, rest: seq<Entry>, known: Known)
    requires n < INT_LIMIT
    ensures ReadFields(Fields([Entry(HEADER_REPLY_SERIAL, Fixed(Uint32, n))] + rest), known)
         == ReadFields(Fields(rest), known.(replySerial := Some(n)))
  {
    hide ReadFields, Fields, TextOf, NumberOf;
    var e := Entry(HEADER_REPLY_SERIAL, Fixed(Uint32, n));
    EntryRecorded(e, rest, known);
    ContentText([BasicCode(e.content)], e.content);
    WordSurvives(n);
  }

  lemma ReplySerialRefused(n: nat, rest: seq<Entry>, known: Known)
    requires INT_LIMIT <= n < WORD_LIMIT
    ensures ReadFields(Fields([Entry(HEADER_REPLY_SERIAL, Fixed(Uint32, n))] + rest), known) == Exception
  {
    hide ReadFields, Fields, TextOf, NumberOf;
    var e := Entry(HEADER_REPLY_SERIAL, Fixed(Uint32, n));
    EntryRecorded(e, rest, known);
    ContentText([BasicCode(e.content)], e.content);
    WordSurvives(n);
  }

  /** What the receiver learns from the header fields of a message. */
  function Announced(m: Outgoing): Known {
    var r := Expected(m);
    Known(r.path, r.interface, r.member, r.destination, r.sender, SignatureOfAll(m.Parameters()), r.replySerial)
  }

  lemma SignatureRecorded(vs: seq<Value>, known: Known)
    requires known.signature == []
    ensures ReadFields(Fields(SignatureEntry(vs)), known) == Success(known.(signature := SignatureOfAll(vs)))
  {
    if vs != [] {
      var e := Entry(HEADER_SIGNATURE, Signature(SignatureOfAll(vs)));
      assert SignatureEntry(vs) == [e] + [];
      TextRecorded(e, [], known, known.(signature := SignatureOfAll(vs)));
    }
  }

  lemma FieldsAnnounce(m: Outgoing)
    requires ReplySerialOk(m)
    ensures ReadFields(HeaderFields(m), NOTHING_KNOWN) == Success(Announced(m))
  {
    hide HeaderFields, ReadFields, Announced;
    match m
    case MethodCall(_, _, _, _, _, _, _) => CallAnnounces(m);
    case MethodReturn(_, _, _, _) => ReturnAnnounces(m);
    case Error(_, _, _, _, _) => ErrorAnnounces(m);
    case Signal(_, _, _, _, _, _) => SignalAnnounces(m);
  }

  lemma CallAnnounces(m: Outgoing)
    requires m.MethodCall?
    ensures ReadFields(HeaderFields(m), NOTHING_KNOWN) == Success(Announced(m))
  {
    hide ReadFields, Fields, SignatureOfAll, NormalAll, SignatureEntry;
    var es, sig := Entries(m), SignatureEntry(m.parameters);
    var k1 := NOTHING_KNOWN.(path := m.path);
    var k2 := k1.(destination := m.destination);
    var k3 := k2.(interface := m.interface);
    var k4 := k3.(member := m.member);
    assert es == [es[0]] + ([es[1]] + ([es[2]] + ([es[3]] + sig)));
    TextRecorded(es[0], [es[1]] + ([es[2]] + ([es[3]] + sig)), NOTHING_KNOWN, k1);
    TextRecorded(es[1], [es[2]] + ([es[3]] + sig), k1, k2);
    TextRecorded(es[2], [es[3]] + sig, k2, k3);
    TextRecorded(es[3], sig, k3, k4);
    SignatureRecorded(m.parameters, k4);
  }

  lemma ReturnAnnounces(m: Outgoing)
    requires m.MethodReturn? && m.replySerial < INT_LIMIT
    ensures ReadFields(HeaderFields(m), NOTHING_KNOWN) == Success(Announced(m))
  {
    hide ReadFields, Fields, SignatureOfAll, NormalAll, SignatureEntry;
    var es, sig := Entries(m), SignatureEntry(m.parameters);
    var k1 := NOTHING_KNOWN.(destination := m.destination);
    var k2 := k1.(replySerial := Some(m.replySerial));
    assert es == [es[0]] + ([es[1]] + sig);
    TextRecorded(es[0], [es[1]] + sig, NOTHING_KNOWN, k1);
    ReplySerialRecorded(m.replySerial, sig, k1);
    SignatureRecorded(m.parameters, k2);
  }

  lemma ErrorAnnounces(m: Outgoing)
    requires m.Error? && m.replySerial < INT_LIMIT
    ensures ReadFields(HeaderFields(m), NOTHING_KNOWN) == Success(Announced(m))
  {
    hide ReadFields, Fields, SignatureOfAll, NormalAll, SignatureEntry;
    var es, sig := Entries(m), SignatureEntry(m.Parameters());
    var k1 := NOTHING_KNOWN.(destination := m.destination);
    var k2 := k1.(replySerial := Some(m.replySerial));
    assert es == [es[0]] + ([es[1]] + ([es[2]] + sig));
    TextRecorded(es[0], [es[1]] + ([es[2]] + sig), NOTHING_KNOWN, k1);
    TextRecorded(es[1], [es[2]] + sig, k1, k1);
    ReplySerialRecorded(m.replySerial, sig, k1);
    SignatureRecorded(m.Parameters(), k2);
  }

  lemma SignalAnnounces(m: Outgoing)
    requires m.Signal?
    ensures ReadFields(HeaderFields(m), NOTHING_KNOWN) == Success(Announced(m))
  {
    hide ReadFields, Fields, SignatureOfAll, NormalAll, SignatureEntry;
    var sig := SignatureEntry(m.parameters);
    var path, destination := Entry(HEADER_PATH, ObjectPath(m.path)), Entry(HEADER_DESTINATION, String(m.destination));
    var interface, member := Entry(HEADER_INTERFACE, String(m.interface)), Entry(HEADER_MEMBER, String(m.member));
    var tail := [interface] + ([member] + sig);
    var k1 := NOTHING_KNOWN.(path := m.path);
    var k2 := k1.(destination := m.destination);
    var k3 := k2.(interface := m.interface);
    var k4 := k3.(member := m.member);
    if m.destination == [] {
      assert Entries(m) == [path] + tail;
      TextRecorded(path, tail, NOTHING_KNOWN, k1);
    } else {
      assert Entries(m) == [path] + ([destination] + tail);
      TextRecorded(path, [destination] + tail, NOTHING_KNOWN, k1);
      TextRecorded(destination, tail, k1, k2);
    }
    TextRecorded(interface, [member] + sig, k2, k3);
    TextRecorded(member, sig, k3, k4);
    SignatureRecorded(m.parameters, k4);
  }

  lemma FieldsRefuse(m: Outgoing)
    requires !ReplySerialOk(m) && m.replySerial < WORD_LIMIT
    ensures ReadFields(HeaderFields(m), NOTHING_KNOWN) == Exception
  {
    hide ReadFields, Fields, SignatureOfAll, SignatureEntry;
    var es, sig := Entries(m), SignatureEntry(m.Parameters());
    var k1 := NOTHING_KNOWN.(destination := m.destination);
    if m.MethodReturn? {
      assert es == [es[0]] + ([es[1]] + sig);
      TextRecorded(es[0], [es[1]] + sig, NOTHING_KNOWN, k1);
      ReplySerialRefused(m.replySerial, sig, k1);
    } else {
      assert es == [es[0]] + ([es[1]] + ([es[2]] + sig));
      TextRecorded(es[0], [es[1]] + ([es[2]] + sig), NOTHING_KNOWN, k1);
      TextRecorded(es[1], [es[2]] + sig, k1, k1);
      ReplySerialRefused(m.replySerial, sig, k1);
    }
  }

  // ----- the parameters

  /** A body parses back into its parameters, and is empty only when there are none. */
  lemma ParametersParse(o: Order, vs: seq<Value>)
    requires ParametersOk(vs)
    ensures vs != [] ==> MarshallAll(o, vs, 0) != []
    ensures vs != [] ==> ParseParameters(o.Little?, MarshallAll(o, vs, 0), SignatureOfAll(vs)) == Success(NormalAll(vs))
  {
    var ts :| AllWellFormed(ts) && HaveTypes(vs, ts);
    SignaturesAreTypes(vs, ts);
    if vs != [] {
      StructAtZero(o, vs);
      StructReady(vs, ts);
      var body := MarshallAll(o, vs, 0);
      var t := StructOf(ts);
      assert Normal(Struct(vs)) == Struct(NormalAll(vs));
      assert Print(t) == [OPEN_STRUCT] + PrintAll(ts) + [CLOSE_STRUCT];
      hide MarshallAll, Marshall, Ready, Decode, Normal, NormalAll, SignatureOfAll, PrintAll, UnmarshallStruct,
        HaveTypes;
      assert Holds(body, 0, Marshall(o, Struct(vs), 0));
      RoundTrip(o, Struct(vs), t, body, 0);
      SignatureDrivenIsTypeDriven(o, t, body, 0);
      StructDispatch(o, Print(t), body, 0);
    }
  }

  lemma StructReady(vs: seq<Value>, ts: seq<Type>)
    requires ts != [] && AllWellFormed(ts) && HaveTypes(vs, ts) && FitsAll(vs, 0) && LayoutAllOk(vs, 0)
    ensures Ready(Struct(vs), StructOf(ts), 0)
  {
    hide FitsAll, LayoutAllOk, HaveTypes;
  }

  lemma StructDispatch(o: Order, signature: bytes, view: bytes, pos: nat)
    requires pos <= |view| && signature != [] && signature[0] == OPEN_STRUCT
    ensures Unmarshall(o, signature, view, pos) == UnmarshallStruct(o, signature, view, pos)
  {
    hide UnmarshallStruct;
  }

  // ----- the header

  predicate EntryOk(e: Entry) {
    InRange(e.content) && !e.content.Boolean? && !e.content.Double?
  }

  predicate EntriesOk(es: seq<Entry>) {
    es == [] || (EntryOk(es[0]) && EntriesOk(es[1..]))
  }

  lemma FieldSound(e: Entry, pos: nat)
    requires EntryOk(e)
    ensures HasType(FieldOf(e), FIELD_TYPE) && Fits(FieldOf(e), pos) && LayoutOk(FieldOf(e), pos)
    ensures Normal(FieldOf(e)) == FieldOf(e)
  {
    var parts := FieldOf(e).fields;
    ContentSound(e.content);
    CodeIsBasic(e.content);
    assert HaveTypes(parts[2..], FIELD_TYPE.fields[2..]);
    hide Padding, Size, FitsAll, LayoutAllOk, NormalAll;
    TypesFrom(parts, FIELD_TYPE.fields, 1);
    TypesFrom(parts, FIELD_TYPE.fields, 0);
    assert parts[0..] == parts && FIELD_TYPE.fields[0..] == FIELD_TYPE.fields;
    FieldLaidOut(parts, pos + Padding(8, pos));
    assert Normal(parts[0]) == parts[0];
    NormalIfEach(parts, 2);
  }

  lemma ContentSound(b: BasicValue)
    requires InRange(b) && !b.Boolean? && !b.Double?
    ensures HasType(Variant([BasicCode(b)], Plain(b)), AnyVariant)
    ensures Normal(Variant([BasicCode(b)], Plain(b))) == Variant([BasicCode(b)], Plain(b))
  {
    CodeIsBasic(b);
    assert HasType(Plain(b), Basic(BasicCode(b))) && WellFormed(Basic(BasicCode(b)));
  }

  lemma FieldLaidOut(parts: seq<Value>, pos: nat)
    requires |parts| == 2 && parts[0].Plain? && parts[0].basic.Byte?
    requires parts[1].Variant? && parts[1].value.Plain? && !parts[1].value.basic.Double?
    ensures FitsAll(parts, pos) && LayoutAllOk(parts, pos)
  {
    hide Size;
    var next := pos + Size(parts[0], pos);
    var inner := next + |parts[1].contained| + 2;
    assert Fits(parts[1].value, inner) && LayoutOk(parts[1].value, inner);
    assert parts[2..] == [] && parts[0..] == parts;
    LaidOutFrom(parts, 1, next);
    LaidOutFrom(parts, 0, pos);
  }

  lemma {:induction false} FieldsSound(es: seq<Entry>, pos: nat)
    requires EntriesOk(es)
    ensures AllHaveType(Fields(es), FIELD_TYPE) && FitsAll(Fields(es), pos) && LayoutAllOk(Fields(es), pos)
    ensures NormalAll(Fields(es)) == Fields(es)
  {
    hide FieldOf, HasType, Fits, LayoutOk, Normal, Size, EntryOk;
    if es != [] {
      FieldSound(es[0], pos);
      var all := Fields(es);
      assert all[0] == FieldOf(es[0]) && all[1..] == Fields(es[1..]);
      FieldsSound(es[1..], pos + Size(all[0], pos));
    }
  }

  /**
   * The header of a message as one value: well-typed, soundly laid out at the start of a packet, and normal already.
   */
  lemma HeaderReady(o: Order, kind: byte, flags: byte, bodySize: nat, serial: nat, es: seq<Entry>)
    requires EntriesOk(es) && bodySize < WORD_LIMIT && serial < WORD_LIMIT
    requires |MarshallAll(o, Fields(es), 0)| < WORD_LIMIT
    ensures var values := HeaderValues(o, kind, flags, bodySize, serial, Fields(es));
            Ready(Struct(values), StructOf(HEADER_TYPES), 0) && NormalAll(values) == values
  {
    hide Fields, HasType, Fits, LayoutOk, Normal, FitsAll, LayoutAllOk, NormalAll, HaveTypes, AllHaveType, MarshallAll,
      Print, WellFormed, EntriesOk, Ready;
    var values := HeaderValues(o, kind, flags, bodySize, serial, Fields(es));
    FieldTypesText();
    FieldsSound(es, 16);
    FieldsSound(es, 0);
    HeaderArraySound(o, Fields(es));
    HeaderTyped(values);
    HeaderLaidOut(values);
    HeaderNormal(values);
    StructReady(values, HEADER_TYPES);
  }

  predicate HeaderShaped(values: seq<Value>) {
    && |values| == 7
    && (forall i :: 0 <= i < 4 ==> values[i].Plain? && values[i].basic.Byte?)
    && (forall i :: 4 <= i < 6 ==>
          && values[i].Plain? && values[i].basic.Fixed?
          && values[i].basic.kind == Uint32 && values[i].basic.bits < WORD_LIMIT)
  }

  lemma HeaderArraySound(o: Order, fields: seq<Value>)
    requires AllHaveType(fields, FIELD_TYPE) && FitsAll(fields, 16) && LayoutAllOk(fields, 16)
    requires NormalAll(fields) == fields && |MarshallAll(o, fields, 0)| < WORD_LIMIT
    ensures var v := Array(Print(FIELD_TYPES), fields);
            HasType(v, FIELD_TYPES) && Fits(v, 12) && LayoutOk(v, 12) && Normal(v) == v
  {
    var v := Array(Print(FIELD_TYPES), fields);
    FieldTypesText();
    assert HasType(v, FIELD_TYPES);
    SignatureIsType(v, FIELD_TYPES);
    assert ContentsStart(SignatureOf(v), 12) == 16;
    hide MarshallAll, ContentsStart, SignatureOf;
    TranslationInvarianceAll(o, fields, 16, 0);
    SizeAllAnyOrder(o, fields, 16);
  }

  lemma HeaderTyped(values: seq<Value>)
    requires HeaderShaped(values) && HasType(values[6], FIELD_TYPES)
    ensures HaveTypes(values, HEADER_TYPES)
  {
    hide Pow256;
    WordLimit();
    assert values[7..] == [] && HEADER_TYPES[7..] == [];
    TypesFrom(values, HEADER_TYPES, 6);
    TypesFrom(values, HEADER_TYPES, 5);
    TypesFrom(values, HEADER_TYPES, 4);
    TypesFrom(values, HEADER_TYPES, 3);
    TypesFrom(values, HEADER_TYPES, 2);
    TypesFrom(values, HEADER_TYPES, 1);
    TypesFrom(values, HEADER_TYPES, 0);
    assert values[0..] == values && HEADER_TYPES[0..] == HEADER_TYPES;
  }

  lemma TypesFrom(values: seq<Value>, types: seq<Type>, i: nat)
    requires i < |values| == |types| && HasType(values[i], types[i]) && HaveTypes(values[i + 1..], types[i + 1..])
    ensures HaveTypes(values[i..], types[i..])
  {
    hide HasType;
    assert values[i..][0] == values[i] && values[i..][1..] == values[i + 1..];
    assert types[i..][0] == types[i] && types[i..][1..] == types[i + 1..];
  }

  lemma HeaderLaidOut(values: seq<Value>)
    requires HeaderShaped(values) && Fits(values[6], 12) && LayoutOk(values[6], 12)
    ensures FitsAll(values, 0) && LayoutAllOk(values, 0)
  {
    hide Size;
    assert values[7..] == [];
    LaidOutFrom(values, 6, 12);
    HeaderWordSize(values[5], 8);
    LaidOutFrom(values, 5, 8);
    HeaderWordSize(values[4], 4);
    LaidOutFrom(values, 4, 4);
    HeaderWordSize(values[3], 3);
    LaidOutFrom(values, 3, 3);
    HeaderWordSize(values[2], 2);
    LaidOutFrom(values, 2, 2);
    HeaderWordSize(values[1], 1);
    LaidOutFrom(values, 1, 1);
    HeaderWordSize(values[0], 0);
    LaidOutFrom(values, 0, 0);
    assert values[0..] == values;
  }

  lemma HeaderWordSize(v: Value, pos: nat)
    requires v.Plain? && (v.basic.Byte? || (v.basic.Fixed? && v.basic.kind == Uint32 && pos % 4 == 0))
    ensures Size(v, pos) == if v.basic.Byte? then 1 else 4
    ensures Fits(v, pos) && LayoutOk(v, pos)
  {
    PaddingFacts(4, pos);
    hide Padding;
  }

  lemma LaidOutFrom(values: seq<Value>, i: nat, pos: nat)
    requires i < |values| && Fits(values[i], pos) && LayoutOk(values[i], pos)
    requires var next := pos + Size(values[i], pos);
             FitsAll(values[i + 1..], next) && LayoutAllOk(values[i + 1..], next)
    ensures FitsAll(values[i..], pos) && LayoutAllOk(values[i..], pos)
  {
    hide Size, Fits, LayoutOk;
    assert values[i..][0] == values[i] && values[i..][1..] == values[i + 1..];
  }

  lemma HeaderNormal(values: seq<Value>)
    requires HeaderShaped(values) && Normal(values[6]) == values[6]
    ensures NormalAll(values) == values
  {
    NormalIfEach(values, 7);
  }

  lemma {:induction false} NormalIfEach(values: seq<Value>, n: nat)
    requires n == |values| && forall i :: 0 <= i < n ==> Normal(values[i]) == values[i]
    ensures NormalAll(values) == values
  {
    hide Normal;
    if n > 0 {
      NormalIfEach(values[1..], n - 1);
    }
  }

  // ----- the message

  const MAX_ARRAY_SIZE: nat := 67108864
  const MAX_MESSAGE_SIZE: nat := 134217728

  /** The header is padded to the next multiple of eight. */
  function HeaderSize(fieldsSize: nat): nat {
    16 + fieldsSize + Padding(8, 16 + fieldsSize)
  }

  /**
   * A message whose header the wire format can hold: texts that fit, 32-bit serials and sizes. Its parameters can be
   * anything.
   */
  predicate Framable(m: Outgoing) {
    && EntriesOk(Entries(m))
    && m.serial < WORD_LIMIT && ((m.MethodReturn? || m.Error?) ==> m.replySerial < WORD_LIMIT)
    && SizeAll(HeaderFields(m), 0) < WORD_LIMIT && SizeAll(m.Parameters(), 0) < WORD_LIMIT
  }

  /** And whose parameters are sound. */
  ghost predicate Writable(m: Outgoing) {
    Framable(m) && ParametersOk(m.Parameters())
  }

  /** The receiver's limits on the field array and on the whole message. */
  predicate WithinLimits(m: Outgoing) {
    && SizeAll(HeaderFields(m), 0) <= MAX_ARRAY_SIZE
    && HeaderSize(SizeAll(HeaderFields(m), 0)) + SizeAll(m.Parameters(), 0) <= MAX_MESSAGE_SIZE
  }

  ghost predicate Sendable(m: Outgoing) {
    Writable(m) && WithinLimits(m)
  }

  /**
   * What becomes of a sent message: it is dispatched as sent exactly when its serials are below 2^31, and silently
   * dropped otherwise.
   */
  function Arrival(m: Outgoing): Handling {
    if SerialsOk(m) then Dispatched(Expected(m)) else Dropped
  }

  /** A header and body as they arrive are turned into the message that was sent, if its serials allow. */
  lemma HandledAsSent(o: Order, m: Outgoing)
    requires Writable(m)
    ensures var body := MarshallAll(o, m.Parameters(), 0);
            Handle(HeaderValues(o, m.TypeCode(), m.WireFlags(), |body|, m.serial, HeaderFields(m)), body) == Arrival(m)
  {
    hide MarshallAll, HeaderFields, ParseParameters, UnmarshallStruct, NumberOf, ReadFields, SignatureOfAll, NormalAll,
      ParametersOk, Entries, EntriesOk, HeaderSize, Size, SizeAll, ReceiveBase;
    var vs := m.Parameters();
    var body := MarshallAll(o, vs, 0);
    ByteSurvives(Flag(o));
    ByteSurvives(m.TypeCode());
    BaseArrives(o, m);
    if m.Error? {
      ErrorBodyReads(o, m);
    }
  }

  lemma EmptyNormal()
    ensures NormalAll([]) == []
  {}

  lemma BaseArrives(o: Order, m: Outgoing)
    requires ParametersOk(m.Parameters())
    requires m.serial < WORD_LIMIT && ((m.MethodReturn? || m.Error?) ==> m.replySerial < WORD_LIMIT)
    ensures var body := MarshallAll(o, m.Parameters(), 0);
            ReceiveBase(HeaderValues(o, m.TypeCode(), m.WireFlags(), |body|, m.serial, HeaderFields(m)), body)
            == if SerialsOk(m) then Success(Expected(m).(flags := m.WireFlags())) else Exception
  {
    hide MarshallAll, HeaderFields, ParseParameters, NumberOf, ReadFields, SignatureOfAll, NormalAll, ParametersOk;
    ByteSurvives(Flag(o));
    ByteSurvives(m.TypeCode());
    ByteSurvives(m.WireFlags());
    WordSurvives(m.serial);
    if ReplySerialOk(m) {
      FieldsAnnounce(m);
      ParametersParse(o, m.Parameters());
      EmptyMarshallsEmpty(o, 0);
      EmptyNormal();
    } else {
      FieldsRefuse(m);
    }
  }

  /** The receiver reads an error's body a second time, as a single string. */
  lemma ErrorBodyReads(o: Order, m: Outgoing)
    requires m.Error? && ParametersOk(m.Parameters())
    ensures UnmarshallStruct(o, STRING_STRUCT, MarshallAll(o, m.Parameters(), 0), 0).Ok?
  {
    ParametersParse(o, m.Parameters());
    var vs := m.Parameters();
    assert vs[1..] == [] && SignatureOfAll(vs[1..]) == [];
    assert SignatureOfAll(vs) == [CODE_STRING];
    hide UnmarshallStruct, MarshallAll;
    assert [OPEN_STRUCT] + [CODE_STRING] + [CLOSE_STRUCT] == STRING_STRUCT;
  }

  /** The order a message's flag stands for when its body is read: anything but 'l' is big-endian. */
  function BodyOrder(header: seq<Value>): Order
    requires header != []
  {
    if NumberOf(header[0], 256) == Success(LITTLE_FLAG) then Little else Big
  }

  /** A body that begins with a whole string, terminator included. */
  predicate BeginsWithString(o: Order, body: bytes) {
    |body| >= 5 && 5 + WordValue(o, body[..4]) <= |body|
  }

  /**
   * An error that can otherwise be built is dispatched exactly when its body begins with a string; if not it is
   * dropped.
   */
  lemma ErrorDispatchedExactly(header: seq<Value>, body: bytes)
    requires |header| >= 7 && NumberOf(header[1], 256) == Success(TYPE_ERROR)
    ensures Handle(header, body).Dispatched?
      <==> ReceiveBase(header, body).Success? && BeginsWithString(BodyOrder(header), body)
    ensures ReceiveBase(header, body).Success? && !BeginsWithString(BodyOrder(header), body) ==>
      Handle(header, body) == Dropped
  {
    hide NumberOf, ReceiveBase, UnmarshallStruct, BeginsWithString;
    StringStructRead(BodyOrder(header), body);
    if ReceiveBase(header, body).Success? {
      BaseReadsFlag(header, body);
    }
  }

  lemma BaseReadsFlag(header: seq<Value>, body: bytes)
    requires |header| >= 7 && ReceiveBase(header, body).Success?
    ensures NumberOf(header[0], 256).Success?
  {
    hide NumberOf, ReadFields, ParseParameters;
  }

  /** The second read of an error's body, as a struct of one string, ends normally or throws. */
  lemma StringStructRead(o: Order, body: bytes)
    ensures var r := UnmarshallStruct(o, STRING_STRUCT, body, 0);
            if BeginsWithString(o, body) then r.Ok? else r == Throw
  {
    hide UnmarshallStruct, BeginsWithString, ReadString;
    var signature: bytes := [CODE_STRING];
    assert Extract(STRING_STRUCT, 1) == signature && Padding(8, 0) == 0;
    StringRead(o, body);
    StringDispatch(o, body);
    assert var fields := UnmarshallFields(o, STRING_STRUCT, 1, body, 0);
           if BeginsWithString(o, body) then fields.Ok? else fields == Throw;
    StructOfFields(o, body);
  }

  lemma StringRead(o: Order, body: bytes)
    ensures if BeginsWithString(o, body) then ReadString(o, body, 0).Ok? else ReadString(o, body, 0) == Throw
  {
    hide WordValue;
    assert Padding(4, 0) == 0;
    assert |body| >= 4 ==> body[0..4] == body[..4];
  }

  lemma StringDispatch(o: Order, body: bytes)
    ensures Unmarshall(o, [CODE_STRING], body, 0)
         == match ReadString(o, body, 0)
            case Ok(text, pos) => Ok(Plain(String(text)), pos)
            case Throw => Throw
            case Outside => Outside
  {
    hide ReadString;
  }

  lemma StructOfFields(o: Order, body: bytes)
    ensures UnmarshallStruct(o, STRING_STRUCT, body, 0)
         == match UnmarshallFields(o, STRING_STRUCT, 1, body, 0)
            case Ok(fields, pos) => Ok(Struct(fields), pos)
            case Throw => Throw
            case Outside => Outside
  {
    hide UnmarshallFields;
  }

  /** An error without a body is never dispatched. */
  lemma EmptyErrorIsDropped(header: seq<Value>)
    requires |header| >= 7 && NumberOf(header[1], 256) == Success(TYPE_ERROR)
    ensures !Handle(header, []).Dispatched?
  {
    hide Handle, NumberOf, ReceiveBase;
    ErrorDispatchedExactly(header, []);
  }
}
