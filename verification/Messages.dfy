/**
 * Messages: the header fields each kind carries, the assembly of a packet from separately marshalled streams,
 * and the reconstruction of a message from an unmarshalled header and a body.
 */
module Messages {
  import opened Octets
  import opened Signatures
  import opened Values
  import opened Marshalling

  const TYPE_METHOD_CALL: byte := 1
  const TYPE_METHOD_RETURN: byte := 2
  const TYPE_ERROR: byte := 3
  const TYPE_SIGNAL: byte := 4

  const HEADER_PATH: byte := 1
  const HEADER_INTERFACE: byte := 2
  const HEADER_MEMBER: byte := 3
  const HEADER_ERROR_NAME: byte := 4
  const HEADER_REPLY_SERIAL: byte := 5
  const HEADER_DESTINATION: byte := 6
  const HEADER_SENDER: byte := 7
  const HEADER_SIGNATURE: byte := 8

  const LITTLE_FLAG: byte := 108    // 'l'
  const BIG_FLAG: byte := 66        // 'B'

  function Flag(o: Order): byte {
    if o.Little? then LITTLE_FLAG else BIG_FLAG
  }

  // ----- outgoing messages

  datatype Outgoing =
    | MethodCall(serial: nat, flags: nat, path: bytes, interface: bytes, member: bytes, destination: bytes,
                 parameters: seq<Value>)
    | MethodReturn(serial: nat, replySerial: nat, destination: bytes, parameters: seq<Value>)
    | Error(serial: nat, replySerial: nat, name: bytes, message: bytes, destination: bytes)
    | Signal(serial: nat, path: bytes, interface: bytes, member: bytes, destination: bytes, parameters: seq<Value>)
  {
    function TypeCode(): byte {
      match this
      case MethodCall(_, _, _, _, _, _, _) => TYPE_METHOD_CALL
      case MethodReturn(_, _, _, _) => TYPE_METHOD_RETURN
      case Error(_, _, _, _, _) => TYPE_ERROR
      case Signal(_, _, _, _, _, _) => TYPE_SIGNAL
    }

    /** Interactive authorisation is refused and unknown flags are cut off, which leaves the two low bits. */
    function WireFlags(): byte {
      if MethodCall? then flags % 4 else 0
    }

    function Parameters(): seq<Value> {
      if Error? then [Plain(String(message))] else parameters
    }
  }

  /** A header field before it becomes a value: its code and what it carries. */
  datatype Entry = Entry(code: byte, content: BasicValue)

  /** The array of `(yv)` structs, filled by repeated `add`. */
  function Fields(entries: seq<Entry>): seq<Value> {
    if entries == [] then [] else [FieldOf(entries[0])] + Fields(entries[1..])
  }

  function FieldOf(e: Entry): Value {
    Struct([Plain(Byte(e.code)), Variant([BasicCode(e.content)], Plain(e.content))])
  }

  /** The body signature is announced only when there are parameters. */
  function SignatureEntry(parameters: seq<Value>): seq<Entry> {
    if parameters == [] then [] else [Entry(HEADER_SIGNATURE, Signature(SignatureOfAll(parameters)))]
  }

  /** The fields each kind of message carries, in the order it adds them. */
  function Entries(m: Outgoing): seq<Entry> {
    match m
    case MethodCall(_, _, path, interface, member, destination, parameters) =>
      [Entry(HEADER_PATH, ObjectPath(path)), Entry(HEADER_DESTINATION, String(destination)),
       Entry(HEADER_INTERFACE, String(interface)), Entry(HEADER_MEMBER, String(member))]
      + SignatureEntry(parameters)
    case MethodReturn(_, replySerial, destination, parameters) =>
      [Entry(HEADER_DESTINATION, String(destination)), Entry(HEADER_REPLY_SERIAL, Fixed(Uint32, replySerial))]
      + SignatureEntry(parameters)
    case Error(_, replySerial, name, _, destination) =>
      [Entry(HEADER_DESTINATION, String(destination)), Entry(HEADER_ERROR_NAME, String(name)),
       Entry(HEADER_REPLY_SERIAL, Fixed(Uint32, replySerial))]
      + SignatureEntry(m.Parameters())
    case Signal(_, path, interface, member, destination, parameters) =>
      [Entry(HEADER_PATH, ObjectPath(path))]
      + (if destination != [] then [Entry(HEADER_DESTINATION, String(destination))] else [])
      + [Entry(HEADER_INTERFACE, String(interface)), Entry(HEADER_MEMBER, String(member))]
      + SignatureEntry(parameters)
  }

  function HeaderFields(m: Outgoing): seq<Value> {
    Fields(Entries(m))
  }

  // ----- assembly

  const FIELD_TYPE: Type := StructOf([Basic(CODE_BYTE), AnyVariant])
  const FIELD_TYPES: Type := ArrayOf(FIELD_TYPE)
  const HEADER_TYPES: seq<Type> :=
    [Basic(CODE_BYTE), Basic(CODE_BYTE), Basic(CODE_BYTE), Basic(CODE_BYTE),
     Basic(CODE_UINT32), Basic(CODE_UINT32), FIELD_TYPES]

  /** The fixed part of the header, sixteen bytes, as the header stream is filled. */
  function FixedHeader(o: Order, kind: byte, flags: byte, bodySize: nat, serial: nat, fieldsSize: nat): bytes {
    [Flag(o), kind, flags, 1]
    + Word(o, bodySize % WORD_LIMIT, 4) + Word(o, serial % WORD_LIMIT, 4) + Word(o, fieldsSize % WORD_LIMIT, 4)
  }

  /** `marshallMessage`: header, fields and body each marshalled in a stream of its own, then joined. */
  function Assemble(o: Order, kind: byte, flags: byte, serial: nat, fields: seq<Value>, parameters: seq<Value>): bytes {
    var body := MarshallAll(o, parameters, 0);
    var fieldBytes := MarshallAll(o, fields, 0);
    var packet := FixedHeader(o, kind, flags, |body|, serial, |fieldBytes|) + fieldBytes;
    packet + Zeros(Padding(8, |packet|)) + body
  }

  function Packet(o: Order, m: Outgoing): bytes {
    Assemble(o, m.TypeCode(), m.WireFlags(), m.serial, HeaderFields(m), m.Parameters())
  }

  /** The header as one value of the type the standard gives it. */
  function HeaderValues(o: Order, kind: byte, flags: byte, bodySize: nat, serial: nat, fields: seq<Value>): seq<Value> {
    [Plain(Byte(Flag(o))), Plain(Byte(kind)), Plain(Byte(flags)), Plain(Byte(1)),
     Plain(Fixed(Uint32, bodySize)), Plain(Fixed(Uint32, serial)), Array(Print(FIELD_TYPES), fields)]
  }

  /**
   * The split assembly emits exactly the one-stream form: the header as a single `(yyyyuua(yv))`, padding to eight,
   * the body.
   */
  lemma AssembleIsOneStream(o: Order, kind: byte, flags: byte, serial: nat, fields: seq<Value>, parameters: seq<Value>)
    requires AllHaveType(fields, FIELD_TYPE)
    ensures var body := MarshallAll(o, parameters, 0);
            var header := Struct(HeaderValues(o, kind, flags, |body| % WORD_LIMIT, serial % WORD_LIMIT, fields));
            var one := Marshall(o, header, 0);
            Assemble(o, kind, flags, serial, fields, parameters) == one + Zeros(Padding(8, |one|)) + body
  {
    hide MarshallAll, Marshall, Padding, FixedHeader, HeaderValues;
    var body := MarshallAll(o, parameters, 0);
    HeaderMarshalls(o, kind, flags, |body| % WORD_LIMIT, serial % WORD_LIMIT, fields);
    FixedHeaderCuts(o, kind, flags, |body|, serial, |MarshallAll(o, fields, 0)|);
  }

  /** The header stream cuts what it is given to 32 bits. */
  lemma FixedHeaderCuts(o: Order, kind: byte, flags: byte, bodySize: nat, serial: nat, fieldsSize: nat)
    ensures FixedHeader(o, kind, flags, bodySize % WORD_LIMIT, serial % WORD_LIMIT, fieldsSize)
         == FixedHeader(o, kind, flags, bodySize, serial, fieldsSize)
  {
    hide Word;
  }

  lemma HeaderMarshalls(o: Order, kind: byte, flags: byte, bodySize: nat, serial: nat, fields: seq<Value>)
    requires AllHaveType(fields, FIELD_TYPE) && bodySize < WORD_LIMIT && serial < WORD_LIMIT
    ensures var fieldBytes := MarshallAll(o, fields, 0);
            Marshall(o, Struct(HeaderValues(o, kind, flags, bodySize, serial, fields)), 0)
            == FixedHeader(o, kind, flags, bodySize, serial, |fieldBytes|) + fieldBytes
  {
    hide MarshallAll, Word, Marshall, MarshallArray, Print;
    var values := HeaderValues(o, kind, flags, bodySize, serial, fields);
    HeaderArray(o, fields);
    HeaderInOrder(o, values);
    StructAtZero(o, values);
  }

  lemma HeaderInOrder(o: Order, values: seq<Value>)
    requires |values| == 7 && values[6].Array?
    requires forall i :: 0 <= i < 4 ==> values[i].Plain? && values[i].basic.Byte?
    requires forall i :: 4 <= i < 6 ==> values[i].Plain? && values[i].basic.Fixed? && values[i].basic.kind == Uint32
    ensures MarshallAll(o, values, 0)
         == [values[0].basic.b, values[1].basic.b, values[2].basic.b, values[3].basic.b]
            + Word(o, values[4].basic.bits, 4) + Word(o, values[5].basic.bits, 4) + MarshallArray(o, values[6], 12)
  {
    hide MarshallAll, Word, Marshall, MarshallArray;
    ByteFirst(o, values, 0, 0);
    ByteFirst(o, values, 1, 1);
    ByteFirst(o, values, 2, 2);
    ByteFirst(o, values, 3, 3);
    WordFirst(o, values, 4, 4);
    WordFirst(o, values, 5, 8);
    assert values[6..] == [values[6]] && values[0..] == values;
    ArrayLast(o, values[6], 12);
  }

  lemma StructAtZero(o: Order, values: seq<Value>)
    ensures Marshall(o, Struct(values), 0) == MarshallAll(o, values, 0)
  {
    hide MarshallAll;
    assert Zeros(0) + MarshallAll(o, values, 0) == MarshallAll(o, values, 0);
  }

  lemma ByteFirst(o: Order, values: seq<Value>, i: nat, pos: nat)
    requires i < |values| && values[i].Plain? && values[i].basic.Byte?
    ensures MarshallAll(o, values[i..], pos) == [values[i].basic.b] + MarshallAll(o, values[i + 1..], pos + 1)
  {
    assert values[i..][0] == values[i] && values[i..][1..] == values[i + 1..];
  }

  lemma WordFirst(o: Order, values: seq<Value>, i: nat, pos: nat)
    requires i < |values| && values[i].Plain? && values[i].basic.Fixed? && values[i].basic.kind == Uint32 &&
      pos % 4 == 0
    ensures MarshallAll(o, values[i..], pos)
      == Word(o, values[i].basic.bits, 4) + MarshallAll(o, values[i + 1..], pos + 4)
  {
    PaddingFacts(4, pos);
    hide Padding, Word;
    assert values[i..][0] == values[i] && values[i..][1..] == values[i + 1..];
    assert Zeros(0) + Word(o, values[i].basic.bits, 4) == Word(o, values[i].basic.bits, 4);
  }

  lemma ArrayLast(o: Order, v: Value, pos: nat)
    requires v.Array?
    ensures MarshallAll(o, [v], pos) == MarshallArray(o, v, pos)
  {
    assert [v][1..] == [];
    assert MarshallAll(o, [v][1..], pos + |MarshallArray(o, v, pos)|) == [];
  }

  /** The field array starts at twelve; its contents start at sixteen, where they look as they do at zero. */
  lemma HeaderArray(o: Order, fields: seq<Value>)
    requires AllHaveType(fields, FIELD_TYPE)
    ensures var fieldBytes := MarshallAll(o, fields, 0);
            MarshallArray(o, Array(Print(FIELD_TYPES), fields), 12)
              == Word(o, |fieldBytes| % WORD_LIMIT, 4) + fieldBytes
  {
    hide MarshallAll, Word, ContentsStart, SignatureOf, HasType, AllHaveType, Print;
    HeaderArrayStart(fields);
    TranslationInvarianceAll(o, fields, 16, 0);
  }

  lemma HeaderArrayStart(fields: seq<Value>)
    requires AllHaveType(fields, FIELD_TYPE)
    ensures ContentsStart(SignatureOf(Array(Print(FIELD_TYPES), fields)), 12) == 16 &&
      ContentsStart(Print(FIELD_TYPES), 12) == 16
  {
    var v := Array(Print(FIELD_TYPES), fields);
    FieldTypesText();
    assert HasType(v, FIELD_TYPES);
    SignatureIsType(v, FIELD_TYPES);
    assert ContentsStart(SignatureOf(v), 12) == 16;
  }

  lemma FieldTypesText()
    ensures WellFormed(FIELD_TYPE) && WellFormed(FIELD_TYPES) && AllWellFormed(HEADER_TYPES)
    ensures Print(FIELD_TYPE)[0] == OPEN_STRUCT
    ensures Extract(Print(FIELD_TYPES), 1) == Print(FIELD_TYPE)
  {
    assert Holds(Print(FIELD_TYPES), 1, Print(FIELD_TYPE));
    ExtractInvertsPrint(Print(FIELD_TYPES), 1, FIELD_TYPE);
  }
}
