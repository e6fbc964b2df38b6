/**
 * What keeps the receiver from getting stuck: a condition on the bytes of a stream, header by header and body by body.
 */
module StreamEndings {
  import opened Octets
  import opened Signatures
  import opened Values
  import opened Unmarshalling
  import opened Numerals
  import opened Messages
  import opened Receiving
  import opened Protocol
  import opened Framing
  import opened Endings

  // ----- headers

  /** A header step leaves the model only where decoding the header does. */
  lemma HeaderStuckExactly(host: Order, st: State, buffer: bytes)
    requires Framed(st) && st.phase.UnmarshallHeader? && st.headerSize <= |buffer|
    ensures var o, view := HeaderOrder(host, buffer[0]), buffer[..st.headerSize];
            HeaderStep(host, st, buffer).Unmodelled? <==> UnmarshallStruct(o, HEADER_SIGNATURE_TEXT, view, 0).Outside?
  {
    hide UnmarshallStruct, WordValue, NumberOf, HeaderReads, HeaderOrder;
    var o, view := HeaderOrder(host, buffer[0]), buffer[..st.headerSize];
    HeaderEndsInFrame(o, view);
    var r := UnmarshallStruct(o, HEADER_SIGNATURE_TEXT, view, 0);
    if r.Ok? {
      BodySizeRead(o, view, r.value.fields);
    }
  }

  ghost predicate CleanHeader(o: Order, view: bytes)
    requires |view| >= 16
  {
    WellFormed(StructOf(HEADER_TYPES)) && Clean(o, StructOf(HEADER_TYPES), view, 0)
  }

  lemma CleanHeaderEnds(o: Order, view: bytes)
    requires |view| >= 16 && CleanHeader(o, view)
    ensures !UnmarshallStruct(o, HEADER_SIGNATURE_TEXT, view, 0).Outside?
  {
    hide UnmarshallStruct, Clean, WellFormed, Decode, Print;
    CleanEnds(o, StructOf(HEADER_TYPES), view, 0);
    HeaderTextOpens();
    StructDispatch(o, HEADER_SIGNATURE_TEXT, view, 0);
  }

  lemma HeaderTextOpens()
    ensures HEADER_SIGNATURE_TEXT[0] == OPEN_STRUCT
  {}

  // ----- bodies

  /** The header values a successful header step keeps. */
  ghost predicate HeaderKept(header: seq<Value>) {
    && |header| == 7
    && (forall i :: 0 <= i < 4 ==> header[i].Plain? && header[i].basic.Byte?)
    && (forall i :: 4 <= i < 6 ==> header[i].Plain? && header[i].basic.Fixed? && header[i].basic.kind == Uint32)
    && header[6].Array? && FieldsShaped(header[6].contents)
  }

  /** No field holds a double, whose text is not modelled. */
  predicate FieldsHaveText(fields: seq<Value>)
    requires FieldsShaped(fields)
  {
    forall f | f in fields :: AsString(f.fields[1]).Some?
  }

  /** The announced signature lists well-formed types, and so does every signature met while reading the body. */
  ghost predicate CleanParameters(o: Order, signature: bytes, body: bytes) {
    || signature == []
    || exists ts :: ts != [] && AllWellFormed(ts) && PrintAll(ts) == signature && Clean(o, StructOf(ts), body, 0)
  }

  ghost predicate CleanBody(header: seq<Value>, body: bytes)
    requires HeaderKept(header)
  {
    && FieldsHaveText(header[6].contents)
    && (body != [] ==>
          var known := ReadFields(header[6].contents, NOTHING_KNOWN);
          known.Success? ==> CleanParameters(BodyOrder(header), known.value.signature, body))
  }

  lemma FieldSettles(field: Value, known: Known)
    requires FieldShaped(field) && AsString(field.fields[1]).Some?
    ensures !ReadField(field, known).Unmodelled?
  {
    hide Stoi, AsString;
    ByteSurvives(field.fields[0].basic.b);
    hide NumberIn;
    RecordSettles(field.fields[0].basic.b, field.fields[1], known);
  }

  lemma RecordSettles(code: nat, content: Value, known: Known)
    requires AsString(content).Some?
    ensures !Record(code, content, known).Unmodelled?
  {
    hide AsString, NumberIn;
  }

  lemma {:induction false} FieldsSettle(fields: seq<Value>, known: Known)
    requires FieldsShaped(fields) && FieldsHaveText(fields)
    ensures !ReadFields(fields, known).Unmodelled?
  {
    hide ReadField, FieldShaped, AsString;
    if fields != [] {
      assert fields[0] in fields;
      FieldSettles(fields[0], known);
      if ReadField(fields[0], known).Success? {
        FieldsSettle(fields[1..], ReadField(fields[0], known).value);
      }
    }
  }

  lemma ParametersSettle(littleEndian: bool, body: bytes, signature: bytes)
    requires CleanParameters(if littleEndian then Little else Big, signature, body)
    ensures !ParseParameters(littleEndian, body, signature).Unmodelled?
  {
    hide UnmarshallStruct, Clean, Decode, Print, PrintAll;
    var o := if littleEndian then Little else Big;
    if signature == [] {
      NoParametersSettle(o, body);
      assert [OPEN_STRUCT] + [] + [CLOSE_STRUCT] == [OPEN_STRUCT, CLOSE_STRUCT];
    } else {
      var ts :| ts != [] && AllWellFormed(ts) && PrintAll(ts) == signature && Clean(o, StructOf(ts), body, 0);
      PrintedStruct(ts);
      CleanEnds(o, StructOf(ts), body, 0);
      StructDispatch(o, Print(StructOf(ts)), body, 0);
    }
  }

  lemma PrintedStruct(ts: seq<Type>)
    ensures Print(StructOf(ts)) == [OPEN_STRUCT] + PrintAll(ts) + [CLOSE_STRUCT] &&
      Print(StructOf(ts))[0] == OPEN_STRUCT
  {}

  /** With no signature announced, the closing bracket itself is unmarshalled, which reads nothing. */
  lemma NoParametersSettle(o: Order, body: bytes)
    ensures UnmarshallStruct(o, [OPEN_STRUCT, CLOSE_STRUCT], body, 0) == Ok(Struct([Empty]), 0)
  {
    assert Padding(8, 0) == 0 && Extract([OPEN_STRUCT, CLOSE_STRUCT], 1) == [CLOSE_STRUCT];
    assert Unmarshall(o, [CLOSE_STRUCT], body, 0) == Ok(Empty, 0);
    assert UnmarshallFields(o, [OPEN_STRUCT, CLOSE_STRUCT], 1, body, 0) == Ok([Empty], 0);
  }

  lemma BytesSettle(header: seq<Value>)
    requires HeaderKept(header)
    ensures forall i :: 0 <= i < 4 ==> NumberOf(header[i], 256) == Success(header[i].basic.b)
    ensures !NumberOf(header[5], WORD_LIMIT).Unmodelled?
  {
    hide NumberIn, FieldsShaped;
    forall i | 0 <= i < 4
      ensures NumberOf(header[i], 256) == Success(header[i].basic.b)
    {
      ByteSurvives(header[i].basic.b);
    }
  }

  lemma BaseSettles(header: seq<Value>, body: bytes)
    requires HeaderKept(header) && CleanBody(header, body)
    ensures !ReceiveBase(header, body).Unmodelled?
  {
    hide NumberOf, ReadFields, ParseParameters, FieldsShaped, FieldsHaveText, CleanParameters;
    BytesSettle(header);
    FieldsSettle(header[6].contents, NOTHING_KNOWN);
    var known := ReadFields(header[6].contents, NOTHING_KNOWN);
    if body != [] && known.Success? {
      ParametersSettle(header[0].basic.b == LITTLE_FLAG, body, known.value.signature);
    }
  }

  /** A clean message is dispatched or dropped. */
  lemma CleanBodySettles(header: seq<Value>, body: bytes)
    requires HeaderKept(header) && CleanBody(header, body)
    ensures !Handle(header, body).Unknown?
  {
    hide NumberOf, ReceiveBase, UnmarshallStruct, CleanBody, FieldsShaped, BeginsWithString;
    BytesSettle(header);
    BaseSettles(header, body);
    StringStructRead(Little, body);
    StringStructRead(Big, body);
  }

  // ----- streams

  /** Every header and every body the receiver takes from the stream is clean. */
  ghost predicate CleanStream(host: Order, st: State, buffer: bytes)
    requires Framed(st)
    decreases |buffer|, Rank(st.phase)
  {
    |buffer| >= Needed(st) ==>
      match st.phase
      case GetHeaderSize =>
        var next := SizeStep(host, st, buffer);
        next.Success? ==> Framed(next.value) && CleanStream(host, next.value, buffer)
      case UnmarshallHeader =>
        && CleanHeader(HeaderOrder(host, buffer[0]), buffer[..st.headerSize])
        && var next := HeaderStep(host, st, buffer);
           next.Success? ==> Framed(next.value) && CleanStream(host, next.value, buffer[st.headerSize..])
      case GetBody =>
        && (HeaderKept(st.header) ==> CleanBody(st.header, buffer[..st.bodySize]))
        && CleanStream(host, START, buffer[st.bodySize..])
  }

  /** Processing a clean stream never leaves the model: it waits for more or stops at an exception. */
  lemma {:induction false} CleanStreamSettles(host: Order, st: State, buffer: bytes)
    requires Framed(st) && (st.phase.GetBody? ==> HeaderKept(st.header)) && CleanStream(host, st, buffer)
    ensures !Process(host, st, buffer).status.Stuck?
    decreases |buffer|, Rank(st.phase)
  {
    hide Process, Handle, HeaderStep, SizeStep, HeaderKept, CleanHeader, CleanBody, HeaderOrder;
    match st.phase
    case GetHeaderSize =>
      SizeTurn(host, st, buffer);
      if |buffer| >= 16 {
        SizeSettles(host, st, buffer);
        if SizeStep(host, st, buffer).Success? {
          CleanStreamSettles(host, SizeStep(host, st, buffer).value, buffer);
        }
      }
    case UnmarshallHeader =>
      HeaderTurn(host, st, buffer);
      if |buffer| >= st.headerSize {
        HeaderSettles(host, st, buffer);
        if HeaderStep(host, st, buffer).Success? {
          CleanStreamSettles(host, HeaderStep(host, st, buffer).value, buffer[st.headerSize..]);
        }
      }
    case GetBody =>
      BodyTurn(host, st, buffer);
      if |buffer| >= st.bodySize {
        CleanBodySettles(st.header, buffer[..st.bodySize]);
        CleanStreamSettles(host, START, buffer[st.bodySize..]);
      }
  }

  lemma SizeSettles(host: Order, st: State, buffer: bytes)
    requires |buffer| >= 16
    ensures !SizeStep(host, st, buffer).Unmodelled?
  {
    hide WordValue, HeaderSize;
  }

  lemma HeaderSettles(host: Order, st: State, buffer: bytes)
    requires Framed(st) && st.phase.UnmarshallHeader? && st.headerSize <= |buffer|
    requires CleanHeader(HeaderOrder(host, buffer[0]), buffer[..st.headerSize])
    ensures var next := HeaderStep(host, st, buffer);
            !next.Unmodelled? && (next.Success? ==> HeaderKept(next.value.header))
  {
    hide HeaderStep, UnmarshallStruct, CleanHeader, HeaderOrder, FieldsShaped, WordValue;
    CleanHeaderEnds(HeaderOrder(host, buffer[0]), buffer[..st.headerSize]);
    HeaderStuckExactly(host, st, buffer);
    HeaderStepReads(host, st, buffer);
  }

  /** However a clean stream is cut, no call gets stuck. */
  lemma CleanChunksSettle(host: Order, chunks: seq<bytes>)
    requires CleanStream(host, START, Flatten(chunks))
    ensures !ReceiveAll(host, START, [], chunks).status.Stuck?
  {
    hide Process, CleanStream, ReceiveAll;
    ChunkingInvariance(host, START, [], chunks);
    assert [] + Flatten(chunks) == Flatten(chunks);
    CleanStreamSettles(host, START, Flatten(chunks));
  }
}
