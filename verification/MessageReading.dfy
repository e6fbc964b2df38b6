/** The receiving constructors as they run, proved to build what Receiving says. */
module MessageReading {
  import opened Wrappers
  import opened Octets
  import opened Signatures
  import opened Values
  import opened Unmarshalling
  import opened InputStreams
  import opened Messages
  import opened Receiving

  /** `parseParameters`: the stream swaps when the message's order is not the host's. */
  method ParseParametersFrom(host: Order, littleEndian: bool, body: bytes, signature: bytes)
      returns (r: Result<seq<Value>>)
    ensures r == ParseParameters(littleEndian, body, signature)
  {
    hide UnmarshallStruct;
    var stream := new MessageIStream(body, host, if littleEndian then host != Little else host != Big);
    assert stream.DataOrder() == if littleEndian then Little else Big;
    var parsed := UnmarshallStructFrom([OPEN_STRUCT] + signature + [CLOSE_STRUCT], stream);
    var all := Settle(parsed);
    if all.IsFailure() {
      return all.PropagateFailure();
    }
    if !all.value.Struct? {
      return Success([]);
    }
    var parameters: seq<Value> := [];
    for i := 0 to |all.value.fields|
      invariant parameters == all.value.fields[..i]
    {
      parameters := parameters + [all.value.fields[i]];
    }
    assert all.value.fields[..|all.value.fields|] == all.value.fields;
    return Success(parameters);
  }

  /** The loop over the header fields. */
  method ReadFieldsFrom(fields: seq<Value>) returns (r: Result<Known>)
    ensures r == ReadFields(fields, NOTHING_KNOWN)
  {
    hide ReadField;
    var known := NOTHING_KNOWN;
    assert fields[0..] == fields;
    for i := 0 to |fields|
      invariant ReadFields(fields, NOTHING_KNOWN) == ReadFields(fields[i..], known)
    {
      assert fields[i..][0] == fields[i] && fields[i..][1..] == fields[i + 1..];
      var next := ReadField(fields[i], known);
      if next.IsFailure() {
        return next;
      }
      known := next.value;
    }
    return Success(known);
  }

  /** `Message::Base(header, body)`. */
  method BaseFrom(host: Order, header: seq<Value>, body: bytes) returns (r: Result<Received>)
    ensures r == ReceiveBase(header, body)
  {
    hide NumberOf, ReadFields, ParseParameters;
    if |header| < 7 {
      return Unmodelled;
    }
    var flag := NumberOf(header[0], 256);
    if flag.IsFailure() {
      return flag.PropagateFailure();
    }
    var kind := NumberOf(header[1], 256);
    if kind.IsFailure() {
      return kind.PropagateFailure();
    }
    var flags := NumberOf(header[2], 256);
    if flags.IsFailure() {
      return flags.PropagateFailure();
    }
    var serial := NumberOf(header[5], WORD_LIMIT);
    if serial.IsFailure() {
      return serial.PropagateFailure();
    }
    if !header[6].Array? {
      return Exception;
    }
    var fields := ReadFieldsFrom(header[6].contents);
    if fields.IsFailure() {
      return fields.PropagateFailure();
    }
    var known := fields.value;
    var parameters: Result<seq<Value>> := Success([]);
    if body != [] {
      parameters := ParseParametersFrom(host, flag.value == LITTLE_FLAG, body, known.signature);
    }
    if parameters.IsFailure() {
      return parameters.PropagateFailure();
    }
    return Success(Received(kind.value, flags.value, serial.value, known.replySerial,
                            known.path, known.interface, known.member, known.destination, known.sender,
                            parameters.value));
  }

  /** The switch of `onBodyComplete` over the message type, with the constructors it calls. */
  method BuildFrom(host: Order, header: seq<Value>, body: bytes) returns (r: Result<Option<Received>>)
    ensures r == Build(header, body)
  {
    hide NumberOf, ReceiveBase, UnmarshallStruct;
    if |header| < 7 {
      return Unmodelled;
    }
    var kind := NumberOf(header[1], 256);
    if kind.IsFailure() {
      return kind.PropagateFailure();
    }
    if kind.value != TYPE_METHOD_CALL && kind.value != TYPE_METHOD_RETURN && kind.value != TYPE_ERROR &&
      kind.value != TYPE_SIGNAL {
      return Success(None);
    }
    var base := BaseFrom(host, header, body);
    if base.IsFailure() {
      return base.PropagateFailure();
    }
    var m := base.value;
    if kind.value == TYPE_METHOD_CALL || kind.value == TYPE_METHOD_RETURN {
      m := m.(flags := 0);
    } else if kind.value == TYPE_ERROR {
      var flag := NumberOf(header[0], 256);
      if flag.IsFailure() {
        return flag.PropagateFailure();
      }
      var littleEndian := flag.value == LITTLE_FLAG;
      var stream := new MessageIStream(body, host, if littleEndian then host != Little else host != Big);
      assert stream.DataOrder() == if littleEndian then Little else Big;
      var text := UnmarshallStructFrom(STRING_STRUCT, stream);
      var settled := Settle(text);
      if settled.IsFailure() {
        return settled.PropagateFailure();
      }
    }
    return Success(Some(m));
  }
}
