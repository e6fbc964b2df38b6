/**
 * What a receiver knows of a message, said of its header and body directly: field codes and types are those of the
 * standard.
 */
module ReceivedFields {
  import opened Wrappers
  import opened Octets
  import opened Values
  import opened Unmarshalling
  import opened Numerals
  import opened Receiving
  import opened Framing
  import opened StreamEndings

  // ----- header fields

  /** A header field as a code and what it holds. */
  datatype Pair = Pair(code: nat, content: Value)

  /** A struct that begins with a number, cut to a byte, and goes on. */
  function PairOf(field: Value): Option<Pair> {
    if field.Struct? && |field.fields| >= 2 then
      match NumberOf(field.fields[0], 256)
      case Success(code) => Some(Pair(code, field.fields[1]))
      case _ => None
    else None
  }

  function PairsOf(fields: seq<Value>): (r: Option<seq<Pair>>)
    ensures r.Some? ==> |r.value| == |fields|
  {
    if fields == [] then Some([])
    else
      var n := |fields| - 1;
      var front, last := PairsOf(fields[..n]), PairOf(fields[n]);
      if front.Some? && last.Some? then Some(front.value + [last.value]) else None
  }

  /**
   * Texts are wanted of paths, interfaces, members, destinations, senders and signatures, a number of reply serials.
   */
  predicate Fits(p: Pair) {
    && (p.code in {1, 2, 3, 6, 7, 8} ==> AsString(p.content).Some?)
    && (p.code == 5 ==> NumberOf(p.content, 0x1_0000_0000).Success?)
  }

  predicate AllFit(pairs: seq<Pair>) {
    forall i :: 0 <= i < |pairs| ==> Fits(pairs[i])
  }

  /** What the last field with this code holds. */
  function LastWith(pairs: seq<Pair>, code: nat): (r: Option<Value>)
    ensures r.Some? ==>
      exists i :: 0 <= i < |pairs| && pairs[i] == Pair(code, r.value)
                  && forall k :: i < k < |pairs| ==> pairs[k].code != code
    ensures r.None? ==> forall i :: 0 <= i < |pairs| ==> pairs[i].code != code
  {
    if pairs == [] then None
    else
      var n := |pairs| - 1;
      if pairs[n].code == code then Some(pairs[n].content) else LastWith(pairs[..n], code)
  }

  function TextWith(pairs: seq<Pair>, code: nat): bytes {
    match LastWith(pairs, code)
    case None => []
    case Some(content) => if AsString(content).Some? then AsString(content).value else []
  }

  function NumberWith(pairs: seq<Pair>, code: nat): Option<nat> {
    match LastWith(pairs, code)
    case None => None
    case Some(content) =>
      match NumberOf(content, 0x1_0000_0000)
      case Success(n) => Some(n)
      case _ => None
  }

  /** Everything the fields say. */
  function KnownFrom(pairs: seq<Pair>): Known {
    Known(TextWith(pairs, 1), TextWith(pairs, 2), TextWith(pairs, 3), TextWith(pairs, 6), TextWith(pairs, 7),
          TextWith(pairs, 8), NumberWith(pairs, 5))
  }

  predicate AllReadable(fields: seq<Value>) {
    PairsOf(fields).Some? && AllFit(PairsOf(fields).value)
  }

  lemma {:induction false} ReadFieldsAppend(fields: seq<Value>, field: Value, known: Known)
    ensures ReadFields(fields + [field], known)
         == match ReadFields(fields, known)
            case Success(next) => ReadField(field, next)
            case Exception => Exception
            case Unmodelled => Unmodelled
  {
    hide ReadField;
    if fields == [] {
      assert [] + [field] == [field] && [field][1..] == [];
    } else {
      assert (fields + [field])[1..] == fields[1..] + [field];
      var next := ReadField(fields[0], known);
      if next.Success? {
        ReadFieldsAppend(fields[1..], field, next.value);
      }
    }
  }

  /**
   * The header fields can be read if and only if each of them can. Then the path, interface, member, destination,
   * sender and signature are the texts in the last fields with codes 1, 2, 3, 6, 7 and 8, empty where there is none,
   * and the reply serial is the number in the last field with code 5. Fields with other codes change nothing.
   */
  lemma {:induction false} FieldsReadExactly(fields: seq<Value>)
    ensures ReadFields(fields, NOTHING_KNOWN).Success? <==> AllReadable(fields)
    ensures AllReadable(fields) ==> ReadFields(fields, NOTHING_KNOWN) == Success(KnownFrom(PairsOf(fields).value))
  {
    hide PairOf, Fits, KnownFrom, ReadField;
    if fields == [] {
      NothingKnown();
    } else {
      var n := |fields| - 1;
      var front, last := fields[..n], fields[n];
      assert fields == front + [last];
      FieldsReadExactly(front);
      ReadFieldsAppend(front, last, NOTHING_KNOWN);
      if PairsOf(front).Some? {
        var pairs := PairsOf(front).value;
        FieldReads(pairs, last);
        if PairOf(last).Some? {
          FitAppends(pairs, PairOf(last).value);
        }
      }
    }
  }

  lemma NothingKnown()
    ensures ReadFields([], NOTHING_KNOWN) == Success(KnownFrom([]))
  {}

  lemma FitAppends(pairs: seq<Pair>, p: Pair)
    ensures AllFit(pairs + [p]) <==> AllFit(pairs) && Fits(p)
  {
    hide Fits;
    var all := pairs + [p];
    assert all[|pairs|] == p && forall i :: 0 <= i < |pairs| ==> all[i] == pairs[i];
  }

  /** A field more replaces what its own code stands for and leaves the rest. */
  lemma FieldReads(pairs: seq<Pair>, field: Value)
    ensures ReadField(field, KnownFrom(pairs)).Success? <==> PairOf(field).Some? && Fits(PairOf(field).value)
    ensures PairOf(field).Some? && Fits(PairOf(field).value) ==>
      ReadField(field, KnownFrom(pairs)) == Success(KnownFrom(pairs + [PairOf(field).value]))
  {
    hide NumberOf, AsString, KnownFrom, Record, Fits;
    if PairOf(field).Some? {
      var p := PairOf(field).value;
      KnownAppends(pairs, p);
      RecordsExactly(p, KnownFrom(pairs));
    }
  }

  /** Known, with what one pair more says. */
  function Updated(known: Known, p: Pair): Known {
    var text := if AsString(p.content).Some? then AsString(p.content).value else [];
    match p.code
    case 1 => known.(path := text)
    case 2 => known.(interface := text)
    case 3 => known.(member := text)
    case 5 =>
      var n := NumberOf(p.content, 0x1_0000_0000);
      known.(replySerial := if n.Success? then Some(n.value) else None)
    case 6 => known.(destination := text)
    case 7 => known.(sender := text)
    case 8 => known.(signature := text)
    case _ => known
  }

  lemma RecordsExactly(p: Pair, known: Known)
    ensures Record(p.code, p.content, known).Success? <==> Fits(p)
    ensures Fits(p) ==> Record(p.code, p.content, known) == Success(Updated(known, p))
  {
    hide NumberIn, AsString;
  }

  lemma KnownAppends(pairs: seq<Pair>, p: Pair)
    ensures KnownFrom(pairs + [p]) == Updated(KnownFrom(pairs), p)
  {
    hide TextWith, NumberWith;
    TextAppends(pairs, p);
    NumberAppends(pairs, p);
  }

  lemma TextAppends(pairs: seq<Pair>, p: Pair)
    ensures forall code ::
      TextWith(pairs + [p], code)
      == if p.code != code then TextWith(pairs, code)
         else if AsString(p.content).Some? then AsString(p.content).value else []
  {
    hide AsString, LastWith;
    LastAppends(pairs, p);
  }

  lemma NumberAppends(pairs: seq<Pair>, p: Pair)
    ensures var n := NumberOf(p.content, 0x1_0000_0000);
            forall code ::
              NumberWith(pairs + [p], code)
              == if p.code != code then NumberWith(pairs, code) else if n.Success? then Some(n.value) else None
  {
    hide NumberOf, LastWith;
    LastAppends(pairs, p);
  }

  lemma LastAppends(pairs: seq<Pair>, p: Pair)
    ensures forall code ::
      LastWith(pairs + [p], code) == if p.code == code then Some(p.content) else LastWith(pairs, code)
  {
    assert (pairs + [p])[..|pairs|] == pairs;
  }

  /** Of fields as they are read from the wire, the codes are the bytes they begin with. */
  lemma {:induction false} CodesAreBytes(fields: seq<Value>)
    requires FieldsShaped(fields)
    ensures PairsOf(fields).Some?
    ensures forall i :: 0 <= i < |fields| ==>
      FieldShaped(fields[i]) && PairsOf(fields).value[i] == Pair(fields[i].fields[0].basic.b, fields[i].fields[1])
  {
    hide NumberOf;
    if fields != [] {
      var n := |fields| - 1;
      assert fields[n] in fields;
      CodesAreBytes(fields[..n]);
      ByteSurvives(fields[n].fields[0].basic.b);
      assert forall i :: 0 <= i < n ==> fields[..n][i] == fields[i];
    }
  }

  // ----- messages

  /**
   * A dispatched message says what its header says: its type, one of the four, its serial, its flags unless it is a
   * call or a return, and what the fields hold; its parameters are those of the body.
   */
  lemma DispatchedAsAnnounced(header: seq<Value>, body: bytes)
    requires HeaderKept(header) && Handle(header, body).Dispatched?
    ensures AllReadable(header[6].contents)
    ensures var m, fields := Handle(header, body).message, PairsOf(header[6].contents).value;
            && m.kind == header[1].basic.b && 1 <= m.kind <= 4
            && m.serial == header[5].basic.bits < 0x8000_0000
            && m.flags == (if m.kind <= 2 then 0 else header[2].basic.b)
            && m.path == TextWith(fields, 1) && m.interface == TextWith(fields, 2) && m.member == TextWith(fields, 3)
            && m.destination == TextWith(fields, 6) && m.sender == TextWith(fields, 7)
            && m.replySerial == NumberWith(fields, 5)
            && (body == [] ==> m.parameters == [])
            && (body != [] ==>
                  ParseParameters(header[0].basic.b == 'l' as int, body, TextWith(fields, 8)) == Success(m.parameters))
  {
    hide NumberOf, ReadFields, ParseParameters, AllReadable, TextWith, NumberWith, FieldsShaped, UnmarshallStruct, Stoi;
    BytesSettle(header);
    SerialReads(header[5].basic);
    FieldsReadExactly(header[6].contents);
  }

  /**
   * A message is dispatched if and only if its type is one of the four, its serial is below 2^31, its fields can be
   * read, its body, if there is one, is a struct of the announced types, and the body of an error begins with a string.
   */
  lemma DispatchedExactly(header: seq<Value>, body: bytes)
    requires HeaderKept(header)
    ensures var little := header[0].basic.b == 'l' as int;
            Handle(header, body).Dispatched? <==>
              && 1 <= header[1].basic.b <= 4 && header[5].basic.bits < 0x8000_0000
              && AllReadable(header[6].contents)
              && (body == [] || BodyParses(little, body, TextWith(PairsOf(header[6].contents).value, 8)))
              && (header[1].basic.b == 3 ==> BeginsWithString(if little then Little else Big, body))
  {
    hide NumberOf, ReadFields, ParseParameters, AllReadable, TextWith, NumberWith, FieldsShaped, UnmarshallStruct, Stoi,
      BeginsWithString;
    BytesSettle(header);
    SerialReads(header[5].basic);
    FieldsReadExactly(header[6].contents);
    StringStructRead(if header[0].basic.b == 'l' as int then Little else Big, body);
  }

  predicate BodyParses(little: bool, body: bytes, signature: bytes) {
    ParseParameters(little, body, signature).Success?
  }

  lemma SerialReads(b: BasicValue)
    requires b.Fixed? && b.kind == Uint32
    ensures NumberOf(Plain(b), 0x1_0000_0000) == if b.bits < 0x8000_0000 then Success(b.bits) else Exception
  {
    StoiOfDecimal(b.bits);
    hide Stoi, Decimal;
  }

  /** A message of another type is dropped, whatever else it holds. */
  lemma OtherTypesAreDropped(header: seq<Value>, body: bytes)
    requires HeaderKept(header) && (header[1].basic.b == 0 || header[1].basic.b > 4)
    ensures Handle(header, body) == Dropped
  {
    hide NumberOf, ReceiveBase, FieldsShaped;
    BytesSettle(header);
  }
}
