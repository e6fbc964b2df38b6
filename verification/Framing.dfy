/** Framing: the header fits the size computed for it, and what the header says is where the assembly put it. */
module Framing {
  import opened Octets
  import opened Signatures
  import opened Values
  import opened Unmarshalling
  import opened Numerals
  import opened Messages
  import opened Receiving
  import opened Protocol
  import opened WireBytes

  /** A header field as it is read: a struct of its code and a variant. */
  predicate FieldShaped(field: Value) {
    field.Struct? && |field.fields| == 2 && field.fields[0].Plain? && field.fields[0].basic.Byte? &&
      field.fields[1].Variant?
  }

  predicate FieldsShaped(fields: seq<Value>) {
    forall f | f in fields :: FieldShaped(f)
  }

  /** The seven header values, when the header can be read at all. */
  ghost predicate HeaderReads(o: Order, view: bytes, fields: seq<Value>) {
    && |view| >= 16 && |fields| == 7
    && (forall i :: 0 <= i < 4 ==> fields[i] == Plain(Byte(view[i])))
    && fields[4] == Plain(Fixed(Uint32, WordValue(o, view[4..8])))
    && fields[5] == Plain(Fixed(Uint32, WordValue(o, view[8..12])))
    && fields[6].Array? && FieldsShaped(fields[6].contents)
  }

  /**
   * Unmarshalling a header reads the sixteen fixed bytes and exactly as many field bytes as the length word at twelve
   * says, so it ends inside the size computed by `getHeaderSize`, with fewer than eight bytes of padding left.
   */
  lemma HeaderEndsInFrame(o: Order, view: bytes)
    requires |view| >= 16
    ensures var n := WordValue(o, view[12..16]);
            var r := UnmarshallStruct(o, HEADER_SIGNATURE_TEXT, view, 0);
            r.Ok? ==> r.pos == 16 + n && r.value.Struct? && HeaderReads(o, view, r.value.fields)
    ensures var n := WordValue(o, view[12..16]);
            var r := UnmarshallStruct(o, HEADER_SIGNATURE_TEXT, view, 0);
            r.Ok? && n <= MAX_ARRAY_SIZE && |view| == HeaderSize(n) ==> |view| - 8 < r.pos <= |view|
  {
    hide UnmarshallStruct, DecodeFields, WordValue, WellFormed, HeaderSize, HeaderReads, AllWellFormed;
    FieldTypesText();
    HeaderIsDecoded(o, view);
    HeaderFieldsRead(o, view);
    var n := WordValue(o, view[12..16]);
    if n <= MAX_ARRAY_SIZE {
      HeaderSizeFacts(n);
    }
  }

  lemma HeaderFieldsRead(o: Order, view: bytes)
    requires |view| >= 16 && AllWellFormed(HEADER_TYPES)
    ensures var r := DecodeFields(o, HEADER_TYPES, view, 0);
            r.Ok? ==> r.pos == 16 + WordValue(o, view[12..16]) && HeaderReads(o, view, r.value)
  {
    hide Decode, DecodeFields, WordValue, WellFormed, FieldsShaped;
    ByteField(o, view, 0, 0);
    ByteField(o, view, 1, 1);
    ByteField(o, view, 2, 2);
    ByteField(o, view, 3, 3);
    WordField(o, view, 4, 4);
    WordField(o, view, 5, 8);
    FieldArray(o, view);
    assert HEADER_TYPES[0..] == HEADER_TYPES;
  }

  lemma HeaderIsDecoded(o: Order, view: bytes)
    requires AllWellFormed(HEADER_TYPES)
    ensures UnmarshallStruct(o, HEADER_SIGNATURE_TEXT, view, 0)
         == match DecodeFields(o, HEADER_TYPES, view, 0)
            case Ok(fields, pos) => Ok(Struct(fields), pos)
            case Throw => Throw
            case Outside => Outside
  {
    var t := StructOf(HEADER_TYPES);
    assert HEADER_SIGNATURE_TEXT[0] == OPEN_STRUCT;
    assert Padding(8, 0) == 0;
    hide UnmarshallStruct, DecodeFields, Print, Padding;
    SignatureDrivenIsTypeDriven(o, t, view, 0);
    StructDispatch(o, HEADER_SIGNATURE_TEXT, view, 0);
  }

  function Joined(v: Value, rest: Outcome<seq<Value>>): Outcome<seq<Value>> {
    if rest.Ok? then Ok([v] + rest.value, rest.pos) else rest
  }

  lemma ByteField(o: Order, view: bytes, i: nat, pos: nat)
    requires i < 4 && pos < |view| && AllWellFormed(HEADER_TYPES)
    ensures DecodeFields(o, HEADER_TYPES[i..], view, pos)
         == Joined(Plain(Byte(view[pos])), DecodeFields(o, HEADER_TYPES[i + 1..], view, pos + 1))
  {
    assert HEADER_TYPES[i..][0] == Basic(CODE_BYTE) && HEADER_TYPES[i..][1..] == HEADER_TYPES[i + 1..];
  }

  lemma WordField(o: Order, view: bytes, i: nat, pos: nat)
    requires 4 <= i < 6 && pos % 4 == 0 && pos + 4 <= |view| && AllWellFormed(HEADER_TYPES)
    ensures DecodeFields(o, HEADER_TYPES[i..], view, pos)
         == Joined(Plain(Fixed(Uint32, WordValue(o, view[pos..pos + 4]))),
           DecodeFields(o, HEADER_TYPES[i + 1..], view, pos + 4))
  {
    hide Decode, WordValue, WellFormed;
    WordDecodes(o, view, pos);
    assert HEADER_TYPES[i..][0] == Basic(CODE_UINT32) && HEADER_TYPES[i..][1..] == HEADER_TYPES[i + 1..];
  }

  lemma WordDecodes(o: Order, view: bytes, pos: nat)
    requires pos % 4 == 0 && pos + 4 <= |view|
    ensures WellFormed(Basic(CODE_UINT32))
    ensures Decode(o, Basic(CODE_UINT32), view, pos)
      == Ok(Plain(Fixed(Uint32, WordValue(o, view[pos..pos + 4]))), pos + 4)
  {
    PaddingFacts(4, pos);
    hide Padding, WordValue;
  }

  lemma FieldArray(o: Order, view: bytes)
    requires |view| >= 16 && AllWellFormed(HEADER_TYPES)
    ensures var r := DecodeFields(o, HEADER_TYPES[6..], view, 12);
            r.Ok? ==>
              && r.pos == 16 + WordValue(o, view[12..16])
              && |r.value| == 1 && r.value[0].Array? && FieldsShaped(r.value[0].contents)
  {
    assert HEADER_TYPES[6..] == [FIELD_TYPES] && [FIELD_TYPES][1..] == [];
    FieldTypesText();
    assert Padding(4, 12) == 0 && Padding(8, 16) == 0 && Alignment(Print(FIELD_TYPE)) == 8;
    hide WordValue, Padding, Print, DecodeElements, Alignment, FieldsShaped;
    var items := DecodeArray(o, FIELD_TYPE, view, 12);
    if items.Ok? {
      ElementsShaped(o, view[..items.pos], 16);
      assert DecodeFields(o, [], view, items.pos) == Ok([], items.pos);
    }
  }

  lemma {:induction false} ElementsShaped(o: Order, view: bytes, pos: nat)
    requires WellFormed(FIELD_TYPE) && pos <= |view|
    ensures var r := DecodeElements(o, FIELD_TYPE, view, pos);
            r.Ok? ==> FieldsShaped(r.value)
    decreases |view| - pos
  {
    hide Decode, FieldShaped;
    if pos < |view| && Decode(o, FIELD_TYPE, view, pos).Ok? {
      ElementShaped(o, view, pos);
      ElementsShaped(o, view, Decode(o, FIELD_TYPE, view, pos).pos);
    }
  }

  lemma ElementShaped(o: Order, view: bytes, pos: nat)
    requires WellFormed(FIELD_TYPE) && pos <= |view| && Decode(o, FIELD_TYPE, view, pos).Ok?
    ensures FieldShaped(Decode(o, FIELD_TYPE, view, pos).value)
  {
    hide UnmarshallVariant, DecodeFields, Padding;
    var p := pos + Padding(8, pos);
    var types := FIELD_TYPE.fields;
    assert types[1..] == [AnyVariant] && [AnyVariant][1..] == [];
    var code := Decode(o, types[0], view, p);
    FieldsUnfold(o, types, view, p);
    FieldsUnfold(o, [AnyVariant], view, code.pos);
    VariantShaped(o, view, code.pos);
    NoFields(o, view, UnmarshallVariant(o, view, code.pos).pos);
  }

  lemma FieldsUnfold(o: Order, ts: seq<Type>, view: bytes, pos: nat)
    requires ts != [] && WellFormed(ts[0]) && AllWellFormed(ts) && pos <= |view| && DecodeFields(o, ts, view, pos).Ok?
    ensures var first := Decode(o, ts[0], view, pos);
            first.Ok? && DecodeFields(o, ts, view, pos)
              == Joined(first.value, DecodeFields(o, ts[1..], view, first.pos))
  {
    hide Decode;
  }

  lemma NoFields(o: Order, view: bytes, pos: nat)
    requires pos <= |view|
    ensures DecodeFields(o, [], view, pos) == Ok([], pos)
  {}

  lemma VariantShaped(o: Order, view: bytes, pos: nat)
    requires pos <= |view| && UnmarshallVariant(o, view, pos).Ok?
    ensures UnmarshallVariant(o, view, pos).value.Variant?
  {
    hide Unmarshall, ReadSignature;
  }

  /** Reading a header never leaves the modelled domain for want of fields, and the body size is the word at four. */
  lemma HeaderStepReads(host: Order, st: State, buffer: bytes)
    requires Framed(st) && st.phase.UnmarshallHeader? && st.headerSize <= |buffer|
    ensures var next := HeaderStep(host, st, buffer);
            next.Success? ==>
              && HeaderReads(HeaderOrder(host, buffer[0]), buffer[..st.headerSize], next.value.header)
              && next.value.bodySize == WordValue(HeaderOrder(host, buffer[0]), buffer[4..8]) < INT_LIMIT
              && next.value.headerSize + next.value.bodySize <= MAX_MESSAGE_SIZE
  {
    hide UnmarshallStruct, WordValue, NumberOf, HeaderOrder, HeaderReads, HeaderSize;
    var o := HeaderOrder(host, buffer[0]);
    var view := buffer[..st.headerSize];
    assert view[4..8] == buffer[4..8];
    HeaderEndsInFrame(o, view);
    var r := UnmarshallStruct(o, HEADER_SIGNATURE_TEXT, view, 0);
    if r.Ok? {
      BodySizeRead(o, view, r.value.fields);
      assert [] + r.value.fields == r.value.fields;
    }
  }

  /** The body size, read through text: the word at four, if it is below 2^31. */
  lemma BodySizeRead(o: Order, view: bytes, fields: seq<Value>)
    requires HeaderReads(o, view, fields)
    ensures |fields| == 7
    ensures var size := WordValue(o, view[4..8]);
            NumberOf(fields[4], WORD_LIMIT) == if size < INT_LIMIT then Success(size) else Exception
  {
    hide WordValue, Pow256, NumberOf, FieldsShaped;
    WordOfValue(o, view[4..8]);
    WordLimit();
    WordSurvives(WordValue(o, view[4..8]));
  }

  // ----- the limits, in numbers

  /** 'l' is little-endian, 'B' big-endian; any other flag leaves the host's own order. */
  lemma OrderByFlag(host: Order, flag: byte)
    ensures HeaderOrder(host, flag) == if flag == 'l' as int then Little else if flag == 'B' as int then Big else host
  {}

  /**
   * Sixteen bytes are waited for. Of a field array of more than 64 MiB the header is refused; otherwise it is waited
   * for up to the least multiple of eight behind the fields.
   */
  lemma SizeStepExactly(host: Order, st: State, buffer: bytes)
    requires Framed(st) && st.phase.GetHeaderSize?
    ensures Needed(st) == 16
    ensures |buffer| >= 16 ==>
      var n := WordValue(HeaderOrder(host, buffer[0]), buffer[12..16]);
      if n > 64 * 1024 * 1024 then SizeStep(host, st, buffer) == Exception
      else
        && SizeStep(host, st, buffer).Success?
        && var next := SizeStep(host, st, buffer).value;
           next.phase == UnmarshallHeader && Needed(next) == next.headerSize && Reaches(next.headerSize, 8, 16 + n)
  {
    hide WordValue, Padding, Reaches;
    if |buffer| >= 16 {
      PaddingReaches(8, 16 + WordValue(HeaderOrder(host, buffer[0]), buffer[12..16]));
    }
  }

  /** A header that decodes is refused exactly for a body of 2^31 bytes and more or a message of more than 128 MiB. */
  lemma HeaderStepExactly(host: Order, st: State, buffer: bytes)
    requires Framed(st) && st.phase.UnmarshallHeader? && st.headerSize <= |buffer|
    requires UnmarshallStruct(HeaderOrder(host, buffer[0]), HEADER_SIGNATURE_TEXT, buffer[..st.headerSize], 0).Ok?
    ensures var bodySize := WordValue(HeaderOrder(host, buffer[0]), buffer[4..8]);
            if bodySize >= 0x8000_0000 || st.headerSize + bodySize > 128 * 1024 * 1024 then
              HeaderStep(host, st, buffer) == Exception
            else
              && HeaderStep(host, st, buffer).Success?
              && var next := HeaderStep(host, st, buffer).value;
                 next.phase == GetBody && next.bodySize == bodySize && Needed(next) == bodySize
  {
    hide UnmarshallStruct, WordValue, NumberOf, HeaderOrder, HeaderReads, HeaderSize;
    var o := HeaderOrder(host, buffer[0]);
    var view := buffer[..st.headerSize];
    assert view[4..8] == buffer[4..8];
    HeaderEndsInFrame(o, view);
    BodySizeRead(o, view, UnmarshallStruct(o, HEADER_SIGNATURE_TEXT, view, 0).value.fields);
  }
}
