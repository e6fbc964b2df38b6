/**
 * Exactly which layouts survive. A misaligned array or double is always read back differently,
 * save for a double zero, whose bytes look the same from any offset.
 */
module Layout {
  import opened Octets
  import opened Signatures
  import opened Values
  import opened Marshalling
  import opened Unmarshalling
  import opened Locality
  import opened RoundTrips

  /** Every double zero stands on an 8-byte boundary. */
  predicate ZerosAligned(v: Value, pos: nat)
    decreases v, 1
  {
    match v
    case Empty => true
    case Plain(basic) => basic == Double(0) ==> pos % 8 == 0
    case Array(_, contents) => ZerosAllAligned(contents, ContentsStart(SignatureOf(v), pos))
    case Struct(fields) => ZerosAllAligned(fields, pos + Padding(8, pos))
    case DictEntry(_, key, value) =>
      var p := pos + Padding(8, pos);
      ZerosAligned(key, p) && ZerosAligned(value, p + Size(key, p))
    case Variant(contained, value) => ZerosAligned(value, pos + |contained| + 2)
  }

  predicate ZerosAllAligned(vs: seq<Value>, pos: nat)
    decreases vs, 2
  {
    vs == [] || (ZerosAligned(vs[0], pos) && ZerosAllAligned(vs[1..], pos + Size(vs[0], pos)))
  }

  /** v has been marshalled at pos of the view, with nothing known yet about its layout. */
  ghost predicate Written(o: Order, v: Value, t: Type, view: bytes, pos: nat) {
    && WellFormed(t) && HasType(v, t) && Fits(v, pos) && ZerosAligned(v, pos)
    && Holds(view, pos, Marshall(o, v, pos))
  }

  /** If a value is read back as itself, wherever the reader ends, then its layout was sound. */
  lemma {:induction false} ReadBackImpliesLayout(o: Order, v: Value, t: Type, view: bytes, pos: nat)
    requires Written(o, v, t, view, pos)
    requires Decode(o, t, view, pos).Ok? && Decode(o, t, view, pos).value == Normal(v)
    ensures LayoutOk(v, pos)
    decreases v, 2
  {
    hide Written, LayoutOk, Decode, Normal, Holds, Marshall;
    match t
    case Basic(_) => BasicImpliesLayout(o, v, t, view, pos);
    case AnyVariant =>
      var inner := VariantWritten(o, v, t, view, pos);
      VariantImpliesLayout(o, v, inner, view, pos);
    case ArrayOf(_) => ArrayImpliesLayout(o, v, t, view, pos);
    case StructOf(_) => StructImpliesLayout(o, v, t, view, pos);
    case EntryOf(_, _) =>
      EntryWritten(o, v, t, view, pos);
      EntryImpliesLayout(o, v, t, view, pos);
  }

  lemma BasicImpliesLayout(o: Order, v: Value, t: Type, view: bytes, pos: nat)
    requires t.Basic? && Written(o, v, t, view, pos)
    requires Decode(o, t, view, pos).Ok? && Decode(o, t, view, pos).value == Normal(v)
    ensures LayoutOk(v, pos)
  {
    hide Padding, PutWord, ReadDouble, Pow256;
    if v.basic.Double? {
      DoubleImpliesLayout(o, v.basic.bits, view, pos);
    }
  }

  lemma DoubleImpliesLayout(o: Order, bits: nat, view: bytes, pos: nat)
    requires bits < Pow256(8) && (bits == 0 ==> pos % 8 == 0)
    requires Holds(view, pos, PutWord(o, bits, 8, pos))
    requires ReadDouble(o, view, pos).Ok? && ReadDouble(o, view, pos).value == bits
    ensures pos % 8 == 0
  {
    hide Padding, Word, WordValue, Pow256;
    PaddingFacts(8, pos);
    var pad := Padding(8, pos);
    var w := Word(o, bits, 8);
    var seen := view[pos..pos + 8];
    WordOfValue(o, seen);
    HoldsWithin(view, pos, Zeros(pad) + w, 0, 8);
    assert (Zeros(pad) + w)[0..8] == Zeros(pad) + w[..8 - pad];
    if pad > 0 {
      ShiftedWordIsZero(w, pad);
      ZeroWord(o, 8);
      WordRoundTrip(o, bits, 8);
      ZeroIsBelow(8);
      WordRoundTrip(o, 0, 8);
    }
  }

  lemma ZeroIsBelow(n: nat)
    ensures 0 < Pow256(n)
  {}

  lemma VariantUnfolds(o: Order, v: Value, view: bytes, pos: nat)
    requires v.Variant? && pos <= |view|
    ensures Marshall(o, v, pos) == PutSignature(v.contained) + Marshall(o, v.value, pos + |v.contained| + 2)
    ensures LayoutOk(v, pos) <==> LayoutOk(v.value, pos + |v.contained| + 2)
    ensures Decode(o, AnyVariant, view, pos) == UnmarshallVariant(o, view, pos)
    ensures Normal(v) == Variant(v.contained, Normal(v.value))
  {
    hide UnmarshallVariant;
  }

  lemma VariantWritten(o: Order, v: Value, t: Type, view: bytes, pos: nat) returns (inner: Type)
    requires t.AnyVariant? && Written(o, v, t, view, pos)
    requires Decode(o, t, view, pos).Ok? && Decode(o, t, view, pos).value == Normal(v)
    ensures v.Variant? && v.contained == Print(inner) && |v.contained| <= 255
    ensures WellFormed(inner) && Written(o, v.value, inner, view, pos + |v.contained| + 2)
    ensures Holds(view, pos, PutSignature(v.contained))
    ensures UnmarshallVariant(o, view, pos).Ok? &&
      UnmarshallVariant(o, view, pos).value == Variant(v.contained, Normal(v.value))
    ensures LayoutOk(v.value, pos + |v.contained| + 2) ==> LayoutOk(v, pos)
  {
    hide Unmarshall, ReadSignature, Marshall, LayoutOk, Normal, Decode, UnmarshallVariant;
    inner :| WellFormed(inner) && HasType(v.value, inner);
    VariantUnfolds(o, v, view, pos);
    HoldsConcat(view, pos, PutSignature(v.contained), Marshall(o, v.value, pos + |v.contained| + 2));
    SignatureIsType(v.value, inner);
  }

  lemma {:induction false} VariantImpliesLayout(o: Order, v: Value, inner: Type, view: bytes, pos: nat)
    requires v.Variant? && v.contained == Print(inner) && |v.contained| <= 255
    requires WellFormed(inner) && Written(o, v.value, inner, view, pos + |v.contained| + 2)
    requires Holds(view, pos, PutSignature(v.contained))
    requires UnmarshallVariant(o, view, pos).Ok? &&
      UnmarshallVariant(o, view, pos).value == Variant(v.contained, Normal(v.value))
    ensures LayoutOk(v.value, pos + |v.contained| + 2)
    decreases v, 1
  {
    hide Written, LayoutOk, Normal, Holds, Print, ReadSignature, WellFormed, Decode, Unmarshall, PutSignature;
    SignatureReadsBack(v.contained, view, pos);
    SignatureDrivenIsTypeDriven(o, inner, view, pos + |v.contained| + 2);
    ReadBackImpliesLayout(o, v.value, inner, view, pos + |v.contained| + 2);
  }

  lemma {:induction false} StructImpliesLayout(o: Order, v: Value, t: Type, view: bytes, pos: nat)
    requires t.StructOf? && Written(o, v, t, view, pos)
    requires Decode(o, t, view, pos).Ok? && Decode(o, t, view, pos).value == Normal(v)
    ensures LayoutOk(v, pos)
    decreases v, 1
  {
    hide Written, LayoutOk, Decode, Normal, Padding, FitsAll, HaveTypes, DecodeFields, NormalAll, ZerosAllAligned,
      MarshallAll, Holds, AllWellFormed, LayoutAllOk;
    StructWritten(o, v, t, view, pos);
    StructReadBack(o, v, t, view, pos);
    FieldsImplyLayout(o, v.fields, t.fields, view, pos + Padding(8, pos));
  }

  lemma StructWritten(o: Order, v: Value, t: Type, view: bytes, pos: nat)
    requires t.StructOf? && Written(o, v, t, view, pos)
    ensures v.Struct? && WellFormed(t) && AllWellFormed(t.fields) && HaveTypes(v.fields, t.fields) && pos <= |view|
    ensures var p := pos + Padding(8, pos);
            && FitsAll(v.fields, p) && ZerosAllAligned(v.fields, p)
            && Holds(view, p, MarshallAll(o, v.fields, p))
            && (LayoutAllOk(v.fields, p) ==> LayoutOk(v, pos))
  {
    hide Padding, MarshallAll, FitsAll, HaveTypes, ZerosAllAligned, LayoutAllOk;
    var p := pos + Padding(8, pos);
    HoldsConcat(view, pos, Zeros(Padding(8, pos)), MarshallAll(o, v.fields, p));
  }

  lemma StructReadBack(o: Order, v: Value, t: Type, view: bytes, pos: nat)
    requires t.StructOf? && v.Struct? && WellFormed(t) && AllWellFormed(t.fields) && pos <= |view|
    requires Decode(o, t, view, pos).Ok? && Decode(o, t, view, pos).value == Normal(v)
    ensures var p := pos + Padding(8, pos);
            && p <= |view| && DecodeFields(o, t.fields, view, p).Ok?
            && DecodeFields(o, t.fields, view, p).value == NormalAll(v.fields)
  {
    hide Padding, DecodeFields, NormalAll;
  }

  lemma {:induction false} FieldsImplyLayout(o: Order, vs: seq<Value>, ts: seq<Type>, view: bytes, pos: nat)
    requires AllWellFormed(ts) && HaveTypes(vs, ts) && FitsAll(vs, pos) && ZerosAllAligned(vs, pos)
    requires Holds(view, pos, MarshallAll(o, vs, pos))
    requires DecodeFields(o, ts, view, pos).Ok? && DecodeFields(o, ts, view, pos).value == NormalAll(vs)
    ensures LayoutAllOk(vs, pos)
    decreases vs, 3
  {
    hide Marshall, Decode, Fits, LayoutOk, HasType, WellFormed, Normal, ZerosAligned;
    if vs != [] {
      var first := Marshall(o, vs[0], pos);
      HoldsConcat(view, pos, first, MarshallAll(o, vs[1..], pos + |first|));
      SizeAnyOrder(o, vs[0], pos);
      var head := Decode(o, ts[0], view, pos);
      var tail := DecodeFields(o, ts[1..], view, head.pos);
      assert ([head.value] + tail.value)[0] == head.value && ([head.value] + tail.value)[1..] == tail.value;
      assert NormalAll(vs)[0] == Normal(vs[0]) && NormalAll(vs)[1..] == NormalAll(vs[1..]);
      ReadBackImpliesLayout(o, vs[0], ts[0], view, pos);
      RoundTrip(o, vs[0], ts[0], view, pos);
      FieldsImplyLayout(o, vs[1..], ts[1..], view, pos + |first|);
    }
  }

  lemma EntryWritten(o: Order, v: Value, t: Type, view: bytes, pos: nat)
    requires t.EntryOf? && Written(o, v, t, view, pos)
    ensures v.DictEntry? && v.key.Plain? && InRange(v.key.basic) && BasicCode(v.key.basic) == t.key
    ensures WellFormed(t) && WellFormed(t.value) && HasType(v.value, t.value) && Holds(view, pos, Marshall(o, v, pos))
    ensures var q := pos + Padding(8, pos) + Size(v.key, pos + Padding(8, pos));
            Fits(v.value, q) && ZerosAligned(v.value, q)
  {
    hide Padding, Size, Print, InRange, BasicCode, Marshall;
  }

  lemma EntryLayout(v: Value, pos: nat)
    requires v.DictEntry? && v.key.Plain?
    ensures var p := pos + Padding(8, pos);
            p % 8 == 0 && (LayoutOk(v.value, p + Size(v.key, p)) ==> LayoutOk(v, pos))
  {
    PaddingFacts(8, pos);
    hide Padding, Size;
  }

  lemma {:induction false} EntryImpliesLayout(o: Order, v: Value, t: Type, view: bytes, pos: nat)
    requires t.EntryOf? && WellFormed(t) && WellFormed(t.value)
    requires v.DictEntry? && v.key.Plain? && InRange(v.key.basic) && BasicCode(v.key.basic) == t.key
    requires HasType(v.value, t.value) && Holds(view, pos, Marshall(o, v, pos))
    requires var q := pos + Padding(8, pos) + Size(v.key, pos + Padding(8, pos));
             Fits(v.value, q) && ZerosAligned(v.value, q)
    requires Decode(o, t, view, pos).Ok? && Decode(o, t, view, pos).value == Normal(v)
    ensures LayoutOk(v, pos)
    decreases v, 1
  {
    hide Padding, Print, InRange, WellFormed, Normal, LayoutOk, Size, HasType, Fits, ZerosAligned, Marshall,
      MarshallPair, Decode, DecodePair, BasicCode, IsBasic;
    var p := pos + Padding(8, pos);
    EntryUnfolds(o, v, t, view, pos);
    EntryLayout(v, pos);
    CodeIsBasic(v.key.basic);
    HoldsConcat(view, pos, Zeros(Padding(8, pos)), MarshallPair(o, v, p));
    PairImpliesLayout(o, v, t.value, view, p);
  }

  lemma {:induction false} PairImpliesLayout(o: Order, v: Value, e: Type, view: bytes, pos: nat)
    requires v.DictEntry? && v.key.Plain? && InRange(v.key.basic) && pos % 8 == 0
    requires WellFormed(e) && HasType(v.value, e) && Fits(v.value, pos + Size(v.key, pos)) &&
      ZerosAligned(v.value, pos + Size(v.key, pos))
    requires Holds(view, pos, MarshallPair(o, v, pos))
    requires IsBasic(BasicCode(v.key.basic))
    requires var r := DecodePair(o, BasicCode(v.key.basic), e, view, pos);
             r.Ok? && r.value == DictEntry(v.declared, Normal(v.key), Normal(v.value))
    ensures LayoutOk(v.value, pos + Size(v.key, pos))
    decreases v, 0
  {
    hide MarshallBasic, ReadBasic, Print, LayoutOk, WellFormed, Decode, Marshall, Normal, NormalBasic, BasicCode, Size,
      InRange, IsBasic, HasType, Fits, ZerosAligned;
    var first := Marshall(o, v.key, pos);
    var q := pos + |first|;
    SizeAnyOrder(o, v.key, pos);
    PlainMarshalls(o, v.key.basic, pos);
    HoldsConcat(view, pos, first, Marshall(o, v.value, q));
    BasicReadsBack(o, v.key.basic, view, pos);
    ReadBackImpliesLayout(o, v.value, e, view, q);
  }

  // ----- arrays

  lemma {:induction false} ArrayImpliesLayout(o: Order, v: Value, t: Type, view: bytes, pos: nat)
    requires t.ArrayOf? && Written(o, v, t, view, pos)
    requires Decode(o, t, view, pos).Ok? && Decode(o, t, view, pos).value == Normal(v)
    ensures LayoutOk(v, pos)
    decreases v, 1
  {
    ArrayWritten(o, v, t, view, pos);
    assert LayoutAllOk(v.contents, ContentsStart(SignatureOf(v), pos)) && (v.contents == [] || pos % 4 == 0) ==>
      LayoutOk(v, pos);
    assert DecodeArray(o, t.elem, view, pos).Ok? &&
      DecodeArray(o, t.elem, view, pos).value.contents == NormalAll(v.contents);
    hide Written, LayoutOk, Decode, Normal, Holds, Marshall, MarshallArray, DecodeArray, LayoutAllOk, ContentsWritten,
      ContentsStart, Extract, SignatureOf, AllHaveType, WellFormed;
    ArrayContentsImplyLayout(o, v, t.elem, view, pos);
  }

  lemma ArrayWritten(o: Order, v: Value, t: Type, view: bytes, pos: nat)
    requires t.ArrayOf? && Written(o, v, t, view, pos)
    ensures v.Array? && WellFormed(t.elem) && AllHaveType(v.contents, t.elem)
    ensures SignatureOf(v) == [CODE_ARRAY] + Print(t.elem) && Extract(SignatureOf(v), 1) == Print(t.elem)
    ensures ContentsWritten(o, v.contents, t.elem, ContentsStart(SignatureOf(v), pos))
    ensures Holds(view, pos, MarshallArray(o, v, pos))
  {
    SignatureIsType(v, t);
    assert Holds(Print(t), 1, Print(t.elem));
    ExtractInvertsPrint(Print(t), 1, t.elem);
    SizeAllAnyOrder(o, v.contents, ContentsStart(SignatureOf(v), pos));
  }

  /** The contents of an array, written from the place the array puts them. */
  ghost predicate ContentsWritten(o: Order, vs: seq<Value>, e: Type, start: nat) {
    && WellFormed(e) && AllHaveType(vs, e) && FitsAll(vs, start) && ZerosAllAligned(vs, start)
    && |MarshallAll(o, vs, start)| < WORD_LIMIT
  }

  lemma {:induction false} ArrayContentsImplyLayout(o: Order, v: Value, e: Type, view: bytes, pos: nat)
    requires v.Array? && WellFormed(e) && Extract(SignatureOf(v), 1) == Print(e)
    requires ContentsWritten(o, v.contents, e, ContentsStart(SignatureOf(v), pos))
    requires Holds(view, pos, MarshallArray(o, v, pos))
    requires pos <= |view| && DecodeArray(o, e, view, pos).Ok? && DecodeArray(o, e, view, pos).value.Array?
    requires DecodeArray(o, e, view, pos).value.contents == NormalAll(v.contents)
    ensures v.contents == [] || pos % 4 == 0
    ensures LayoutAllOk(v.contents, ContentsStart(SignatureOf(v), pos))
    decreases v, 0
  {
    hide Padding, MarshallAll, MarshallArray, Word, WellFormed, Extract, SignatureOf, Print, DecodeElements,
      DecodeArray, ReadWord, NormalAll, Alignment, LayoutAllOk, Pow256, ContentsWritten, ContentsStart, Holds;
    var start := ContentsStart(SignatureOf(v), pos);
    var body := MarshallAll(o, v.contents, start);
    ArrayHeld(o, v, e, view, pos);
    ArrayRead(o, SignatureOf(v), e, view, pos);
    var size := ReadWord(o, 4, view, pos).value;
    ElementsImplyLayout(o, v.contents, e, view, start, start + size);
    WordLimit();
    if |body| > 0 {
      FrontWordImpliesAligned(o, |body|, start - pos, view, pos);
    } else if v.contents != [] {
      NothingHoldsNothing(o, v.contents, e, view[..start + size], start);
    }
  }

  /** The bytes of an array, in the two parts it is read in. */
  lemma ArrayHeld(o: Order, v: Value, e: Type, view: bytes, pos: nat)
    requires v.Array? && ContentsWritten(o, v.contents, e, ContentsStart(SignatureOf(v), pos))
    requires Holds(view, pos, MarshallArray(o, v, pos))
    ensures var start := ContentsStart(SignatureOf(v), pos);
            var body := MarshallAll(o, v.contents, start);
            && pos + Padding(4, pos) + 4 <= start <= |view| && |body| < WORD_LIMIT
            && Holds(view, pos, Word(o, |body|, 4) + Zeros(start - pos - 4)) && Holds(view, start, body)
  {
    hide Padding, MarshallAll, Word, SignatureOf, ContentsWritten, ContentsStart, Zeros;
    var start := ContentsStart(SignatureOf(v), pos);
    var body := MarshallAll(o, v.contents, start);
    BodyIsShort(o, v.contents, e, start);
    HoldsConcat(view, pos, Word(o, |body|, 4) + Zeros(start - pos - 4), body);
  }

  /** What a successful array read went through. */
  lemma ArrayRead(o: Order, signature: bytes, e: Type, view: bytes, pos: nat)
    requires WellFormed(e) && pos <= |view| && Extract(signature, 1) == Print(e) && DecodeArray(o, e, view, pos).Ok?
    ensures ReadWord(o, 4, view, pos).Ok?
    ensures var start, size := ContentsStart(signature, pos), ReadWord(o, 4, view, pos).value;
            start + size <= |view|
            && var elements := DecodeElements(o, e, view[..start + size], start);
               && elements.Ok?
               && DecodeArray(o, e, view, pos) == Ok(Array([CODE_ARRAY] + Print(e), elements.value), start + size)
  {
    hide Padding, WellFormed, Extract, Print, DecodeElements, Alignment, WordValue;
  }

  lemma BodyIsShort(o: Order, vs: seq<Value>, e: Type, start: nat)
    requires ContentsWritten(o, vs, e, start)
    ensures |MarshallAll(o, vs, start)| < WORD_LIMIT
  {
    hide MarshallAll;
  }

  /**
   * The elements are the ones written only if the reader was given exactly the bytes written, each laid out soundly.
   */
  lemma {:induction false} ElementsImplyLayout(o: Order, vs: seq<Value>, e: Type, view: bytes, pos: nat, end: nat)
    requires WellFormed(e) && ContentsWritten(o, vs, e, pos)
    requires Holds(view, pos, MarshallAll(o, vs, pos)) && pos <= end <= |view|
    requires DecodeElements(o, e, view[..end], pos).Ok? && DecodeElements(o, e, view[..end], pos).value == NormalAll(vs)
    ensures LayoutAllOk(vs, pos) && end == pos + |MarshallAll(o, vs, pos)|
    decreases vs, 3
  {
    hide Marshall, Decode, Fits, LayoutOk, HasType, WellFormed, Normal, ZerosAligned;
    var sub := view[..end];
    if vs == [] {
      assert pos == end;
    } else {
      var first := Marshall(o, vs[0], pos);
      HoldsConcat(view, pos, first, MarshallAll(o, vs[1..], pos + |first|));
      SizeAnyOrder(o, vs[0], pos);
      var head := Decode(o, e, sub, pos);
      var tail := DecodeElements(o, e, sub, head.pos);
      assert ([head.value] + tail.value)[0] == head.value && ([head.value] + tail.value)[1..] == tail.value;
      assert NormalAll(vs)[0] == Normal(vs[0]) && NormalAll(vs)[1..] == NormalAll(vs[1..]);
      DecodeInPrefix(o, e, view, pos, end);
      ReadBackImpliesLayout(o, vs[0], e, view, pos);
      RoundTrip(o, vs[0], e, view, pos);
      ElementsImplyLayout(o, vs[1..], e, view, pos + |first|, end);
    }
  }

  lemma DecodeInPrefix(o: Order, t: Type, view: bytes, pos: nat, end: nat)
    requires WellFormed(t) && pos <= end <= |view| && Decode(o, t, view[..end], pos).Ok?
    ensures Decode(o, t, view, pos) == Decode(o, t, view[..end], pos)
  {
    hide Decode, Unmarshall, Print, WellFormed;
    SignatureDrivenIsTypeDriven(o, t, view, pos);
    SignatureDrivenIsTypeDriven(o, t, view[..end], pos);
    UnmarshallMoves(o, Print(t), view[..end], pos, view, 0);
  }

  lemma NothingHoldsNothing(o: Order, vs: seq<Value>, e: Type, view: bytes, pos: nat)
    requires WellFormed(e) && |view| == pos && DecodeElements(o, e, view, pos).Ok?
    requires DecodeElements(o, e, view, pos).value == NormalAll(vs)
    ensures vs == []
  {}

  /** The reader sees a non-zero length unchanged only when the array starts on a boundary. */
  lemma FrontWordImpliesAligned(o: Order, n: nat, room: nat, view: bytes, pos: nat)
    requires 0 < n < Pow256(4) && room >= Padding(4, pos) + 4
    requires Holds(view, pos, Word(o, n, 4) + Zeros(room - 4))
    requires ReadWord(o, 4, view, pos).Ok? && ReadWord(o, 4, view, pos).value == n
    ensures pos % 4 == 0
  {
    hide Padding, Word, WordValue, Pow256;
    PaddingFacts(4, pos);
    var pad := Padding(4, pos);
    var w := Word(o, n, 4);
    if pad > 0 {
      var seen := view[pos + pad..pos + pad + 4];
      HoldsWithin(view, pos, w + Zeros(room - 4), pad, pad + 4);
      assert (w + Zeros(room - 4))[pad..pad + 4] == w[pad..] + Zeros(pad);
      WordOfValue(o, seen);
      ShiftedWordIsZero(w, pad);
      ZeroWord(o, 4);
      WordRoundTrip(o, n, 4);
      WordRoundTrip(o, 0, 4);
    }
  }

  // ----- the main results

  /** The round trip in the source's own terms: a value is unmarshalled from its own signature. */
  lemma ValueRoundTrip(o: Order, v: Value, t: Type, view: bytes, pos: nat)
    requires Ready(v, t, pos) && Holds(view, pos, Marshall(o, v, pos))
    ensures Unmarshall(o, SignatureOf(v), view, pos) == Ok(Normal(v), pos + Size(v, pos))
  {
    assert WellFormed(t) && HasType(v, t);
    SignatureIsType(v, t);
    hide Ready, Unmarshall, Decode, Marshall, Normal, Print, SignatureOf, HasType, WellFormed;
    SignatureDrivenIsTypeDriven(o, t, view, pos);
    RoundTrip(o, v, t, view, pos);
    SizeAnyOrder(o, v, pos);
  }

  /** A written value is read back, value and extent, exactly when every array and double is where LayoutOk wants it. */
  lemma RoundTripExactlyWhenLaidOut(o: Order, v: Value, t: Type, view: bytes, pos: nat)
    requires Written(o, v, t, view, pos)
    ensures Unmarshall(o, SignatureOf(v), view, pos) == Ok(Normal(v), pos + Size(v, pos)) <==> LayoutOk(v, pos)
  {
    assert WellFormed(t) && HasType(v, t) && Holds(view, pos, Marshall(o, v, pos)) &&
      (LayoutOk(v, pos) ==> Ready(v, t, pos));
    SignatureIsType(v, t);
    hide Written, Ready, Unmarshall, Decode, Marshall, Normal, Print, SignatureOf, HasType, WellFormed, LayoutOk, Holds;
    SignatureDrivenIsTypeDriven(o, t, view, pos);
    if LayoutOk(v, pos) {
      ValueRoundTrip(o, v, t, view, pos);
    } else if Unmarshall(o, SignatureOf(v), view, pos) == Ok(Normal(v), pos + Size(v, pos)) {
      ReadBackImpliesLayout(o, v, t, view, pos);
    }
  }

  // ----- inputs on which the round trip fails, and why zero is set apart

  /** A double one byte into a stream, as in `(yd)`: the writer pads to eight, the reader does not. */
  lemma DoubleAfterByteIsLost(o: Order, bits: nat, view: bytes)
    requires 0 < bits < Pow256(8) && Holds(view, 1, Marshall(o, Plain(Double(bits)), 1))
    ensures Unmarshall(o, [CODE_DOUBLE], view, 1) != Ok(Plain(Double(bits)), 1 + Size(Plain(Double(bits)), 1))
  {
    hide Pow256, Unmarshall, Marshall;
    RoundTripExactlyWhenLaidOut(o, Plain(Double(bits)), Basic(CODE_DOUBLE), view, 1);
  }

  /** A one-byte array one byte into a stream, as in `(yay)`: its length is patched three bytes too early. */
  lemma ArrayAfterByteIsLost(o: Order, item: byte, view: bytes)
    requires Holds(view, 1, Marshall(o, Array([], [Plain(Byte(item))]), 1))
    ensures var v := Array([], [Plain(Byte(item))]);
            Unmarshall(o, SignatureOf(v), view, 1) != Ok(Normal(v), 1 + Size(v, 1))
  {
    var items := [Plain(Byte(item))];
    var v := Array([], items);
    OneByteArrayWritten(o, item, view);
    hide Marshall, Unmarshall, SignatureOf, Written, Size;
    RoundTripExactlyWhenLaidOut(o, v, ArrayOf(Basic(CODE_BYTE)), view, 1);
  }

  lemma OneByteArrayWritten(o: Order, item: byte, view: bytes)
    requires Holds(view, 1, Marshall(o, Array([], [Plain(Byte(item))]), 1))
    ensures var v := Array([], [Plain(Byte(item))]);
            Written(o, v, ArrayOf(Basic(CODE_BYTE)), view, 1) && !LayoutOk(v, 1)
  {
    var v := Array([], [Plain(Byte(item))]);
    hide MarshallAll, Marshall, ContentsStart, SizeAll, FitsAll, ZerosAllAligned, AllHaveType, SignatureOf, Holds,
      Print;
    OneByteArray(item, ContentsStart(SignatureOf(v), 1));
  }

  lemma OneByteArray(item: byte, start: nat)
    ensures var items := [Plain(Byte(item))];
            && AllHaveType(items, Basic(CODE_BYTE))
            && SizeAll(items, start) == 1 && FitsAll(items, start) && ZerosAllAligned(items, start)
  {
    var items := [Plain(Byte(item))];
    assert items[1..] == [];
    assert Size(items[0], start) == 1 && Fits(items[0], start) && ZerosAligned(items[0], start);
    assert FitsAll(items[1..], start + 1) && ZerosAllAligned(items[1..], start + 1) &&
      AllHaveType(items[1..], Basic(CODE_BYTE));
    assert SizeAll(items[1..], start + 1) == 0;
  }

  /** The double zero keeps its value even there, though the reader then stands seven bytes behind the writer. */
  lemma ZeroAfterByteSurvives(o: Order, view: bytes)
    requires Holds(view, 1, Marshall(o, Plain(Double(0)), 1))
    ensures Unmarshall(o, [CODE_DOUBLE], view, 1) == Ok(Plain(Double(0)), 9)
    ensures 1 + Size(Plain(Double(0)), 1) == 16
  {
    hide Zeros, Word, WordValue;
    ZeroDoubleWritten(o);
    ZeroDoubleWritten(Little);
    HoldsConcat(view, 1, Zeros(8), Zeros(7));
    ZeroDoubleRead(o, view, 1);
  }

  lemma ZeroDoubleWritten(o: Order)
    ensures Marshall(o, Plain(Double(0)), 1) == Zeros(8) + Zeros(7)
  {
    hide Word;
    ZeroWord(o, 8);
    assert Padding(8, 1) == 7;
    assert Zeros(7) + Zeros(8) == Zeros(8) + Zeros(7);
  }

  lemma ZeroDoubleRead(o: Order, view: bytes, pos: nat)
    requires Holds(view, pos, Zeros(8))
    ensures Unmarshall(o, [CODE_DOUBLE], view, pos) == Ok(Plain(Double(0)), pos + 8)
  {
    ZeroValue(8);
    hide Zeros, Reverse, LittleValue;
    assert ReadDouble(o, view, pos) == Ok(0, pos + 8);
  }
}
