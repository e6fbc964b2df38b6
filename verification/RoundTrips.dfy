/** What is marshalled is read back: the round trip, and the layouts for which it holds. */
module RoundTrips {
  import opened Octets
  import opened Signatures
  import opened Values
  import opened Marshalling
  import opened Unmarshalling

  lemma WordReadsBack(o: Order, w: nat, n: nat, view: bytes, pos: nat)
    requires w < Pow256(n) && Holds(view, pos, PutWord(o, w, n, pos))
    ensures ReadWord(o, n, view, pos) == Ok(w, pos + Padding(n, pos) + n)
    ensures |PutWord(o, w, n, pos)| == Padding(n, pos) + n
  {
    hide Padding, Word, WordValue, Pow256;
    HoldsConcat(view, pos, Zeros(Padding(n, pos)), Word(o, w, n));
    WordRoundTrip(o, w, n);
  }

  lemma StringReadsBack(o: Order, text: bytes, view: bytes, pos: nat)
    requires |text| < WORD_LIMIT && Holds(view, pos, PutString(o, text, pos))
    ensures ReadString(o, view, pos) == Ok(text, pos + |PutString(o, text, pos)|)
  {
    hide Padding, PutWord, ReadWord, Pow256;
    var head := PutWord(o, |text|, 4, pos);
    HoldsConcat(view, pos, head + text, [0]);
    HoldsConcat(view, pos, head, text);
    WordLimit();
    WordReadsBack(o, |text|, 4, view, pos);
  }

  lemma SignatureReadsBack(text: bytes, view: bytes, pos: nat)
    requires |text| <= 255 && Holds(view, pos, PutSignature(text))
    ensures ReadSignature(view, pos) == Ok(text, pos + |text| + 2)
  {
    HoldsConcat(view, pos, [|text|] + text, [0]);
    HoldsConcat(view, pos, [|text|], text);
    HoldsAt(view, pos, [|text|], 0);
  }

  /** A basic value whose bytes stand in the view is read back, and the read ends where they end. */
  lemma BasicReadsBack(o: Order, b: BasicValue, view: bytes, pos: nat)
    requires InRange(b) && Holds(view, pos, MarshallBasic(o, b, pos))
    requires b.Double? ==> pos % 8 == 0
    ensures IsBasic(BasicCode(b))
    ensures ReadBasic(o, BasicCode(b), view, pos) == Ok(NormalBasic(b), pos + |MarshallBasic(o, b, pos)|)
  {
    CodeIsBasic(b);
    hide IsBasic, BasicCode, MarshallBasic, ReadBasic, NormalBasic, InRange, Holds;
    match b
    case Byte(_) => ByteReadsBack(o, b, view, pos);
    case Boolean(_) => BooleanReadsBack(o, b, view, pos);
    case Fixed(_, _) => FixedReadsBack(o, b, view, pos);
    case Double(_) => DoubleReadsBack(o, b, view, pos);
    case String(_) => TextReadsBack(o, b, view, pos);
    case ObjectPath(_) => TextReadsBack(o, b, view, pos);
    case Signature(_) => TextReadsBack(o, b, view, pos);
  }

  lemma CodeIsBasic(b: BasicValue)
    ensures IsBasic(BasicCode(b))
  {}

  lemma ByteReadsBack(o: Order, b: BasicValue, view: bytes, pos: nat)
    requires b.Byte? && Holds(view, pos, MarshallBasic(o, b, pos))
    ensures ReadBasic(o, BasicCode(b), view, pos) == Ok(NormalBasic(b), pos + |MarshallBasic(o, b, pos)|)
  {
    HoldsAt(view, pos, [b.b], 0);
  }

  lemma BooleanReadsBack(o: Order, b: BasicValue, view: bytes, pos: nat)
    requires b.Boolean? && InRange(b) && Holds(view, pos, MarshallBasic(o, b, pos))
    ensures ReadBasic(o, BasicCode(b), view, pos) == Ok(NormalBasic(b), pos + |MarshallBasic(o, b, pos)|)
  {
    hide PutWord, ReadWord, Pow256, Padding;
    WordLimit();
    WordReadsBack(o, if b.word != 0 then 1 else 0, 4, view, pos);
  }

  lemma FixedReadsBack(o: Order, b: BasicValue, view: bytes, pos: nat)
    requires b.Fixed? && InRange(b) && Holds(view, pos, MarshallBasic(o, b, pos))
    ensures ReadBasic(o, BasicCode(b), view, pos) == Ok(NormalBasic(b), pos + |MarshallBasic(o, b, pos)|)
  {
    hide PutWord, ReadWord, Pow256, Padding;
    assert KindOf(b.kind.Code()) == b.kind;
    WordReadsBack(o, b.bits, b.kind.Width(), view, pos);
  }

  lemma DoubleReadsBack(o: Order, b: BasicValue, view: bytes, pos: nat)
    requires b.Double? && InRange(b) && pos % 8 == 0 && Holds(view, pos, MarshallBasic(o, b, pos))
    ensures ReadBasic(o, BasicCode(b), view, pos) == Ok(NormalBasic(b), pos + |MarshallBasic(o, b, pos)|)
  {
    hide PutWord, Pow256, Padding;
    PaddingFacts(8, pos);
    WordReadsBack(o, b.bits, 8, view, pos);
  }

  lemma TextReadsBack(o: Order, b: BasicValue, view: bytes, pos: nat)
    requires b.String? || b.ObjectPath? || b.Signature?
    requires InRange(b) && Holds(view, pos, MarshallBasic(o, b, pos))
    ensures ReadBasic(o, BasicCode(b), view, pos) == Ok(NormalBasic(b), pos + |MarshallBasic(o, b, pos)|)
  {
    hide PutString, ReadString, ReadSignature;
    if b.Signature? {
      SignatureReadsBack(b.text, view, pos);
    } else {
      StringReadsBack(o, b.text, view, pos);
    }
  }

  /** v is a well-formed value of type t that the wire can carry at pos, laid out so that it survives. */
  ghost predicate Ready(v: Value, t: Type, pos: nat) {
    WellFormed(t) && HasType(v, t) && Fits(v, pos) && LayoutOk(v, pos)
  }

  /**
   * Reading a value's bytes as its type gives the value back, ends exactly where the value ends,
   * and does not depend on what stands before or after.
   */
  lemma {:induction false} RoundTrip(o: Order, v: Value, t: Type, view: bytes, pos: nat)
    requires Ready(v, t, pos) && Holds(view, pos, Marshall(o, v, pos))
    ensures WellFormed(t)
    ensures Decode(o, t, view, pos) == Ok(Normal(v), pos + |Marshall(o, v, pos)|)
    decreases v, 2
  {
    assert WellFormed(t);
    hide Ready, Marshall, Decode, Normal, WellFormed;
    match t
    case Basic(_) => BasicRoundTrip(o, v, t, view, pos);
    case AnyVariant => VariantRoundTrip(o, v, t, view, pos);
    case ArrayOf(_) => ArrayRoundTrip(o, v, t, view, pos);
    case StructOf(_) => StructRoundTrip(o, v, t, view, pos);
    case EntryOf(_, _) =>
      EntryParts(v, t, pos);
      EntryRoundTrip(o, v, t, view, pos);
  }

  lemma BasicRoundTrip(o: Order, v: Value, t: Type, view: bytes, pos: nat)
    requires t.Basic? && Ready(v, t, pos) && Holds(view, pos, Marshall(o, v, pos))
    ensures Decode(o, t, view, pos) == Ok(Normal(v), pos + |Marshall(o, v, pos)|)
  {
    hide MarshallBasic, ReadBasic;
    BasicReadsBack(o, v.basic, view, pos);
  }

  lemma {:induction false} VariantRoundTrip(o: Order, v: Value, t: Type, view: bytes, pos: nat)
    requires t.AnyVariant? && Ready(v, t, pos) && Holds(view, pos, Marshall(o, v, pos))
    ensures Decode(o, t, view, pos) == Ok(Normal(v), pos + |Marshall(o, v, pos)|)
    decreases v, 1
  {
    var inner := VariantParts(v, t, pos);
    hide Ready, UnmarshallVariant, Print, Holds, MarshallBasic, ReadBasic, Unmarshall, SignatureOf, WellFormed;
    VariantReadsBack(o, v, inner, view, pos);
  }

  lemma VariantParts(v: Value, t: Type, pos: nat) returns (inner: Type)
    requires t.AnyVariant? && Ready(v, t, pos)
    ensures v.Variant? && v.contained == Print(inner) && |v.contained| <= 255
    ensures Ready(v.value, inner, pos + |v.contained| + 2)
  {
    inner :| WellFormed(inner) && HasType(v.value, inner);
    SignatureIsType(v.value, inner);
  }

  lemma {:induction false} VariantReadsBack(o: Order, v: Value, inner: Type, view: bytes, pos: nat)
    requires v.Variant? && v.contained == Print(inner) && |v.contained| <= 255
    requires Ready(v.value, inner, pos + |v.contained| + 2)
    requires Holds(view, pos, PutSignature(v.contained) + Marshall(o, v.value, pos + |v.contained| + 2))
    ensures UnmarshallVariant(o, view, pos)
         == Ok(Variant(v.contained, Normal(v.value)),
           pos + |v.contained| + 2 + |Marshall(o, v.value, pos + |v.contained| + 2)|)
    decreases v, 0
  {
    hide Ready, Print, WellFormed, Unmarshall, ReadSignature, Decode, Marshall, Normal;
    var p := pos + |v.contained| + 2;
    HoldsConcat(view, pos, PutSignature(v.contained), Marshall(o, v.value, p));
    SignatureReadsBack(v.contained, view, pos);
    RoundTrip(o, v.value, inner, view, p);
    SignatureDrivenIsTypeDriven(o, inner, view, p);
  }

  lemma {:induction false} ArrayRoundTrip(o: Order, v: Value, t: Type, view: bytes, pos: nat)
    requires t.ArrayOf? && Ready(v, t, pos) && Holds(view, pos, Marshall(o, v, pos))
    ensures Decode(o, t, view, pos) == Ok(Normal(v), pos + |Marshall(o, v, pos)|)
    decreases v, 1
  {
    ArrayParts(o, v, t, pos);
    assert Holds(view, pos, MarshallArray(o, v, pos));
    assert WellFormed(t.elem) && (v.contents == [] || pos % 4 == 0);
    hide MarshallArray, DecodeArray, WellFormed, Extract, ContentsStart, FitsAll, LayoutAllOk, HasType, Fits, LayoutOk,
      NormalAll;
    ArrayReadsBack(o, v, t.elem, view, pos);
  }

  lemma {:induction false} ArrayReadsBack(o: Order, v: Value, e: Type, view: bytes, pos: nat)
    requires v.Array? && WellFormed(e) && AllHaveType(v.contents, e) && (v.contents == [] || pos % 4 == 0)
    requires SignatureOf(v) == [CODE_ARRAY] + Print(e) && Extract(SignatureOf(v), 1) == Print(e)
    requires var start := ContentsStart(SignatureOf(v), pos);
             && FitsAll(v.contents, start) && LayoutAllOk(v.contents, start)
             && |MarshallAll(o, v.contents, start)| < WORD_LIMIT
    requires Holds(view, pos, MarshallArray(o, v, pos))
    ensures DecodeArray(o, e, view, pos)
      == Ok(Array(SignatureOf(v), NormalAll(v.contents)), pos + |MarshallArray(o, v, pos)|)
    decreases v, 0
  {
    hide Padding, MarshallAll, Word, WellFormed, Extract, SignatureOf, Print,
      DecodeElements, ReadWord, AllHaveType, NormalAll, Alignment, FitsAll, LayoutAllOk;
    var start := ContentsStart(SignatureOf(v), pos);
    var body := MarshallAll(o, v.contents, start);
    var end := start + |body|;
    LengthReadsBack(o, v, view, pos);
    HoldsConcat(view, pos, Word(o, |body|, 4) + Zeros(start - pos - 4), body);
    assert view[..end][start..end] == view[start..end];
    ElementsRoundTrip(o, v.contents, e, view[..end], start);
  }

  /** What an array being ready says about its signature and its contents. */
  lemma ArrayParts(o: Order, v: Value, t: Type, pos: nat)
    requires t.ArrayOf? && Ready(v, t, pos)
    ensures v.Array? && AllHaveType(v.contents, t.elem)
    ensures SignatureOf(v) == [CODE_ARRAY] + Print(t.elem) && Extract(SignatureOf(v), 1) == Print(t.elem)
    ensures var start := ContentsStart(SignatureOf(v), pos);
            && FitsAll(v.contents, start) && LayoutAllOk(v.contents, start)
            && |MarshallAll(o, v.contents, start)| == SizeAll(v.contents, start) < WORD_LIMIT
  {
    SignatureIsType(v, t);
    assert Holds(Print(t), 1, Print(t.elem));
    ExtractInvertsPrint(Print(t), 1, t.elem);
    SizeAllAnyOrder(o, v.contents, ContentsStart(SignatureOf(v), pos));
  }

  /** The length word is found where the reader looks for it. */
  lemma LengthReadsBack(o: Order, v: Value, view: bytes, pos: nat)
    requires v.Array? && (v.contents == [] || pos % 4 == 0)
    requires |MarshallAll(o, v.contents, ContentsStart(SignatureOf(v), pos))| < WORD_LIMIT
    requires Holds(view, pos, MarshallArray(o, v, pos))
    ensures ReadWord(o, 4, view, pos)
         == Ok(|MarshallAll(o, v.contents, ContentsStart(SignatureOf(v), pos))|, pos + Padding(4, pos) + 4)
  {
    hide Padding, ContentsStart, Word, SignatureOf, MarshallAll, ReadWord, Pow256;
    var start := ContentsStart(SignatureOf(v), pos);
    var body := MarshallAll(o, v.contents, start);
    PaddingFacts(4, pos);
    WordLimit();
    if v.contents == [] {
      EmptyMarshallsEmpty(o, start);
    }
    HoldsConcat(view, pos, Word(o, |body|, 4) + Zeros(start - pos - 4), body);
    FrontWord(o, |body|, start - pos, view, pos);
  }

  lemma EmptyMarshallsEmpty(o: Order, pos: nat)
    ensures MarshallAll(o, [], pos) == []
  {}

  /** A word followed by zeros is read from the next boundary, if it stands on one or is zero. */
  lemma FrontWord(o: Order, n: nat, room: nat, view: bytes, pos: nat)
    requires n < Pow256(4) && room >= Padding(4, pos) + 4 && (n == 0 || Padding(4, pos) == 0)
    requires Holds(view, pos, Word(o, n, 4) + Zeros(room - 4))
    ensures ReadWord(o, 4, view, pos) == Ok(n, pos + Padding(4, pos) + 4)
  {
    hide Padding, Word, ReadWord, Pow256;
    var pad := Padding(4, pos);
    if pad == 0 {
      HoldsConcat(view, pos, Word(o, n, 4), Zeros(room - 4));
      assert Zeros(0) + Word(o, n, 4) == Word(o, n, 4);
    } else {
      ZeroWord(o, 4);
      assert Zeros(4) + Zeros(room - 4) == Zeros(pad) + Zeros(4) + Zeros(room - 4 - pad);
      HoldsConcat(view, pos, Zeros(pad) + Zeros(4), Zeros(room - 4 - pad));
    }
    WordReadsBack(o, n, 4, view, pos);
  }

  lemma {:induction false} ElementsRoundTrip(o: Order, vs: seq<Value>, e: Type, view: bytes, pos: nat)
    requires WellFormed(e) && AllHaveType(vs, e) && FitsAll(vs, pos) && LayoutAllOk(vs, pos)
    requires Holds(view, pos, MarshallAll(o, vs, pos)) && |view| == pos + |MarshallAll(o, vs, pos)|
    ensures DecodeElements(o, e, view, pos) == Ok(NormalAll(vs), |view|)
    decreases vs, 3
  {
    hide Marshall, Decode, Fits, LayoutOk, HasType, WellFormed, Normal;
    if vs != [] {
      var first := Marshall(o, vs[0], pos);
      HoldsConcat(view, pos, first, MarshallAll(o, vs[1..], pos + |first|));
      SizeAnyOrder(o, vs[0], pos);
      RoundTrip(o, vs[0], e, view, pos);
      ElementsRoundTrip(o, vs[1..], e, view, pos + |first|);
    }
  }

  lemma {:induction false} StructRoundTrip(o: Order, v: Value, t: Type, view: bytes, pos: nat)
    requires t.StructOf? && Ready(v, t, pos) && Holds(view, pos, Marshall(o, v, pos))
    ensures Decode(o, t, view, pos) == Ok(Normal(v), pos + |Marshall(o, v, pos)|)
    decreases v, 1
  {
    hide Ready, Marshall, Padding, MarshallAll, FitsAll, LayoutAllOk, HaveTypes, DecodeFields, Decode, Normal,
      NormalAll, AllWellFormed, Holds;
    StructReady(v, t, pos);
    StructHeld(o, v, view, pos);
    FieldsRoundTrip(o, v.fields, t.fields, view, pos + Padding(8, pos));
    StructDecodes(o, v, t, view, pos);
  }

  lemma StructReady(v: Value, t: Type, pos: nat)
    requires t.StructOf? && Ready(v, t, pos)
    ensures v.Struct? && WellFormed(t) && AllWellFormed(t.fields) && HaveTypes(v.fields, t.fields)
    ensures var p := pos + Padding(8, pos);
            FitsAll(v.fields, p) && LayoutAllOk(v.fields, p)
  {
    hide Padding, FitsAll, LayoutAllOk, HaveTypes;
  }

  lemma StructHeld(o: Order, v: Value, view: bytes, pos: nat)
    requires v.Struct? && Holds(view, pos, Marshall(o, v, pos))
    ensures var p := pos + Padding(8, pos);
            && p <= |view| && Holds(view, p, MarshallAll(o, v.fields, p))
            && pos + |Marshall(o, v, pos)| == p + |MarshallAll(o, v.fields, p)|
  {
    hide Padding, MarshallAll;
    var p := pos + Padding(8, pos);
    HoldsConcat(view, pos, Zeros(Padding(8, pos)), MarshallAll(o, v.fields, p));
  }

  lemma StructDecodes(o: Order, v: Value, t: Type, view: bytes, pos: nat)
    requires t.StructOf? && v.Struct? && WellFormed(t) && AllWellFormed(t.fields) && pos + Padding(8, pos) <= |view|
    requires var r := DecodeFields(o, t.fields, view, pos + Padding(8, pos));
             r.Ok? && r.value == NormalAll(v.fields)
    ensures Decode(o, t, view, pos) == Ok(Normal(v), DecodeFields(o, t.fields, view, pos + Padding(8, pos)).pos)
  {
    hide Padding, DecodeFields, NormalAll;
  }

  lemma {:induction false} FieldsRoundTrip(o: Order, vs: seq<Value>, ts: seq<Type>, view: bytes, pos: nat)
    requires AllWellFormed(ts) && HaveTypes(vs, ts) && FitsAll(vs, pos) && LayoutAllOk(vs, pos)
    requires Holds(view, pos, MarshallAll(o, vs, pos))
    ensures DecodeFields(o, ts, view, pos) == Ok(NormalAll(vs), pos + |MarshallAll(o, vs, pos)|)
    decreases vs, 3
  {
    hide Marshall, Decode, Fits, LayoutOk, HasType, WellFormed, Normal;
    if vs != [] {
      var first := Marshall(o, vs[0], pos);
      HoldsConcat(view, pos, first, MarshallAll(o, vs[1..], pos + |first|));
      SizeAnyOrder(o, vs[0], pos);
      RoundTrip(o, vs[0], ts[0], view, pos);
      FieldsRoundTrip(o, vs[1..], ts[1..], view, pos + |first|);
    }
  }

  lemma {:induction false} EntryRoundTrip(o: Order, v: Value, t: Type, view: bytes, pos: nat)
    requires t.EntryOf? && WellFormed(t) && WellFormed(t.value)
    requires v.DictEntry? && v.declared == Print(t) && v.key.Plain? && InRange(v.key.basic) &&
      BasicCode(v.key.basic) == t.key
    requires var p := pos + Padding(8, pos);
             LayoutOk(v.key, p) && Ready(v.value, t.value, p + Size(v.key, p))
    requires Holds(view, pos, Marshall(o, v, pos))
    ensures Decode(o, t, view, pos) == Ok(Normal(v), pos + |Marshall(o, v, pos)|)
    decreases v, 1
  {
    hide Ready, Padding, MarshallPair, DecodePair, LayoutOk, Size, Print, WellFormed, IsBasic, Marshall, Decode,
      Normal, InRange;
    var p := pos + Padding(8, pos);
    EntryUnfolds(o, v, t, view, pos);
    HoldsConcat(view, pos, Zeros(Padding(8, pos)), MarshallPair(o, v, p));
    PairRoundTrip(o, v, t.value, view, p);
  }

  lemma EntryUnfolds(o: Order, v: Value, t: Type, view: bytes, pos: nat)
    requires v.DictEntry? && t.EntryOf? && WellFormed(t) && pos <= |view|
    ensures var p := pos + Padding(8, pos);
            && Marshall(o, v, pos) == Zeros(Padding(8, pos)) + MarshallPair(o, v, p)
            && (p <= |view| ==> Decode(o, t, view, pos) == DecodePair(o, t.key, t.value, view, p))
            && Normal(v) == DictEntry(v.declared, Normal(v.key), Normal(v.value))
  {
    hide Padding, MarshallPair, DecodePair, Print;
  }

  lemma EntryParts(v: Value, t: Type, pos: nat)
    requires t.EntryOf? && Ready(v, t, pos)
    ensures v.DictEntry? && v.declared == Print(t) && v.key.Plain? && InRange(v.key.basic) &&
      BasicCode(v.key.basic) == t.key
    ensures var p := pos + Padding(8, pos);
            WellFormed(t) && WellFormed(t.value) && LayoutOk(v.key, p) && Ready(v.value, t.value, p + Size(v.key, p))
  {
    hide Padding, Size, Print, InRange, BasicCode;
  }

  lemma {:induction false} PairRoundTrip(o: Order, v: Value, e: Type, view: bytes, pos: nat)
    requires v.DictEntry? && v.key.Plain? && InRange(v.key.basic) && WellFormed(e)
    requires LayoutOk(v.key, pos) && Ready(v.value, e, pos + Size(v.key, pos))
    requires Holds(view, pos, MarshallPair(o, v, pos))
    ensures IsBasic(BasicCode(v.key.basic))
    ensures DecodePair(o, BasicCode(v.key.basic), e, view, pos)
         == Ok(DictEntry(Print(EntryOf(BasicCode(v.key.basic), e)), Normal(v.key), Normal(v.value)),
           pos + |MarshallPair(o, v, pos)|)
    decreases v, 0
  {
    hide MarshallBasic, ReadBasic, Print, Ready, LayoutOk, WellFormed, Decode, Marshall, Normal, NormalBasic,
      BasicCode, Size, InRange, IsBasic;
    var first := Marshall(o, v.key, pos);
    var q := pos + |first|;
    SizeAnyOrder(o, v.key, pos);
    PlainMarshalls(o, v.key.basic, pos);
    PlainNormal(v.key.basic);
    HoldsConcat(view, pos, first, Marshall(o, v.value, q));
    BasicReadsBack(o, v.key.basic, view, pos);
    RoundTrip(o, v.value, e, view, q);
  }

  lemma PlainNormal(b: BasicValue)
    ensures Normal(Plain(b)) == Plain(NormalBasic(b))
  {}
}
