/**
 * Unmarshalling. A stream is a view of the whole buffer up to where it may read, and a position in it:
 * the source's offset always equals the index into the outermost buffer, sub-streams included.
 */
module Unmarshalling {
  import opened Octets
  import opened Signatures
  import opened Values

  /**
   * The end of a read: a value and the new position, an exception, or `Outside` where the source has no
   * result at all: a struct whose first field is that struct again, or an array item that takes no bytes.
   */
  datatype Outcome<+T> = Ok(value: T, pos: nat) | Throw | Outside {
    predicate IsFailure() {
      !Ok?
    }

    function PropagateFailure<U>(): Outcome<U>
      requires !Ok?
    {
      if Throw? then Throw else Outside
    }

    function Extract(): (T, nat)
      requires Ok?
    {
      (value, pos)
    }
  }

  /** A successful read moves forward and stays inside the view. */
  predicate Inside<T>(r: Outcome<T>, view: bytes, pos: nat) {
    r.Ok? ==> pos <= r.pos <= |view|
  }

  function ReadByte(view: bytes, pos: nat): (r: Outcome<byte>)
    ensures r.Ok? ==> r.pos == pos + 1 <= |view|
  {
    if pos < |view| then Ok(view[pos], pos + 1) else Throw
  }

  /** `read(uint8_t*, n)` and the string read: n bytes, without alignment. */
  function ReadBytes(n: nat, view: bytes, pos: nat): (r: Outcome<bytes>)
    ensures r.Ok? ==> r.pos == pos + n <= |view| && |r.value| == n
  {
    if pos + n <= |view| then Ok(view[pos..pos + n], pos + n) else Throw
  }

  function Align(a: nat, view: bytes, pos: nat): (r: Outcome<()>)
    ensures r.Ok? ==> r.pos == pos + Padding(a, pos) <= |view|
  {
    if pos + Padding(a, pos) <= |view| then Ok((), pos + Padding(a, pos)) else Throw
  }

  /** `read<T>`: align to the width, then an integer in the order the stream's data has. */
  function ReadWord(o: Order, n: nat, view: bytes, pos: nat): (r: Outcome<nat>)
    ensures r.Ok? ==> r.pos == pos + Padding(n, pos) + n <= |view|
  {
    var (_, p) :- Align(n, view, pos);
    var (s, q) :- ReadBytes(n, view, p);
    Ok(WordValue(o, s), q)
  }

  /** `read(double*)`, which does not align. */
  function ReadDouble(o: Order, view: bytes, pos: nat): (r: Outcome<nat>)
    ensures r.Ok? ==> r.pos == pos + 8 <= |view|
  {
    var (s, p) :- ReadBytes(8, view, pos);
    Ok(WordValue(o, s), p)
  }

  function ReadString(o: Order, view: bytes, pos: nat): (r: Outcome<bytes>)
    ensures r.Ok? ==> pos < r.pos <= |view|
  {
    var (size, p) :- ReadWord(o, 4, view, pos);
    var (text, q) :- ReadBytes(size, view, p);
    var (_, end) :- ReadByte(view, q);
    Ok(text, end)
  }

  function ReadSignature(view: bytes, pos: nat): (r: Outcome<bytes>)
    ensures r.Ok? ==> pos + 2 <= r.pos <= |view| && |r.value| <= 255
  {
    var (size, p) :- ReadByte(view, pos);
    var (text, q) :- ReadBytes(size, view, p);
    var (_, end) :- ReadByte(view, q);
    Ok(text, end)
  }

  function KindOf(code: byte): FixedKind {
    if code == CODE_INT16 then Int16
    else if code == CODE_UINT16 then Uint16
    else if code == CODE_INT32 then Int32
    else if code == CODE_UINT32 then Uint32
    else if code == CODE_INT64 then Int64
    else Uint64
  }

  function ReadBasic(o: Order, code: byte, view: bytes, pos: nat): (r: Outcome<BasicValue>)
    requires IsBasic(code)
    ensures r.Ok? ==> pos < r.pos <= |view|
  {
    if code == CODE_BYTE then
      var (b, p) :- ReadByte(view, pos);
      Ok(Byte(b), p)
    else if code == CODE_BOOLEAN then
      var (w, p) :- ReadWord(o, 4, view, pos);
      Ok(Boolean(w), p)
    else if code == CODE_DOUBLE then
      var (w, p) :- ReadDouble(o, view, pos);
      Ok(Double(w), p)
    else if code == CODE_STRING then
      var (s, p) :- ReadString(o, view, pos);
      Ok(String(s), p)
    else if code == CODE_OBJECT_PATH then
      var (s, p) :- ReadString(o, view, pos);
      Ok(ObjectPath(s), p)
    else if code == CODE_SIGNATURE then
      var (s, p) :- ReadSignature(view, pos);
      Ok(Signature(s), p)
    else
      var (w, p) :- ReadWord(o, KindOf(code).Width(), view, pos);
      Ok(Fixed(KindOf(code), w), p)
  }

  // ----- driven by the signature text, as the source does it

  /** The check on dict keys accepts 'h', although no value of that type can be created. */
  predicate IsValidBasicType(code: byte) {
    IsBasic(code) || code == 'h' as int
  }

  /**
   * `create` followed by `unmarshallData`: dispatch on the first code; an unknown one creates an empty value and reads
   * nothing.
   */
  function Unmarshall(o: Order, signature: bytes, view: bytes, pos: nat): (r: Outcome<Value>)
    requires pos <= |view|
    ensures Inside(r, view, pos)
    decreases |view| - pos, |signature|, Opens(signature), 3, 0
  {
    var code := At(signature, 0);
    if IsBasic(code) then
      var (b, p) :- ReadBasic(o, code, view, pos);
      Ok(Plain(b), p)
    else if code == CODE_VARIANT then UnmarshallVariant(o, view, pos)
    else if code == CODE_ARRAY then UnmarshallArray(o, signature, view, pos)
    else if code == OPEN_STRUCT then UnmarshallStruct(o, signature, view, pos)
    else if code == OPEN_ENTRY then UnmarshallEntry(o, signature, view, pos)
    else Ok(Empty, pos)
  }

  function UnmarshallVariant(o: Order, view: bytes, pos: nat): (r: Outcome<Value>)
    requires pos <= |view|
    ensures r.Ok? ==> pos < r.pos <= |view|
    decreases |view| - pos, 0, 0, 0, 0
  {
    var (contained, p) :- ReadSignature(view, pos);
    var (v, q) :- Unmarshall(o, contained, view, p);
    Ok(Variant(contained, v), q)
  }

  function UnmarshallArray(o: Order, signature: bytes, view: bytes, pos: nat): (r: Outcome<Value>)
    requires pos <= |view|
    ensures Inside(r, view, pos)
    decreases |view| - pos, |signature|, Opens(signature), 2, 0
  {
    var (size, p) :- ReadWord(o, 4, view, pos);
    var element := Extract(signature, 1);
    var (_, q) :- Align(Alignment(element), view, p);
    var (_, end) :- ReadBytes(size, view, q);
    var (contents, _) :- UnmarshallElements(o, element, view[..end], q);
    Ok(Array(signature, contents), end)
  }

  function UnmarshallStruct(o: Order, signature: bytes, view: bytes, pos: nat): (r: Outcome<Value>)
    requires pos <= |view| && At(signature, 0) == OPEN_STRUCT
    ensures Inside(r, view, pos)
    decreases |view| - pos, |signature|, Opens(signature), 2, 0
  {
    var (_, p) :- Align(8, view, pos);
    var (fields, q) :- UnmarshallFields(o, signature, 1, view, p);
    Ok(Struct(fields), q)
  }

  function UnmarshallEntry(o: Order, signature: bytes, view: bytes, pos: nat): (r: Outcome<Value>)
    requires pos <= |view|
    ensures Inside(r, view, pos)
    decreases |view| - pos, |signature|, Opens(signature), 2, 0
  {
    var (_, p) :- Align(8, view, pos);
    if |signature| < 2 || !IsValidBasicType(signature[1]) then Throw
    else
      var element := Extract(signature, 2);
      var (k, q) :- Unmarshall(o, [signature[1]], view, p);
      var (v, end) :- Unmarshall(o, element, view, q);
      Ok(DictEntry(signature, k, v), end)
  }

  /** The loop of `Array::unmarshall` over its sub-stream; a turn that reads nothing would repeat forever. */
  function UnmarshallElements(o: Order, element: bytes, view: bytes, pos: nat): (r: Outcome<seq<Value>>)
    requires pos <= |view|
    ensures r.Ok? ==> r.pos == |view|
    decreases |view| - pos, |element|, Opens(element), 4, 0
  {
    if pos == |view| then Ok([], pos)
    else
      var (v, p) :- Unmarshall(o, element, view, pos);
      if p == pos then Outside
      else
        var (vs, q) :- UnmarshallElements(o, element, view, p);
        Ok([v] + vs, q)
  }

  /** How many structs a signature opens before anything else. */
  function Opens(signature: bytes): nat {
    if signature != [] && signature[0] == OPEN_STRUCT then 1 + Opens(signature[1..]) else 0
  }

  /**
   * The text cut out for a field is shorter than its struct's, or begins with fewer brackets: an unclosed bracket is
   * moved from the front to the back. Only a text of nothing but brackets is cut out of itself.
   */
  lemma FieldShrinks(signature: bytes, idx: nat)
    requires At(signature, 0) == OPEN_STRUCT && idx >= 1
    ensures var one := Extract(signature, idx);
            one == signature || |one| < |signature| || (|one| == |signature| && Opens(one) < Opens(signature))
  {
    if idx == 1 && |signature| >= 2 && signature[1] == OPEN_STRUCT &&
      Scan(signature, 2, OPEN_STRUCT, CLOSE_STRUCT, 1).None? {
      BracketMoves(signature[1..]);
      assert [OPEN_STRUCT] + signature[1..] == signature;
      assert Extract(signature, 1) == signature[1..] + [OPEN_STRUCT];
    }
  }

  lemma {:induction false} BracketMoves(rest: bytes)
    ensures rest + [OPEN_STRUCT] == [OPEN_STRUCT] + rest || Opens(rest + [OPEN_STRUCT]) == Opens(rest)
  {
    if rest == [] {
      assert [] + [OPEN_STRUCT] == [OPEN_STRUCT] + [];
    } else if rest[0] == OPEN_STRUCT {
      BracketMoves(rest[1..]);
      assert (rest + [OPEN_STRUCT])[1..] == rest[1..] + [OPEN_STRUCT];
      assert rest == [OPEN_STRUCT] + rest[1..];
    }
  }

  /** The do-while loop of `Struct::unmarshall`, from the field at idx. */
  function UnmarshallFields(o: Order, signature: bytes, idx: nat, view: bytes, pos: nat): (r: Outcome<seq<Value>>)
    requires pos <= |view| && At(signature, 0) == OPEN_STRUCT && idx >= 1
    ensures Inside(r, view, pos)
    decreases |view| - pos, |signature|, Opens(signature), 1, |signature| - idx
  {
    var one := Extract(signature, idx);
    if one == signature then Outside
    else
      FieldShrinks(signature, idx);
      var (v, p) :- Unmarshall(o, one, view, pos);
      if idx + |one| < |signature| - 1 then
        var (vs, q) :- UnmarshallFields(o, signature, idx + |one|, view, p);
        Ok([v] + vs, q)
      else Ok([v], p)
  }

  // ----- driven by the type

  /**
   * The simple form: reading a value of a known type. Only a variant still carries its type as text.
   * A value always takes at least one byte, so no array loop can repeat without reading.
   */
  function Decode(o: Order, t: Type, view: bytes, pos: nat): (r: Outcome<Value>)
    requires WellFormed(t) && pos <= |view|
    ensures r.Ok? ==> pos < r.pos <= |view|
    decreases t, 0, 0
  {
    match t
    case Basic(code) =>
      var (b, p) :- ReadBasic(o, code, view, pos);
      Ok(Plain(b), p)
    case AnyVariant => UnmarshallVariant(o, view, pos)
    case ArrayOf(e) => DecodeArray(o, e, view, pos)
    case StructOf(ts) =>
      var (_, p) :- Align(8, view, pos);
      var (fields, q) :- DecodeFields(o, ts, view, p);
      Ok(Struct(fields), q)
    case EntryOf(key, e) =>
      var (_, p) :- Align(8, view, pos);
      DecodePair(o, key, e, view, p)
  }

  function DecodeArray(o: Order, e: Type, view: bytes, pos: nat): (r: Outcome<Value>)
    requires WellFormed(e) && pos <= |view|
    ensures r.Ok? ==> pos < r.pos <= |view|
    decreases e, 2, 0
  {
    var (size, p) :- ReadWord(o, 4, view, pos);
    var (_, q) :- Align(Alignment(Print(e)), view, p);
    var (_, end) :- ReadBytes(size, view, q);
    var (contents, _) :- DecodeElements(o, e, view[..end], q);
    Ok(Array([CODE_ARRAY] + Print(e), contents), end)
  }

  function DecodePair(o: Order, key: byte, e: Type, view: bytes, pos: nat): (r: Outcome<Value>)
    requires IsBasic(key) && WellFormed(e) && pos <= |view|
    ensures r.Ok? ==> pos < r.pos <= |view|
    decreases e, 2, 0
  {
    var (k, q) :- ReadBasic(o, key, view, pos);
    var (v, end) :- Decode(o, e, view, q);
    Ok(DictEntry(Print(EntryOf(key, e)), Plain(k), v), end)
  }

  function DecodeElements(o: Order, e: Type, view: bytes, pos: nat): (r: Outcome<seq<Value>>)
    requires WellFormed(e) && pos <= |view|
    ensures r.Ok? ==> r.pos == |view|
    decreases e, 1, |view| - pos
  {
    if pos == |view| then Ok([], pos)
    else
      var (v, p) :- Decode(o, e, view, pos);
      var (vs, q) :- DecodeElements(o, e, view, p);
      Ok([v] + vs, q)
  }

  function DecodeFields(o: Order, ts: seq<Type>, view: bytes, pos: nat): (r: Outcome<seq<Value>>)
    requires AllWellFormed(ts) && pos <= |view|
    ensures Inside(r, view, pos) && (r.Ok? && ts != [] ==> pos < r.pos)
    decreases ts, 2, 0
  {
    if ts == [] then Ok([], pos)
    else
      var (v, p) :- Decode(o, ts[0], view, pos);
      var (vs, q) :- DecodeFields(o, ts[1..], view, p);
      Ok([v] + vs, q)
  }

  // ----- the two forms agree

  /**
   * On the text of a well-formed type, the signature-walking reader is the type-driven one, on any bytes whatsoever.
   */
  lemma {:induction false} SignatureDrivenIsTypeDriven(o: Order, t: Type, view: bytes, pos: nat)
    requires WellFormed(t) && pos <= |view|
    ensures Unmarshall(o, Print(t), view, pos) == Decode(o, t, view, pos)
    decreases t, 0, 0
  {
    match t
    case Basic(_) =>
    case AnyVariant =>
    case ArrayOf(e) => ArrayFormsAgree(o, t, view, pos);
    case StructOf(ts) => StructFormsAgree(o, t, view, pos);
    case EntryOf(_, _) => EntryFormsAgree(o, t, view, pos);
  }

  lemma {:induction false} ArrayFormsAgree(o: Order, t: Type, view: bytes, pos: nat)
    requires t.ArrayOf? && WellFormed(t) && pos <= |view|
    ensures UnmarshallArray(o, Print(t), view, pos) == DecodeArray(o, t.elem, view, pos)
    decreases t.elem, 2, 0
  {
    hide UnmarshallElements, DecodeElements, Padding, WordValue;
    assert Holds(Print(t), 1, Print(t.elem));
    ExtractInvertsPrint(Print(t), 1, t.elem);
    var length := ReadWord(o, 4, view, pos);
    if length.Ok? {
      var q := length.pos + Padding(Alignment(Print(t.elem)), length.pos);
      var end := q + length.value;
      if end <= |view| {
        ElementFormsAgree(o, t.elem, view[..end], q);
      }
    }
  }

  lemma {:induction false} ElementFormsAgree(o: Order, e: Type, view: bytes, pos: nat)
    requires WellFormed(e) && pos <= |view|
    ensures UnmarshallElements(o, Print(e), view, pos) == DecodeElements(o, e, view, pos)
    decreases e, 1, |view| - pos
  {
    hide Unmarshall, Decode;
    if pos < |view| {
      SignatureDrivenIsTypeDriven(o, e, view, pos);
      var first := Decode(o, e, view, pos);
      if first.Ok? {
        ElementFormsAgree(o, e, view, first.pos);
      }
    }
  }

  lemma {:induction false} StructFormsAgree(o: Order, t: Type, view: bytes, pos: nat)
    requires t.StructOf? && WellFormed(t) && pos <= |view|
    ensures UnmarshallStruct(o, Print(t), view, pos) == Decode(o, t, view, pos)
    decreases t.fields, 3, 0
  {
    hide UnmarshallFields, DecodeFields, Padding;
    var p := pos + Padding(8, pos);
    if p <= |view| {
      assert Holds(Print(t), 1, PrintAll(t.fields));
      FieldFormsAgree(o, Print(t), 1, t.fields, view, p);
    }
  }

  lemma {:induction false} FieldFormsAgree(o: Order, signature: bytes, idx: nat, ts: seq<Type>, view: bytes, pos: nat)
    requires AllWellFormed(ts) && ts != [] && pos <= |view| && At(signature, 0) == OPEN_STRUCT
    requires idx >= 1 && Holds(signature, idx, PrintAll(ts)) && |signature| == idx + |PrintAll(ts)| + 1
    ensures UnmarshallFields(o, signature, idx, view, pos) == DecodeFields(o, ts, view, pos)
    decreases ts, 2, 0
  {
    hide Unmarshall, Decode, Extract, Print;
    HoldsConcat(signature, idx, Print(ts[0]), PrintAll(ts[1..]));
    ExtractInvertsPrint(signature, idx, ts[0]);
    SignatureDrivenIsTypeDriven(o, ts[0], view, pos);
    var first := Decode(o, ts[0], view, pos);
    if ts[1..] == [] {
      assert PrintAll(ts[1..]) == [];
      if first.Ok? {
        assert DecodeFields(o, ts[1..], view, first.pos) == Ok([], first.pos);
        assert [first.value] + [] == [first.value];
      }
    } else if first.Ok? {
      assert PrintAll(ts[1..]) != [];
      FieldFormsAgree(o, signature, idx + |Print(ts[0])|, ts[1..], view, first.pos);
    }
  }

  lemma {:induction false} EntryFormsAgree(o: Order, t: Type, view: bytes, pos: nat)
    requires t.EntryOf? && WellFormed(t) && pos <= |view|
    ensures UnmarshallEntry(o, Print(t), view, pos) == Decode(o, t, view, pos)
    decreases t.value, 3, 0
  {
    hide Padding, Print, Extract, ReadBasic, Unmarshall, WellFormed, Decode, IsBasic, IsValidBasicType;
    EntryText(t);
    EntryDecodes(o, t, view, pos);
    EntryPrint(t);
    var p := pos + Padding(8, pos);
    if p <= |view| {
      KeyReads(o, t.key, view, p);
      var key := ReadBasic(o, t.key, view, p);
      if key.Ok? {
        SignatureDrivenIsTypeDriven(o, t.value, view, key.pos);
      }
    }
  }

  /** The parts of an entry's text that its reader looks at. */
  lemma EntryText(t: Type)
    requires t.EntryOf? && WellFormed(t)
    ensures IsBasic(t.key) && IsValidBasicType(t.key) && WellFormed(t.value)
    ensures |Print(t)| == |Print(t.value)| + 3 && Print(t)[1] == t.key && Extract(Print(t), 2) == Print(t.value)
  {
    assert Holds(Print(t), 2, Print(t.value));
    ExtractInvertsPrint(Print(t), 2, t.value);
  }

  lemma EntryPrint(t: Type)
    requires t.EntryOf?
    ensures Print(EntryOf(t.key, t.value)) == Print(t)
  {}

  lemma KeyReads(o: Order, code: byte, view: bytes, pos: nat)
    requires IsBasic(code) && pos <= |view|
    ensures Unmarshall(o, [code], view, pos)
         == match ReadBasic(o, code, view, pos)
            case Ok(b, p) => Ok(Plain(b), p)
            case Throw => Throw
            case Outside => Outside
  {
    hide ReadBasic, IsBasic;
  }

  lemma EntryDecodes(o: Order, t: Type, view: bytes, pos: nat)
    requires t.EntryOf? && WellFormed(t) && IsBasic(t.key) && WellFormed(t.value) && pos <= |view|
    ensures var p := pos + Padding(8, pos);
            Decode(o, t, view, pos) == if p <= |view| then DecodePair(o, t.key, t.value, view, p) else Throw
  {
    hide Padding, DecodePair, IsBasic;
  }
}
