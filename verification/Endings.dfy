/**
 * When decoding ends. A signature read from the data can be malformed, and then the source may recurse without
 * reading: here is when that cannot happen for given bytes, for which types it cannot happen for any bytes, and inputs
 * on which it does.
 */
module Endings {
  import opened Wrappers
  import opened Octets
  import opened Signatures
  import opened Values
  import opened Unmarshalling

  // ----- bytes on which decoding ends

  /** Every signature that reading a t from here meets in a variant is the text of some well-formed type. */
  ghost predicate Clean(o: Order, t: Type, view: bytes, pos: nat)
    requires WellFormed(t) && pos <= |view|
    decreases |view| - pos, t, 0
  {
    match t
    case Basic(_) => true
    case AnyVariant =>
      var signature := ReadSignature(view, pos);
      signature.Ok? ==>
        exists inner :: WellFormed(inner) && Print(inner) == signature.value && Clean(o, inner, view, signature.pos)
    case ArrayOf(e) =>
      var size := ReadWord(o, 4, view, pos);
      size.Ok? ==>
        var start := size.pos + Padding(Alignment(Print(e)), size.pos);
        start + size.value <= |view| ==> CleanElements(o, e, view[..start + size.value], start)
    case StructOf(ts) =>
      var p := pos + Padding(8, pos);
      p <= |view| ==> CleanFields(o, ts, view, p)
    case EntryOf(k, e) =>
      var p := pos + Padding(8, pos);
      p <= |view| ==>
        var key := ReadBasic(o, k, view, p);
        key.Ok? ==> Clean(o, e, view, key.pos)
  }

  ghost predicate CleanElements(o: Order, e: Type, view: bytes, pos: nat)
    requires WellFormed(e) && pos <= |view|
    decreases |view| - pos, e, 1
  {
    pos < |view| ==>
      && Clean(o, e, view, pos)
      && var first := Decode(o, e, view, pos);
         first.Ok? ==> CleanElements(o, e, view, first.pos)
  }

  ghost predicate CleanFields(o: Order, ts: seq<Type>, view: bytes, pos: nat)
    requires AllWellFormed(ts) && pos <= |view|
    decreases |view| - pos, ts, 1
  {
    ts != [] ==>
      && Clean(o, ts[0], view, pos)
      && var first := Decode(o, ts[0], view, pos);
         first.Ok? ==> CleanFields(o, ts[1..], view, first.pos)
  }

  /** Reading any well-formed type from clean bytes ends in a value or an exception. */
  lemma {:induction false} CleanEnds(o: Order, t: Type, view: bytes, pos: nat)
    requires WellFormed(t) && pos <= |view| && Clean(o, t, view, pos)
    ensures !Decode(o, t, view, pos).Outside?
    ensures Unmarshall(o, Print(t), view, pos) == Decode(o, t, view, pos)
    decreases |view| - pos, t, 0
  {
    hide Unmarshall, ReadBasic, ReadSignature, ReadWord, Print, DecodeFields, DecodeElements, DecodeArray, DecodePair,
      Padding, IsBasic, CleanElements, CleanFields;
    SignatureDrivenIsTypeDriven(o, t, view, pos);
    match t
    case Basic(_) => BasicEnds(o, t.code, view, pos);
    case AnyVariant => VariantEnds(o, view, pos);
    case ArrayOf(e) => ArrayEnds(o, t, view, pos);
    case StructOf(ts) =>
      if pos + Padding(8, pos) <= |view| {
        FieldsEnd(o, ts, view, pos + Padding(8, pos));
      }
    case EntryOf(k, e) =>
      if pos + Padding(8, pos) <= |view| {
        PairEnds(o, k, e, view, pos + Padding(8, pos));
      }
  }

  lemma {:induction false} VariantEnds(o: Order, view: bytes, pos: nat)
    requires pos <= |view| && Clean(o, AnyVariant, view, pos)
    ensures !UnmarshallVariant(o, view, pos).Outside?
    decreases |view| - pos, AnyVariant, 0, 0
  {
    hide Unmarshall, ReadSignature, Print, Decode, WellFormed;
    SignatureEnds(view, pos);
    var signature := ReadSignature(view, pos);
    if signature.Ok? {
      var inner :| WellFormed(inner) && Print(inner) == signature.value && Clean(o, inner, view, signature.pos);
      CleanEnds(o, inner, view, signature.pos);
    }
  }

  lemma {:induction false} ArrayEnds(o: Order, t: Type, view: bytes, pos: nat)
    requires t.ArrayOf? && WellFormed(t) && pos <= |view| && Clean(o, t, view, pos)
    ensures !DecodeArray(o, t.elem, view, pos).Outside?
    decreases |view| - pos, t.elem, 2
  {
    hide Padding, ReadWord, ReadBytes, DecodeElements, Print, Alignment, CleanElements;
    WordEnds(o, 4, view, pos);
    var size := ReadWord(o, 4, view, pos);
    if size.Ok? {
      var start := size.pos + Padding(Alignment(Print(t.elem)), size.pos);
      BytesEnd(size.value, view, start);
      if start + size.value <= |view| {
        ElementsEnd(o, t.elem, view[..start + size.value], start);
      }
    }
  }

  lemma {:induction false} PairEnds(o: Order, k: byte, e: Type, view: bytes, pos: nat)
    requires IsBasic(k) && WellFormed(e) && pos <= |view|
    requires var key := ReadBasic(o, k, view, pos);
             key.Ok? ==> Clean(o, e, view, key.pos)
    ensures !DecodePair(o, k, e, view, pos).Outside?
    decreases |view| - pos, e, 2
  {
    hide Decode, Unmarshall, ReadBasic, Print, WellFormed, IsBasic, Clean;
    BasicEnds(o, k, view, pos);
    var key := ReadBasic(o, k, view, pos);
    if key.Ok? {
      CleanEnds(o, e, view, key.pos);
    }
  }

  lemma {:induction false} ElementsEnd(o: Order, e: Type, view: bytes, pos: nat)
    requires WellFormed(e) && pos <= |view| && CleanElements(o, e, view, pos)
    ensures !DecodeElements(o, e, view, pos).Outside?
    decreases |view| - pos, e, 1
  {
    hide Decode, Unmarshall, Clean;
    if pos < |view| {
      CleanEnds(o, e, view, pos);
      var first := Decode(o, e, view, pos);
      if first.Ok? {
        ElementsEnd(o, e, view, first.pos);
      }
    }
  }

  lemma {:induction false} FieldsEnd(o: Order, ts: seq<Type>, view: bytes, pos: nat)
    requires AllWellFormed(ts) && pos <= |view| && CleanFields(o, ts, view, pos)
    ensures !DecodeFields(o, ts, view, pos).Outside?
    decreases |view| - pos, ts, 1
  {
    hide Decode, Unmarshall, Clean;
    if ts != [] {
      CleanEnds(o, ts[0], view, pos);
      var first := Decode(o, ts[0], view, pos);
      if first.Ok? {
        FieldsEnd(o, ts[1..], view, first.pos);
      }
    }
  }

  lemma BasicEnds(o: Order, code: byte, view: bytes, pos: nat)
    requires IsBasic(code)
    ensures !ReadBasic(o, code, view, pos).Outside?
  {
    hide Padding, WordValue;
  }

  lemma SignatureEnds(view: bytes, pos: nat)
    ensures !ReadSignature(view, pos).Outside?
  {}

  lemma WordEnds(o: Order, n: nat, view: bytes, pos: nat)
    ensures !ReadWord(o, n, view, pos).Outside?
  {
    hide Padding, WordValue;
  }

  lemma BytesEnd(n: nat, view: bytes, pos: nat)
    ensures ReadBytes(n, view, pos) == if pos + n <= |view| then Ok(view[pos..pos + n], pos + n) else Throw
  {}

  // ----- types whose decoding ends on any bytes

  predicate VariantFree(t: Type) {
    match t
    case Basic(_) => true
    case AnyVariant => false
    case ArrayOf(e) => VariantFree(e)
    case StructOf(ts) => forall f | f in ts :: VariantFree(f)
    case EntryOf(_, e) => VariantFree(e)
  }

  lemma {:induction false} VariantFreeIsClean(o: Order, t: Type, view: bytes, pos: nat)
    requires WellFormed(t) && VariantFree(t) && pos <= |view|
    ensures Clean(o, t, view, pos)
    decreases |view| - pos, t, 0
  {
    hide ReadBasic, ReadWord, Padding, Print, Alignment, IsBasic;
    match t
    case Basic(_) =>
    case ArrayOf(e) =>
      var size := ReadWord(o, 4, view, pos);
      if size.Ok? {
        var start := size.pos + Padding(Alignment(Print(e)), size.pos);
        if start + size.value <= |view| {
          VariantFreeElementsAreClean(o, e, view[..start + size.value], start);
        }
      }
    case StructOf(ts) =>
      if pos + Padding(8, pos) <= |view| {
        VariantFreeFieldsAreClean(o, ts, view, pos + Padding(8, pos));
      }
    case EntryOf(k, e) =>
      var p := pos + Padding(8, pos);
      if p <= |view| && ReadBasic(o, k, view, p).Ok? {
        VariantFreeIsClean(o, e, view, ReadBasic(o, k, view, p).pos);
      }
  }

  lemma {:induction false} VariantFreeElementsAreClean(o: Order, e: Type, view: bytes, pos: nat)
    requires WellFormed(e) && VariantFree(e) && pos <= |view|
    ensures CleanElements(o, e, view, pos)
    decreases |view| - pos, e, 1
  {
    hide Decode, Clean;
    if pos < |view| {
      VariantFreeIsClean(o, e, view, pos);
      if Decode(o, e, view, pos).Ok? {
        VariantFreeElementsAreClean(o, e, view, Decode(o, e, view, pos).pos);
      }
    }
  }

  lemma {:induction false} VariantFreeFieldsAreClean(o: Order, ts: seq<Type>, view: bytes, pos: nat)
    requires AllWellFormed(ts) && (forall f | f in ts :: VariantFree(f)) && pos <= |view|
    ensures CleanFields(o, ts, view, pos)
    decreases |view| - pos, ts, 1
  {
    hide Decode, Clean;
    if ts != [] {
      VariantFreeIsClean(o, ts[0], view, pos);
      if Decode(o, ts[0], view, pos).Ok? {
        VariantFreeFieldsAreClean(o, ts[1..], view, Decode(o, ts[0], view, pos).pos);
      }
    }
  }

  /**
   * For a well-formed signature without variants, reading any bytes from any position ends in a value or an exception.
   */
  lemma VariantFreeEnds(o: Order, t: Type, view: bytes, pos: nat)
    requires WellFormed(t) && VariantFree(t) && pos <= |view|
    ensures !Decode(o, t, view, pos).Outside?
    ensures Unmarshall(o, Print(t), view, pos) == Decode(o, t, view, pos)
  {
    hide Decode, Unmarshall, Clean, Print, WellFormed, VariantFree;
    VariantFreeIsClean(o, t, view, pos);
    CleanEnds(o, t, view, pos);
  }

  // ----- inputs on which the source never returns

  /** Structs opened and nothing else. */
  predicate Unclosed(signature: bytes) {
    |signature| >= 2 && forall c | c in signature :: c == OPEN_STRUCT
  }

  /** With such a signature, and with no other, a field cut out of a struct is the struct itself. */
  lemma FieldIsStructExactly(signature: bytes, idx: nat)
    requires At(signature, 0) == OPEN_STRUCT && idx >= 1
    ensures Extract(signature, idx) == signature <==> idx == 1 && Unclosed(signature)
  {
    hide Scan;
    if idx == 1 && |signature| >= 2 {
      var rest := signature[1..];
      assert signature == [OPEN_STRUCT] + rest;
      if rest[0] == OPEN_STRUCT {
        OpenedTwice(signature);
        RotatedExactly(rest);
      } else {
        assert rest[0] in signature && Extract(signature, 1)[0] == rest[0];
      }
    }
  }

  lemma OpenedTwice(signature: bytes)
    requires |signature| >= 2 && signature[0] == signature[1] == OPEN_STRUCT
    ensures Extract(signature, 1) == signature ==> signature == signature[1..] + [OPEN_STRUCT]
    ensures Unclosed(signature) ==> Extract(signature, 1) == signature[1..] + [OPEN_STRUCT]
    ensures Unclosed(signature) <==> forall c | c in signature[1..] :: c == OPEN_STRUCT
  {
    hide Scan, Extract;
    FirstFieldCut(signature);
    assert signature == [OPEN_STRUCT] + signature[1..];
    assert forall c :: c in signature <==> c == OPEN_STRUCT || c in signature[1..];
    if CLOSE_STRUCT !in signature {
      ScanUnclosed(signature, 2, 1);
    }
  }

  lemma FirstFieldCut(signature: bytes)
    requires |signature| >= 2 && signature[1] == OPEN_STRUCT
    ensures Extract(signature, 1)
         == match Scan(signature, 2, OPEN_STRUCT, CLOSE_STRUCT, 1)
            case Some(end) => signature[1..end]
            case None => signature[1..] + [OPEN_STRUCT]
  {
    hide Scan;
  }

  /** A text that its first bracket moved to the back leaves as it is has nothing but brackets in it. */
  lemma {:induction false} RotatedExactly(rest: bytes)
    ensures rest + [OPEN_STRUCT] == [OPEN_STRUCT] + rest <==> forall c | c in rest :: c == OPEN_STRUCT
  {
    var back, front := rest + [OPEN_STRUCT], [OPEN_STRUCT] + rest;
    if rest == [] {
      assert back == front;
    } else {
      var tail := rest[1..];
      RotatedExactly(tail);
      assert rest == [rest[0]] + tail;
      assert back == [rest[0]] + (tail + [OPEN_STRUCT]) && back[1..] == tail + [OPEN_STRUCT];
      assert front == [OPEN_STRUCT] + rest && front[1..] == rest;
      if rest[0] == OPEN_STRUCT {
        assert forall c :: c in rest <==> c == OPEN_STRUCT || c in tail;
        assert back == front <==> back[1..] == front[1..];
      } else {
        assert rest[0] in rest && back[0] != front[0];
      }
    }
  }

  /** Then the struct unmarshals itself inside itself, unless it cannot even align. */
  lemma UnclosedNeverEnds(o: Order, signature: bytes, view: bytes, pos: nat)
    requires Unclosed(signature) && pos <= |view|
    ensures Unmarshall(o, signature, view, pos) == if pos + Padding(8, pos) <= |view| then Outside else Throw
  {
    hide Padding, Extract;
    assert signature[0] in signature;
    FieldIsStructExactly(signature, 1);
    assert pos + Padding(8, pos) <= |view| ==>
      UnmarshallFields(o, signature, 1, view, pos + Padding(8, pos)) == Outside;
    assert Unmarshall(o, signature, view, pos) == UnmarshallStruct(o, signature, view, pos);
  }

  /**
   * Other unclosed signatures come to an end. In `((y` the bracket moves to the back, and what is read is a struct in a
   * struct of one byte.
   */
  lemma RotatedSignatureEnds(o: Order, b: byte)
    ensures Unmarshall(o, [OPEN_STRUCT, OPEN_STRUCT, CODE_BYTE], [b], 0) == Ok(Struct([Struct([Plain(Byte(b))])]), 1)
  {
    var outer: bytes, inner: bytes := [OPEN_STRUCT, OPEN_STRUCT, CODE_BYTE], [OPEN_STRUCT, CODE_BYTE, OPEN_STRUCT];
    FirstFieldCut(outer);
    ScanUnclosed(outer, 2, 1);
    assert outer[1..] + [OPEN_STRUCT] == inner;
    assert Extract(outer, 1) == inner && Extract(inner, 1) == [CODE_BYTE] && Padding(8, 0) == 0;
    assert Unmarshall(o, [CODE_BYTE], [b], 0) == Ok(Plain(Byte(b)), 1);
    assert UnmarshallFields(o, inner, 1, [b], 0) == Ok([Plain(Byte(b))], 1);
    assert Unmarshall(o, inner, [b], 0) == Ok(Struct([Plain(Byte(b))]), 1);
    assert UnmarshallFields(o, outer, 1, [b], 0) == Ok([Struct([Plain(Byte(b))])], 1);
  }

  lemma {:induction false} ScanUnclosed(s: bytes, i: nat, depth: nat)
    requires i <= |s| && CLOSE_STRUCT !in s && depth > 0
    ensures Scan(s, i, OPEN_STRUCT, CLOSE_STRUCT, depth) == None
    decreases |s| - i
  {
    if i < |s| {
      ScanUnclosed(s, i + 1, if s[i] == OPEN_STRUCT then depth + 1 else depth);
    }
  }

  /** A variant that carries such a signature is never read to an end once the view reaches the next 8-byte boundary. */
  lemma UnclosedVariantNeverEnds(o: Order, view: bytes, pos: nat)
    requires pos <= |view| && ReadSignature(view, pos).Ok? && Unclosed(ReadSignature(view, pos).value)
    ensures var p := ReadSignature(view, pos).pos;
            UnmarshallVariant(o, view, pos) == if p + Padding(8, p) <= |view| then Outside else Throw
  {
    hide ReadSignature, Padding, Unmarshall, Unclosed;
    UnclosedNeverEnds(o, ReadSignature(view, pos).value, view, ReadSignature(view, pos).pos);
  }

  // ----- zeros are values of every type

  function ZeroBasicEnd(code: byte, pos: nat): (end: nat)
    ensures pos < end <= pos + 15
  {
    if code == CODE_BYTE then pos + 1
    else if code == CODE_BOOLEAN then AlignedEnd(4, pos)
    else if code == CODE_DOUBLE then pos + 8
    else if code == CODE_STRING || code == CODE_OBJECT_PATH then AlignedEnd(4, pos) + 1
    else if code == CODE_SIGNATURE then pos + 2
    else AlignedEnd(KindOf(code).Width(), pos)
  }

  function AlignedEnd(n: nat, pos: nat): (end: nat)
    requires 0 < n <= 8
    ensures pos + n <= end < pos + 2 * n
  {
    pos + Padding(n, pos) + n
  }

  /** Where reading a t from zeros at pos ends. */
  function ZeroEnd(t: Type, pos: nat): (end: nat)
    ensures pos <= end
    decreases t
  {
    match t
    case Basic(c) => ZeroBasicEnd(c, pos)
    case AnyVariant => pos + 2
    case ArrayOf(e) => AlignedEnd(4, pos) + Padding(Alignment(Print(e)), AlignedEnd(4, pos))
    case StructOf(ts) => ZeroEndAll(ts, pos + Padding(8, pos))
    case EntryOf(k, e) => ZeroEnd(e, ZeroBasicEnd(k, pos + Padding(8, pos)))
  }

  function ZeroEndAll(ts: seq<Type>, pos: nat): (end: nat)
    ensures pos <= end
    decreases ts
  {
    if ts == [] then pos else ZeroEndAll(ts[1..], ZeroEnd(ts[0], pos))
  }

  predicate ZeroBetween(view: bytes, from: nat, to: nat) {
    to <= |view| && forall i :: from <= i < to ==> view[i] == 0
  }

  lemma ZeroWordRead(o: Order, n: nat, view: bytes, pos: nat)
    requires 0 < n <= 8 && ZeroBetween(view, pos, AlignedEnd(n, pos))
    ensures ReadWord(o, n, view, pos) == Ok(0, AlignedEnd(n, pos))
  {
    hide Padding;
    var p := pos + Padding(n, pos);
    assert view[p..p + n] == Zeros(n);
    ZeroValue(n);
  }

  lemma ZeroBasicRead(o: Order, code: byte, view: bytes, pos: nat)
    requires IsBasic(code) && ZeroBetween(view, pos, ZeroBasicEnd(code, pos))
    ensures ReadBasic(o, code, view, pos).Ok? && ReadBasic(o, code, view, pos).pos == ZeroBasicEnd(code, pos)
  {
    hide ReadWord, WordValue, Padding;
    if code == CODE_BYTE || code == CODE_DOUBLE || code == CODE_SIGNATURE {
    } else if code == CODE_BOOLEAN || code == CODE_STRING || code == CODE_OBJECT_PATH {
      ZeroWordRead(o, 4, view, pos);
    } else {
      ZeroWordRead(o, KindOf(code).Width(), view, pos);
    }
  }

  lemma {:induction false} ZerosDecode(o: Order, t: Type, view: bytes, pos: nat)
    requires WellFormed(t) && pos <= |view| && ZeroBetween(view, pos, ZeroEnd(t, pos))
    ensures Decode(o, t, view, pos).Ok? && Decode(o, t, view, pos).pos == ZeroEnd(t, pos)
    decreases t
  {
    hide ReadBasic, ZeroBasicEnd, Padding, IsBasic, Print, DecodeArray, DecodeFields, DecodePair, UnmarshallVariant,
      ZeroBetween, ZeroEndAll, AlignedEnd, Alignment;
    match t
    case Basic(c) => ZeroBasicRead(o, c, view, pos);
    case AnyVariant => ZeroVariantRead(o, view, pos);
    case ArrayOf(e) => ZeroArrayRead(o, e, view, pos);
    case StructOf(ts) =>
      var p := pos + Padding(8, pos);
      ZeroInside(view, pos, p, p, ZeroEndAll(ts, p));
      ZerosDecodeAll(o, ts, view, p);
    case EntryOf(k, e) =>
      var p := pos + Padding(8, pos);
      var q := ZeroBasicEnd(k, p);
      ZeroInside(view, pos, p, q, ZeroEnd(e, q));
      ZeroBasicRead(o, k, view, p);
      ZerosDecode(o, e, view, q);
      ZeroPairRead(o, k, e, view, p);
  }

  lemma ZeroInside(view: bytes, from: nat, a: nat, b: nat, to: nat)
    requires from <= a <= b <= to && ZeroBetween(view, from, to)
    ensures to <= |view| && ZeroBetween(view, a, b) && ZeroBetween(view, b, to)
  {}

  lemma ZeroVariantRead(o: Order, view: bytes, pos: nat)
    requires ZeroBetween(view, pos, pos + 2)
    ensures UnmarshallVariant(o, view, pos).Ok? && UnmarshallVariant(o, view, pos).pos == pos + 2
  {
    hide Unmarshall;
    assert view[pos + 1..pos + 1] == [];
    assert ReadSignature(view, pos) == Ok([], pos + 2);
    NothingRead(o, view, pos + 2);
  }

  lemma ZeroArrayRead(o: Order, e: Type, view: bytes, pos: nat)
    requires WellFormed(e) && pos <= |view|
    requires var p := AlignedEnd(4, pos);
             ZeroBetween(view, pos, p + Padding(Alignment(Print(e)), p))
    ensures var p, items := AlignedEnd(4, pos), DecodeArray(o, e, view, pos);
            items.Ok? && items.pos == p + Padding(Alignment(Print(e)), p)
  {
    hide Padding, Print, ReadWord, Alignment, AlignedEnd;
    var p := AlignedEnd(4, pos);
    var start := p + Padding(Alignment(Print(e)), p);
    ZeroInside(view, pos, pos, p, start);
    ZeroWordRead(o, 4, view, pos);
    BytesEnd(0, view, start);
    assert DecodeElements(o, e, view[..start], start) == Ok([], start);
  }

  lemma ZeroPairRead(o: Order, k: byte, e: Type, view: bytes, pos: nat)
    requires IsBasic(k) && WellFormed(e) && pos <= |view| && ReadBasic(o, k, view, pos).Ok?
    requires Decode(o, e, view, ReadBasic(o, k, view, pos).pos).Ok?
    ensures var pair := DecodePair(o, k, e, view, pos);
            pair.Ok? && pair.pos == Decode(o, e, view, ReadBasic(o, k, view, pos).pos).pos
  {
    hide ReadBasic, Decode, Print, IsBasic;
  }

  lemma NothingRead(o: Order, view: bytes, pos: nat)
    requires pos <= |view|
    ensures Unmarshall(o, [], view, pos) == Ok(Empty, pos)
  {}

  lemma {:induction false} ZerosDecodeAll(o: Order, ts: seq<Type>, view: bytes, pos: nat)
    requires AllWellFormed(ts) && pos <= |view| && ZeroBetween(view, pos, ZeroEndAll(ts, pos))
    ensures DecodeFields(o, ts, view, pos).Ok? && DecodeFields(o, ts, view, pos).pos == ZeroEndAll(ts, pos)
    decreases ts
  {
    hide Decode, ZeroEnd;
    if ts != [] {
      ZerosDecode(o, ts[0], view, pos);
      ZerosDecodeAll(o, ts[1..], view, ZeroEnd(ts[0], pos));
    }
  }

  // ----- a type that has a variant can always be fed one

  const UNCLOSED: bytes := [OPEN_STRUCT, OPEN_STRUCT]

  /** Bytes that lead a reader of t through zeros to a variant with an unclosed signature. */
  function Trap(o: Order, t: Type, pos: nat): (s: bytes)
    requires WellFormed(t) && !VariantFree(t)
    ensures s != []
    decreases t
  {
    match t
    case AnyVariant => [2] + UNCLOSED + [0] + Zeros(Padding(8, pos + 4))
    case ArrayOf(e) =>
      var start := ZeroEnd(t, pos);
      var items := Trap(o, e, start);
      Zeros(Padding(4, pos)) + Word(o, |items|, 4) + Zeros(start - AlignedEnd(4, pos)) + items
    case StructOf(ts) => Zeros(Padding(8, pos)) + TrapAll(o, ts, pos + Padding(8, pos))
    case EntryOf(k, e) =>
      var start := ZeroBasicEnd(k, pos + Padding(8, pos));
      Zeros(start - pos) + Trap(o, e, start)
  }

  function TrapAll(o: Order, ts: seq<Type>, pos: nat): (s: bytes)
    requires AllWellFormed(ts) && exists f :: f in ts && !VariantFree(f)
    ensures s != []
    decreases ts
  {
    if VariantFree(ts[0]) then Zeros(ZeroEnd(ts[0], pos) - pos) + TrapAll(o, ts[1..], ZeroEnd(ts[0], pos))
    else Trap(o, ts[0], pos)
  }

  lemma {:induction false} ZerosAreShort(t: Type, pos: nat)
    requires WellFormed(t)
    ensures ZeroEnd(t, pos) <= pos + 16 * |Print(t)|
    decreases t
  {
    hide ZeroBasicEnd, IsBasic;
    match t
    case Basic(_) =>
    case AnyVariant =>
    case ArrayOf(e) =>
    case StructOf(ts) => ZerosAreShortAll(ts, pos + Padding(8, pos));
    case EntryOf(k, e) => ZerosAreShort(e, ZeroBasicEnd(k, pos + Padding(8, pos)));
  }

  lemma {:induction false} ZerosAreShortAll(ts: seq<Type>, pos: nat)
    requires AllWellFormed(ts)
    ensures ZeroEndAll(ts, pos) <= pos + 16 * |PrintAll(ts)|
    decreases ts
  {
    hide ZeroEnd, Print;
    if ts != [] {
      ZerosAreShort(ts[0], pos);
      ZerosAreShortAll(ts[1..], ZeroEnd(ts[0], pos));
    }
  }

  lemma {:induction false} TrapIsShort(o: Order, t: Type, pos: nat)
    requires WellFormed(t) && !VariantFree(t)
    ensures |Trap(o, t, pos)| <= 16 * |Print(t)|
    decreases t
  {
    hide Trap, TrapAll, Print, ZeroBasicEnd, ZeroEnd, WellFormed;
    match t
    case AnyVariant => VariantTrapIsShort(o, pos);
    case ArrayOf(e) =>
      TrapOfArray(o, t, pos);
      TrapIsShort(o, e, ZeroEnd(t, pos));
    case StructOf(ts) =>
      TrapOfStruct(o, t, pos);
      TrapIsShortAll(o, ts, pos + Padding(8, pos));
    case EntryOf(k, e) =>
      TrapOfEntry(o, t, pos);
      TrapIsShort(o, e, ZeroBasicEnd(k, pos + Padding(8, pos)));
  }

  lemma VariantTrapIsShort(o: Order, pos: nat)
    ensures |Trap(o, AnyVariant, pos)| <= 16 * |Print(AnyVariant)|
  {}

  lemma TrapOfStruct(o: Order, t: Type, pos: nat)
    requires t.StructOf? && WellFormed(t) && !VariantFree(t)
    ensures AllWellFormed(t.fields) && exists f :: f in t.fields && !VariantFree(f)
    ensures |Print(t)| == |PrintAll(t.fields)| + 2
    ensures var p := pos + Padding(8, pos);
            Trap(o, t, pos) == Zeros(p - pos) + TrapAll(o, t.fields, p)
  {
    hide Padding, TrapAll;
  }

  lemma {:induction false} TrapIsShortAll(o: Order, ts: seq<Type>, pos: nat)
    requires AllWellFormed(ts) && exists f :: f in ts && !VariantFree(f)
    ensures |TrapAll(o, ts, pos)| <= 16 * |PrintAll(ts)|
    decreases ts
  {
    hide ZeroEnd, Print, Trap;
    if VariantFree(ts[0]) {
      ZerosAreShort(ts[0], pos);
      TrapIsShortAll(o, ts[1..], ZeroEnd(ts[0], pos));
    } else {
      TrapIsShort(o, ts[0], pos);
    }
  }

  /** A reader that finds those bytes never returns, whatever stands before and after them. */
  lemma {:induction false} TrapNeverEnds(o: Order, t: Type, view: bytes, pos: nat)
    requires WellFormed(t) && !VariantFree(t) && 16 * |Print(t)| < WORD_LIMIT
    requires Holds(view, pos, Trap(o, t, pos))
    ensures Decode(o, t, view, pos) == Outside
    decreases t, 1
  {
    hide Decode, Print, WellFormed, Trap, Holds, DecodeArray, DecodePair, DecodeFields, UnmarshallVariant;
    match t
    case AnyVariant => TrappedVariant(o, view, pos);
    case ArrayOf(_) => TrappedArray(o, t, view, pos);
    case StructOf(_) => TrappedStruct(o, t, view, pos);
    case EntryOf(_, _) => TrappedEntry(o, t, view, pos);
  }

  lemma TrappedVariant(o: Order, view: bytes, pos: nat)
    requires Holds(view, pos, Trap(o, AnyVariant, pos))
    ensures Decode(o, AnyVariant, view, pos) == Outside
  {
    var bait: bytes := [2] + UNCLOSED + [0];
    HoldsConcat(view, pos, bait, Zeros(Padding(8, pos + 4)));
    hide Padding, UnmarshallVariant;
    HoldsAt(view, pos, bait, 0);
    HoldsWithin(view, pos, bait, 1, 3);
    assert ReadSignature(view, pos) == Ok(UNCLOSED, pos + 4);
    UnclosedVariantNeverEnds(o, view, pos);
  }

  lemma {:induction false} TrappedArray(o: Order, t: Type, view: bytes, pos: nat)
    requires t.ArrayOf? && WellFormed(t) && !VariantFree(t) && 16 * |Print(t)| < WORD_LIMIT
    requires Holds(view, pos, Trap(o, t, pos))
    ensures Decode(o, t, view, pos) == Outside
    decreases t, 0
  {
    hide Trap, ZeroEnd, DecodeElements, DecodeArray, Holds, Decode, Word, WordValue, Padding, Alignment, Print,
      WellFormed, VariantFree, ReadWord, ReadBytes;
    TrapOfArray(o, t, pos);
    ArrayTrapParts(o, t, view, pos);
    var e, start := t.elem, ZeroEnd(t, pos);
    var items := Trap(o, e, start);
    TrapIsShort(o, e, start);
    HoldsInPrefix(view, start, items);
    var sub := view[..start + |items|];
    TrapNeverEnds(o, e, sub, start);
    FirstElementTraps(o, e, sub, start);
    LengthRead(o, |items|, view, pos);
    BytesEnd(|items|, view, start);
    ArrayTrapped(o, e, view, pos, |items|);
    ArrayUnfolds(o, t, view, pos);
  }

  lemma ArrayTrapped(o: Order, e: Type, view: bytes, pos: nat, n: nat)
    requires WellFormed(e) && pos <= |view| && ReadWord(o, 4, view, pos) == Ok(n, AlignedEnd(4, pos))
    requires var start := AlignedEnd(4, pos) + Padding(Alignment(Print(e)), AlignedEnd(4, pos));
             start + n <= |view| && DecodeElements(o, e, view[..start + n], start) == Outside
    ensures DecodeArray(o, e, view, pos) == Outside
  {
    hide ReadWord, DecodeElements, Padding, Alignment, Print, AlignedEnd, WellFormed;
  }

  lemma ArrayUnfolds(o: Order, t: Type, view: bytes, pos: nat)
    requires t.ArrayOf? && WellFormed(t) && pos <= |view|
    ensures Decode(o, t, view, pos) == DecodeArray(o, t.elem, view, pos)
    ensures ZeroEnd(t, pos) == AlignedEnd(4, pos) + Padding(Alignment(Print(t.elem)), AlignedEnd(4, pos))
  {
    hide DecodeArray, Print, Padding, Alignment, AlignedEnd;
  }

  lemma ArrayTrapParts(o: Order, t: Type, view: bytes, pos: nat)
    requires t.ArrayOf? && WellFormed(t) && !VariantFree(t)
    requires Holds(view, pos, Trap(o, t, pos))
    ensures var start := ZeroEnd(t, pos);
            var items := Trap(o, t.elem, start);
            Holds(view, AlignedEnd(4, pos) - 4, Word(o, |items|, 4)) && Holds(view, start, items)
  {
    hide Trap, Word, Print, ZeroEnd, WellFormed, VariantFree, Holds, Zeros;
    TrapOfArray(o, t, pos);
    var start := ZeroEnd(t, pos);
    var items := Trap(o, t.elem, start);
    var lead, word, gap := Zeros(Padding(4, pos)), Word(o, |items|, 4), Zeros(start - AlignedEnd(4, pos));
    HoldsConcat(view, pos, lead + word + gap, items);
    HoldsConcat(view, pos, lead + word, gap);
    HoldsConcat(view, pos, lead, word);
  }

  lemma TrapOfArray(o: Order, t: Type, pos: nat)
    requires t.ArrayOf? && WellFormed(t) && !VariantFree(t)
    ensures WellFormed(t.elem) && !VariantFree(t.elem) && |Print(t)| == 1 + |Print(t.elem)|
    ensures var start := ZeroEnd(t, pos);
            var items := Trap(o, t.elem, start);
            && start == AlignedEnd(4, pos) + Padding(Alignment(Print(t.elem)), AlignedEnd(4, pos))
            && Trap(o, t, pos) == Zeros(Padding(4, pos)) + Word(o, |items|, 4) + Zeros(start - AlignedEnd(4, pos))
              + items
  {
    hide Word, Alignment, AlignedEnd;
  }

  lemma HoldsInPrefix(view: bytes, pos: nat, s: bytes)
    requires Holds(view, pos, s)
    ensures pos + |s| <= |view| && Holds(view[..pos + |s|], pos, s)
  {}

  lemma FirstElementTraps(o: Order, e: Type, view: bytes, pos: nat)
    requires WellFormed(e) && pos < |view| && Decode(o, e, view, pos) == Outside
    ensures DecodeElements(o, e, view, pos) == Outside
  {
    hide Decode;
  }

  lemma LengthRead(o: Order, n: nat, view: bytes, pos: nat)
    requires n < WORD_LIMIT && Holds(view, AlignedEnd(4, pos) - 4, Word(o, n, 4))
    ensures ReadWord(o, 4, view, pos) == Ok(n, AlignedEnd(4, pos))
  {
    hide Word, WordValue, Padding, Pow256;
    WordLimit();
    WordRoundTrip(o, n, 4);
  }

  lemma {:induction false} TrappedStruct(o: Order, t: Type, view: bytes, pos: nat)
    requires t.StructOf? && WellFormed(t) && !VariantFree(t) && 16 * |Print(t)| < WORD_LIMIT
    requires Holds(view, pos, Trap(o, t, pos))
    ensures Decode(o, t, view, pos) == Outside
    decreases t, 0
  {
    hide Padding, Trap, TrapAll, DecodeFields, Print, PrintAll, Zeros, Decode, WellFormed, VariantFree;
    TrapOfStruct(o, t, pos);
    var p := pos + Padding(8, pos);
    HoldsConcat(view, pos, Zeros(p - pos), TrapAll(o, t.fields, p));
    TrappedFields(o, t.fields, view, p);
    StructTrapped(o, t, view, pos);
  }

  lemma StructTrapped(o: Order, t: Type, view: bytes, pos: nat)
    requires t.StructOf? && WellFormed(t) && AllWellFormed(t.fields) && pos + Padding(8, pos) <= |view|
    requires DecodeFields(o, t.fields, view, pos + Padding(8, pos)) == Outside
    ensures Decode(o, t, view, pos) == Outside
  {
    hide Padding, DecodeFields;
  }

  lemma {:induction false} TrappedFields(o: Order, ts: seq<Type>, view: bytes, pos: nat)
    requires AllWellFormed(ts) && (exists f :: f in ts && !VariantFree(f)) && 16 * |PrintAll(ts)| < WORD_LIMIT
    requires Holds(view, pos, TrapAll(o, ts, pos))
    ensures DecodeFields(o, ts, view, pos) == Outside
    decreases ts
  {
    hide Trap, Decode, Print, ZeroEnd, VariantFree, WellFormed, Holds;
    if VariantFree(ts[0]) {
      var end := ZeroEnd(ts[0], pos);
      var zeros, rest := Zeros(end - pos), TrapAll(o, ts[1..], end);
      assert TrapAll(o, ts, pos) == zeros + rest;
      HoldsConcat(view, pos, zeros, rest);
      ZerosHeld(view, pos, end);
      ZerosDecode(o, ts[0], view, pos);
      TrappedFields(o, ts[1..], view, end);
    } else {
      TrapNeverEnds(o, ts[0], view, pos);
    }
  }

  lemma ZerosHeld(view: bytes, pos: nat, end: nat)
    requires pos <= end && Holds(view, pos, Zeros(end - pos))
    ensures ZeroBetween(view, pos, end)
  {
    forall i | pos <= i < end
      ensures view[i] == 0
    {
      HoldsAt(view, pos, Zeros(end - pos), i - pos);
    }
  }

  lemma {:induction false} TrappedEntry(o: Order, t: Type, view: bytes, pos: nat)
    requires t.EntryOf? && WellFormed(t) && !VariantFree(t) && 16 * |Print(t)| < WORD_LIMIT
    requires Holds(view, pos, Trap(o, t, pos))
    ensures Decode(o, t, view, pos) == Outside
    decreases t, 0
  {
    hide Padding, Trap, ZeroBasicEnd, Holds, ReadBasic, IsBasic, Print, Decode, DecodePair, WellFormed, VariantFree,
      Zeros;
    TrapOfEntry(o, t, pos);
    var p := pos + Padding(8, pos);
    var start := ZeroBasicEnd(t.key, p);
    HoldsConcat(view, pos, Zeros(start - pos), Trap(o, t.value, start));
    ZerosHeld(view, pos, start);
    ZeroBasicRead(o, t.key, view, p);
    TrapNeverEnds(o, t.value, view, start);
    EntryTrapped(o, t, view, pos);
  }

  lemma TrapOfEntry(o: Order, t: Type, pos: nat)
    requires t.EntryOf? && WellFormed(t) && !VariantFree(t)
    ensures IsBasic(t.key) && WellFormed(t.value) && !VariantFree(t.value) && |Print(t)| == |Print(t.value)| + 3
    ensures var start := ZeroBasicEnd(t.key, pos + Padding(8, pos));
            Trap(o, t, pos) == Zeros(start - pos) + Trap(o, t.value, start)
  {
    hide ZeroBasicEnd, Padding, IsBasic;
  }

  lemma EntryTrapped(o: Order, t: Type, view: bytes, pos: nat)
    requires t.EntryOf? && WellFormed(t) && WellFormed(t.value) && IsBasic(t.key) && pos + Padding(8, pos) <= |view|
    requires var key := ReadBasic(o, t.key, view, pos + Padding(8, pos));
             key.Ok? && Decode(o, t.value, view, key.pos) == Outside
    ensures Decode(o, t, view, pos) == Outside
  {
    hide Padding, ReadBasic, IsBasic;
    assert DecodePair(o, t.key, t.value, view, pos + Padding(8, pos)) == Outside;
  }

  /**
   * For which types decoding always ends: exactly those without a variant. (The bound keeps the items of an array
   * within its length word; a signature that arrives as such has at most 255 bytes.)
   */
  lemma EndsExactlyWhenVariantFree(o: Order, t: Type)
    requires WellFormed(t) && 16 * |Print(t)| < WORD_LIMIT
    ensures VariantFree(t) <==> forall view, pos: nat :: pos <= |view| ==> !Unmarshall(o, Print(t), view, pos).Outside?
  {
    hide Unmarshall, Decode, Print, WellFormed, VariantFree, Trap;
    if VariantFree(t) {
      forall view, pos: nat | pos <= |view|
        ensures !Unmarshall(o, Print(t), view, pos).Outside?
      {
        VariantFreeEnds(o, t, view, pos);
      }
    } else {
      var view := Trap(o, t, 0);
      assert view[0..|view|] == view;
      TrapNeverEnds(o, t, view, 0);
      SignatureDrivenIsTypeDriven(o, t, view, 0);
      assert Unmarshall(o, Print(t), view, 0).Outside?;
    }
  }
}
