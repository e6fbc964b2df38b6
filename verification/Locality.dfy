/**
 * Decoding depends on its position only modulo eight, and a successful read only on the bytes it consumes: it is the
 * same read in any buffer that holds its view at a multiple of eight.
 */
module Locality {
  import opened Octets
  import opened Signatures
  import opened Values
  import opened Unmarshalling

  /** The view is part of the buffer, k bytes in, and k keeps alignment. */
  predicate Embeds(buffer: bytes, k: nat, view: bytes) {
    k % 8 == 0 && Holds(buffer, k, view)
  }

  /**
   * r, read in a view, is r', read k bytes later. An exception may be for want of bytes, so it carries over only where
   * the buffer ends with the view.
   */
  predicate Moved<T(==)>(r: Outcome<T>, k: nat, r': Outcome<T>, ends: bool) {
    match r
    case Ok(value, pos) => r' == Ok(value, k + pos)
    case Throw => ends ==> r' == Throw
    case Outside => r' == Outside
  }

  /** The buffer ends where the view, k bytes in, ends. */
  predicate EndsWith(buffer: bytes, k: nat, view: bytes) {
    |buffer| == k + |view|
  }

  lemma PaddingMoves(a: nat, k: nat, pos: nat)
    requires IsAlignment(a) && k % 8 == 0
    ensures Padding(a, k + pos) == Padding(a, pos)
  {
    Congruent(k, 0, pos);
    PaddingCongruence(a, k + pos, pos);
  }

  lemma ReadByteMoves(view: bytes, pos: nat, buffer: bytes, k: nat)
    requires Embeds(buffer, k, view)
    ensures Moved(ReadByte(view, pos), k, ReadByte(buffer, k + pos), EndsWith(buffer, k, view))
  {
    if pos < |view| {
      HoldsAt(buffer, k, view, pos);
    }
  }

  lemma ReadBytesMoves(n: nat, view: bytes, pos: nat, buffer: bytes, k: nat)
    requires Embeds(buffer, k, view)
    ensures Moved(ReadBytes(n, view, pos), k, ReadBytes(n, buffer, k + pos), EndsWith(buffer, k, view))
  {
    if pos + n <= |view| {
      HoldsWithin(buffer, k, view, pos, pos + n);
    }
  }

  lemma ReadWordMoves(o: Order, n: nat, view: bytes, pos: nat, buffer: bytes, k: nat)
    requires Embeds(buffer, k, view) && IsAlignment(n)
    ensures Moved(ReadWord(o, n, view, pos), k, ReadWord(o, n, buffer, k + pos), EndsWith(buffer, k, view))
  {
    PaddingMoves(n, k, pos);
    ReadBytesMoves(n, view, pos + Padding(n, pos), buffer, k);
  }

  lemma ReadStringMoves(o: Order, view: bytes, pos: nat, buffer: bytes, k: nat)
    requires Embeds(buffer, k, view)
    ensures Moved(ReadString(o, view, pos), k, ReadString(o, buffer, k + pos), EndsWith(buffer, k, view))
  {
    hide ReadWord, ReadBytes, ReadByte, Holds;
    ReadWordMoves(o, 4, view, pos, buffer, k);
    var size := ReadWord(o, 4, view, pos);
    if size.Ok? {
      ReadBytesMoves(size.value, view, size.pos, buffer, k);
      ReadByteMoves(view, size.pos + size.value, buffer, k);
    }
  }

  lemma ReadSignatureMoves(view: bytes, pos: nat, buffer: bytes, k: nat)
    requires Embeds(buffer, k, view)
    ensures Moved(ReadSignature(view, pos), k, ReadSignature(buffer, k + pos), EndsWith(buffer, k, view))
  {
    hide ReadBytes, ReadByte, Holds;
    ReadByteMoves(view, pos, buffer, k);
    var size := ReadByte(view, pos);
    if size.Ok? {
      ReadBytesMoves(size.value, view, size.pos, buffer, k);
      ReadByteMoves(view, size.pos + size.value, buffer, k);
    }
  }

  lemma ReadBasicMoves(o: Order, code: byte, view: bytes, pos: nat, buffer: bytes, k: nat)
    requires IsBasic(code) && Embeds(buffer, k, view)
    ensures Moved(ReadBasic(o, code, view, pos), k, ReadBasic(o, code, buffer, k + pos), EndsWith(buffer, k, view))
  {
    hide ReadBasic, Moved, Embeds, EndsWith, IsBasic;
    if code == CODE_BYTE || code == CODE_DOUBLE || code == CODE_SIGNATURE {
      UnalignedMoves(o, code, view, pos, buffer, k);
    } else if code == CODE_STRING || code == CODE_OBJECT_PATH {
      TextMoves(o, code, view, pos, buffer, k);
    } else {
      IntegerMoves(o, code, view, pos, buffer, k);
    }
  }

  lemma UnalignedMoves(o: Order, code: byte, view: bytes, pos: nat, buffer: bytes, k: nat)
    requires IsBasic(code) && Embeds(buffer, k, view)
    requires code == CODE_BYTE || code == CODE_DOUBLE || code == CODE_SIGNATURE
    ensures Moved(ReadBasic(o, code, view, pos), k, ReadBasic(o, code, buffer, k + pos), EndsWith(buffer, k, view))
  {
    hide ReadBytes, ReadByte, ReadWord, ReadString, ReadSignature, IsBasic, Embeds, EndsWith;
    if code == CODE_BYTE {
      ReadByteMoves(view, pos, buffer, k);
    } else if code == CODE_DOUBLE {
      ReadBytesMoves(8, view, pos, buffer, k);
    } else {
      ReadSignatureMoves(view, pos, buffer, k);
    }
  }

  lemma TextMoves(o: Order, code: byte, view: bytes, pos: nat, buffer: bytes, k: nat)
    requires IsBasic(code) && Embeds(buffer, k, view)
    requires code == CODE_STRING || code == CODE_OBJECT_PATH
    ensures Moved(ReadBasic(o, code, view, pos), k, ReadBasic(o, code, buffer, k + pos), EndsWith(buffer, k, view))
  {
    hide ReadBytes, ReadByte, ReadWord, ReadString, ReadDouble, ReadSignature, IsBasic, Embeds, EndsWith;
    ReadStringMoves(o, view, pos, buffer, k);
  }

  lemma IntegerMoves(o: Order, code: byte, view: bytes, pos: nat, buffer: bytes, k: nat)
    requires IsBasic(code) && Embeds(buffer, k, view)
    requires code != CODE_BYTE && code != CODE_DOUBLE && code != CODE_SIGNATURE
    requires code != CODE_STRING && code != CODE_OBJECT_PATH
    ensures Moved(ReadBasic(o, code, view, pos), k, ReadBasic(o, code, buffer, k + pos), EndsWith(buffer, k, view))
  {
    hide ReadBytes, ReadByte, ReadWord, ReadString, ReadDouble, ReadSignature, IsBasic, KindOf, Embeds, EndsWith;
    var n := if code == CODE_BOOLEAN then 4 else KindOf(code).Width();
    assert IsAlignment(n);
    ReadWordMoves(o, n, view, pos, buffer, k);
  }

  /** Whatever the signature, well-formed or not. */
  lemma {:induction false} UnmarshallMoves(o: Order, signature: bytes, view: bytes, pos: nat, buffer: bytes, k: nat)
    requires Embeds(buffer, k, view) && pos <= |view|
    ensures Moved(Unmarshall(o, signature, view, pos), k, Unmarshall(o, signature, buffer, k + pos),
      EndsWith(buffer, k, view))
    decreases |view| - pos, |signature|, Opens(signature), 3, 0
  {
    hide Holds, Embeds, ReadBasic, UnmarshallVariant, UnmarshallArray, UnmarshallStruct, UnmarshallEntry;
    var code := At(signature, 0);
    if IsBasic(code) {
      ReadBasicMoves(o, code, view, pos, buffer, k);
    } else if code == CODE_VARIANT {
      VariantMoves(o, view, pos, buffer, k);
    } else if code == CODE_ARRAY {
      ArrayMoves(o, signature, view, pos, buffer, k);
    } else if code == OPEN_STRUCT {
      StructMoves(o, signature, view, pos, buffer, k);
    } else if code == OPEN_ENTRY {
      EntryMoves(o, signature, view, pos, buffer, k);
    }
  }

  lemma {:induction false} VariantMoves(o: Order, view: bytes, pos: nat, buffer: bytes, k: nat)
    requires Embeds(buffer, k, view) && pos <= |view|
    ensures Moved(UnmarshallVariant(o, view, pos), k, UnmarshallVariant(o, buffer, k + pos), EndsWith(buffer, k, view))
    decreases |view| - pos, 0, 0, 0, 0
  {
    hide Holds, ReadSignature, Unmarshall;
    ReadSignatureMoves(view, pos, buffer, k);
    var contained := ReadSignature(view, pos);
    if contained.Ok? {
      UnmarshallMoves(o, contained.value, view, contained.pos, buffer, k);
    }
  }

  lemma {:induction false} ArrayMoves(o: Order, signature: bytes, view: bytes, pos: nat, buffer: bytes, k: nat)
    requires Embeds(buffer, k, view) && pos <= |view|
    ensures Moved(UnmarshallArray(o, signature, view, pos), k, UnmarshallArray(o, signature, buffer, k + pos),
      EndsWith(buffer, k, view))
    decreases |view| - pos, |signature|, Opens(signature), 2, 0
  {
    hide ReadWord, UnmarshallElements, Padding, Extract, Alignment, Embeds, EndsWith;
    ReadWordMoves(o, 4, view, pos, buffer, k);
    var size := ReadWord(o, 4, view, pos);
    if size.Ok? {
      var element := Extract(signature, 1);
      EmbedsWithin(buffer, k, view);
      PaddingMoves(Alignment(element), k, size.pos);
      var q := size.pos + Padding(Alignment(element), size.pos);
      var end := q + size.value;
      if end <= |view| {
        PrefixEmbeds(buffer, k, view, end);
        ElementsMove(o, element, view[..end], q, buffer[..k + end], k);
      }
    }
  }

  lemma EmbedsWithin(buffer: bytes, k: nat, view: bytes)
    requires Embeds(buffer, k, view)
    ensures k % 8 == 0 && k + |view| <= |buffer|
    ensures EndsWith(buffer, k, view) <==> |buffer| == k + |view|
  {}

  lemma PrefixEmbeds(buffer: bytes, k: nat, view: bytes, end: nat)
    requires Embeds(buffer, k, view) && end <= |view|
    ensures k + end <= |buffer| && Embeds(buffer[..k + end], k, view[..end])
    ensures EndsWith(buffer[..k + end], k, view[..end])
  {
    HoldsWithin(buffer, k, view, 0, end);
    assert buffer[..k + end][k..k + end] == buffer[k..k + end] && view[0..end] == view[..end];
  }

  lemma {:induction false} ElementsMove(o: Order, element: bytes, view: bytes, pos: nat, buffer: bytes, k: nat)
    requires Embeds(buffer, k, view) && pos <= |view| && EndsWith(buffer, k, view)
    ensures Moved(UnmarshallElements(o, element, view, pos), k, UnmarshallElements(o, element, buffer, k + pos),
      EndsWith(buffer, k, view))
    decreases |view| - pos, |element|, Opens(element), 4, 0
  {
    hide Unmarshall, Holds;
    if pos < |view| {
      UnmarshallMoves(o, element, view, pos, buffer, k);
      var first := Unmarshall(o, element, view, pos);
      if first.Ok? && first.pos != pos {
        ElementsMove(o, element, view, first.pos, buffer, k);
      }
    }
  }

  lemma {:induction false} StructMoves(o: Order, signature: bytes, view: bytes, pos: nat, buffer: bytes, k: nat)
    requires Embeds(buffer, k, view) && pos <= |view| && At(signature, 0) == OPEN_STRUCT
    ensures Moved(UnmarshallStruct(o, signature, view, pos), k, UnmarshallStruct(o, signature, buffer, k + pos),
      EndsWith(buffer, k, view))
    decreases |view| - pos, |signature|, Opens(signature), 2, 0
  {
    hide UnmarshallFields, Padding;
    PaddingMoves(8, k, pos);
    var p := pos + Padding(8, pos);
    if p <= |view| {
      FieldsMove(o, signature, 1, view, p, buffer, k);
    }
  }

  lemma {:induction false} FieldsMove(o: Order, signature: bytes, idx: nat, view: bytes, pos: nat,
                                      buffer: bytes, k: nat)
    requires Embeds(buffer, k, view) && pos <= |view| && At(signature, 0) == OPEN_STRUCT && idx >= 1
    ensures Moved(UnmarshallFields(o, signature, idx, view, pos), k,
      UnmarshallFields(o, signature, idx, buffer, k + pos), EndsWith(buffer, k, view))
    decreases |view| - pos, |signature|, Opens(signature), 1, |signature| - idx
  {
    hide Unmarshall, Holds, Extract;
    var one := Extract(signature, idx);
    if one != signature {
      FieldShrinks(signature, idx);
      UnmarshallMoves(o, one, view, pos, buffer, k);
      var first := Unmarshall(o, one, view, pos);
      if first.Ok? && idx + |one| < |signature| - 1 {
        FieldsMove(o, signature, idx + |one|, view, first.pos, buffer, k);
      }
    }
  }

  lemma {:induction false} EntryMoves(o: Order, signature: bytes, view: bytes, pos: nat, buffer: bytes, k: nat)
    requires Embeds(buffer, k, view) && pos <= |view|
    ensures Moved(UnmarshallEntry(o, signature, view, pos), k, UnmarshallEntry(o, signature, buffer, k + pos),
      EndsWith(buffer, k, view))
    decreases |view| - pos, |signature|, Opens(signature), 2, 0
  {
    hide Padding, Unmarshall, Extract;
    PaddingMoves(8, k, pos);
    var p := pos + Padding(8, pos);
    if p <= |view| && |signature| >= 2 && IsValidBasicType(signature[1]) {
      var element := Extract(signature, 2);
      UnmarshallMoves(o, [signature[1]], view, p, buffer, k);
      var key := Unmarshall(o, [signature[1]], view, p);
      if key.Ok? {
        UnmarshallMoves(o, element, view, key.pos, buffer, k);
      }
    }
  }

  /** What a reader that starts k bytes later makes of the same bytes. */
  function Shifted<T>(r: Outcome<T>, k: nat): Outcome<T> {
    match r
    case Ok(value, pos) => Ok(value, k + pos)
    case Throw => Throw
    case Outside => Outside
  }

  /**
   * Translation invariance of decoding: whatever the signature and the bytes, decoding behind any multiple of eight
   * other bytes gives the identical result, value, exception or none, so many bytes later.
   */
  lemma UnmarshallTranslates(o: Order, signature: bytes, view: bytes, pos: nat, before: bytes)
    requires pos <= |view| && |before| % 8 == 0
    ensures Unmarshall(o, signature, before + view, |before| + pos)
      == Shifted(Unmarshall(o, signature, view, pos), |before|)
  {
    hide Unmarshall;
    assert Embeds(before + view, |before|, view);
    UnmarshallMoves(o, signature, view, pos, before + view, |before|);
  }
}
