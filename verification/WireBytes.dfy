/**
 * What goes over the wire, byte by byte: numbers, letters, codes and alignments are written out here as the D-Bus
 * Specification gives them, with none of the names the library's tables go by.
 */
module WireBytes {
  import opened Octets
  import opened Signatures
  import opened Values
  import opened Marshalling

  function Ascii(s: string): (b: bytes)
    requires forall i :: 0 <= i < |s| ==> s[i] as int < 256
    ensures |b| == |s| && forall i :: 0 <= i < |s| ==> b[i] == s[i] as int
  {
    seq(|s|, i requires 0 <= i < |s| => s[i] as int)
  }

  // ----- alignment

  /** p is the least multiple of a from pos on. */
  predicate Reaches(p: nat, a: nat, pos: nat)
    requires a > 0
  {
    pos <= p && p % a == 0 && forall k :: pos <= k < p ==> k % a != 0
  }

  lemma PaddingReaches(a: nat, pos: nat)
    requires IsAlignment(a)
    ensures Reaches(pos + Padding(a, pos), a, pos)
  {
    PaddingFacts(a, pos);
    var p := pos + Padding(a, pos);
    hide Padding;
    if a == 2 {
      forall k | pos <= k < p
        ensures k % 2 != 0
      {
        assert k == p - 1;
      }
    } else if a == 4 {
      forall k | pos <= k < p
        ensures k % 4 != 0
      {
        assert 0 < p - k < 4;
      }
    } else if a == 8 {
      forall k | pos <= k < p
        ensures k % 8 != 0
      {
        assert 0 < p - k < 8;
      }
    }
  }

  /** The multiple of its size, in bytes, that a value of a type starts at; variants as this library has them. */
  function TypeAlignment(t: Type): (a: nat)
    ensures a == 1 || a == 2 || a == 4 || a == 8
  {
    match t
    case Basic(code) => LetterAlignment(code as char)
    case AnyVariant => 8
    case ArrayOf(_) => 4
    case StructOf(_) => 8
    case EntryOf(_, _) => 8
  }

  function LetterAlignment(letter: char): (a: nat)
    ensures a == 1 || a == 2 || a == 4 || a == 8
  {
    match letter
    case 'n' => 2
    case 'q' => 2
    case 'b' => 4
    case 'i' => 4
    case 'u' => 4
    case 's' => 4
    case 'o' => 4
    case 'x' => 8
    case 't' => 8
    case 'd' => 8
    case _ => 1
  }

  lemma AlignmentOfType(t: Type)
    requires WellFormed(t)
    ensures Alignment(Print(t)) == TypeAlignment(t)
  {}

  /**
   * The contents of an array start at the least multiple of their type's alignment behind the length word, which stands
   * at the least multiple of four; what lies before them there is zero.
   */
  lemma ContentsAreAligned(o: Order, v: Value, e: Type, pos: nat) returns (length: nat, start: nat)
    requires WellFormed(e) && HasType(v, ArrayOf(e))
    ensures v.Array? && Reaches(length, 4, pos) && Reaches(start, TypeAlignment(e), length + 4)
    ensures var all := MarshallArray(o, v, pos);
            && |all| >= start - pos >= 4
            && all[start - pos..] == MarshallAll(o, v.contents, start)
            && all[4..start - pos] == Zeros(start - pos - 4)
  {
    hide HasType, WellFormed, SignatureOf, ContentsStart, Padding, Reaches, MarshallAll, MarshallArray, Zeros;
    length := pos + Padding(4, pos);
    start := ContentsStart(SignatureOf(v), pos);
    ContentsStartOf(v, e, pos);
    PaddingReaches(4, pos);
    PaddingReaches(TypeAlignment(e), length + 4);
    ArrayInParts(o, v, pos);
  }

  lemma ContentsStartOf(v: Value, e: Type, pos: nat)
    requires WellFormed(e) && HasType(v, ArrayOf(e))
    ensures v.Array?
    ensures var after := pos + Padding(4, pos) + 4;
            ContentsStart(SignatureOf(v), pos) == after + Padding(TypeAlignment(e), after)
  {
    assert v.Array?;
    hide HasType, SignatureOf, Padding, Alignment, TypeAlignment;
    SignatureIsType(v, ArrayOf(e));
    ItemText(e);
    AlignmentOfType(e);
  }

  lemma ItemText(e: Type)
    requires WellFormed(e)
    ensures Extract(Print(ArrayOf(e)), 1) == Print(e)
  {
    assert Holds(Print(ArrayOf(e)), 1, Print(e));
    ExtractInvertsPrint(Print(ArrayOf(e)), 1, e);
  }

  lemma ArrayInParts(o: Order, v: Value, pos: nat)
    requires v.Array?
    ensures var start, all := ContentsStart(SignatureOf(v), pos), MarshallArray(o, v, pos);
            && |all| >= start - pos >= 4
            && all[start - pos..] == MarshallAll(o, v.contents, start)
            && all[4..start - pos] == Zeros(start - pos - 4)
  {
    hide SignatureOf, ContentsStart, Padding, MarshallAll, Word, Zeros;
    var start := ContentsStart(SignatureOf(v), pos);
    var word, gap := Word(o, |MarshallAll(o, v.contents, start)| % WORD_LIMIT, 4), Zeros(start - pos - 4);
    assert MarshallArray(o, v, pos) == word + gap + MarshallAll(o, v.contents, start);
  }

  /** Structs and dict entries start at the least multiple of eight. */
  lemma ContainersAreAligned(o: Order, v: Value, pos: nat) returns (start: nat)
    requires v.Struct? || v.DictEntry?
    ensures Reaches(start, 8, pos)
    ensures v.Struct? ==> Marshall(o, v, pos) == Zeros(start - pos) + MarshallAll(o, v.fields, start)
    ensures v.DictEntry? ==> Marshall(o, v, pos) == Zeros(start - pos) + MarshallPair(o, v, start)
  {
    hide Padding, MarshallAll, MarshallPair, Zeros, Reaches;
    start := pos + Padding(8, pos);
    PaddingReaches(8, pos);
  }

  // ----- numbers

  function Power(n: nat): (p: nat)
    ensures p > 0
  {
    if n == 0 then 1 else 256 * Power(n - 1)
  }

  /** The i-th byte of a number, counted from the least significant. */
  function ByteOf(v: nat, i: nat): byte {
    v / Power(i) % 256
  }

  /** A number in n bytes: least significant first on a little-endian host, last on a big-endian one. */
  function NumberBytes(o: Order, v: nat, n: nat): (s: bytes)
    ensures |s| == n
  {
    seq(n, i requires 0 <= i < n => ByteOf(v, if o.Little? then i else n - 1 - i))
  }

  lemma {:induction false} LittleWordBytes(v: nat, n: nat, i: nat)
    requires i < n
    ensures LittleWord(v, n)[i] == ByteOf(v, i)
  {
    if i > 0 {
      LittleWordBytes(v / 256, n - 1, i - 1);
      DivideTwice(v % 256, v / 256, Power(i - 1));
    }
  }

  lemma WordBytes(o: Order, v: nat, n: nat)
    ensures Word(o, v, n) == NumberBytes(o, v, n)
  {
    hide LittleWord, ByteOf;
    forall i | 0 <= i < n
      ensures Word(o, v, n)[i] == NumberBytes(o, v, n)[i]
    {
      LittleWordBytes(v, n, if o.Little? then i else n - 1 - i);
    }
  }

  // ----- basic values

  /** The bytes of a basic value of the type with this letter, once it is aligned. */
  function Payload(o: Order, letter: char, b: BasicValue): bytes {
    match letter
    case 'y' => if b.Byte? then [b.b] else []
    case 'b' => if b.Boolean? then NumberBytes(o, if b.word == 0 then 0 else 1, 4) else []
    case 'n' => if b.Fixed? then NumberBytes(o, b.bits, 2) else []
    case 'q' => if b.Fixed? then NumberBytes(o, b.bits, 2) else []
    case 'i' => if b.Fixed? then NumberBytes(o, b.bits, 4) else []
    case 'u' => if b.Fixed? then NumberBytes(o, b.bits, 4) else []
    case 'x' => if b.Fixed? then NumberBytes(o, b.bits, 8) else []
    case 't' => if b.Fixed? then NumberBytes(o, b.bits, 8) else []
    case 'd' => if b.Double? then NumberBytes(o, b.bits, 8) else []
    case 's' => if b.String? then NumberBytes(o, |b.text|, 4) + b.text + [0] else []
    case 'o' => if b.ObjectPath? then NumberBytes(o, |b.text|, 4) + b.text + [0] else []
    case 'g' => if b.Signature? then [|b.text| % 256] + b.text + [0] else []
    case _ => []
  }

  /** A basic value is padded with zeros to the least multiple of its alignment and then has exactly those bytes. */
  lemma BasicBytes(o: Order, v: Value, code: byte, pos: nat) returns (start: nat)
    requires HasBasicType(v, code)
    ensures Reaches(start, LetterAlignment(code as char), pos)
    ensures Marshall(o, v, pos) == Zeros(start - pos) + Payload(o, code as char, v.basic)
    ensures Payload(o, code as char, v.basic) != []
  {
    var a := LetterAlignment(code as char);
    start := pos + Padding(a, pos);
    PaddingReaches(a, pos);
    hide Padding, Word, NumberBytes, Reaches, Payload, MarshallBasic;
    match v.basic
    case Byte(_) => UnpaddedBytes(o, v.basic, code, pos);
    case Signature(_) => UnpaddedBytes(o, v.basic, code, pos);
    case Boolean(_) => WordPayload(o, v.basic, code, pos);
    case Fixed(_, _) => WordPayload(o, v.basic, code, pos);
    case Double(_) => WordPayload(o, v.basic, code, pos);
    case String(_) => TextBytes(o, v.basic, code, pos);
    case ObjectPath(_) => TextBytes(o, v.basic, code, pos);
  }

  lemma UnpaddedBytes(o: Order, b: BasicValue, code: byte, pos: nat)
    requires (b.Byte? || b.Signature?) && BasicCode(b) == code
    ensures LetterAlignment(code as char) == 1 && Padding(1, pos) == 0
    ensures MarshallBasic(o, b, pos) == Zeros(0) + Payload(o, code as char, b) && Payload(o, code as char, b) != []
  {
    hide NumberBytes;
  }

  lemma WordPayload(o: Order, b: BasicValue, code: byte, pos: nat)
    requires (b.Boolean? || b.Fixed? || b.Double?) && BasicCode(b) == code
    ensures var a := LetterAlignment(code as char);
            && MarshallBasic(o, b, pos) == Zeros(Padding(a, pos)) + Payload(o, code as char, b)
            && Payload(o, code as char, b) != []
  {
    hide NumberBytes, Word, Padding;
    match b
    case Boolean(word) => WordBytes(o, if word != 0 then 1 else 0, 4);
    case Fixed(kind, bits) => WordBytes(o, bits, kind.Width());
    case Double(bits) => WordBytes(o, bits, 8);
  }

  lemma TextBytes(o: Order, b: BasicValue, code: byte, pos: nat)
    requires (b.String? || b.ObjectPath?) && BasicCode(b) == code && |b.text| < WORD_LIMIT
    ensures LetterAlignment(code as char) == 4
    ensures MarshallBasic(o, b, pos) == Zeros(Padding(4, pos)) + Payload(o, code as char, b)
    ensures Payload(o, code as char, b) != []
  {
    hide NumberBytes, Word, Padding;
    WordBytes(o, |b.text|, 4);
    var pad, word := Zeros(Padding(4, pos)), NumberBytes(o, |b.text|, 4);
    assert pad + word + b.text + [0] == pad + (word + b.text + [0]);
  }

  // ----- the letters

  /** The basic types, by letter. */
  lemma BasicLetters(c: byte)
    ensures IsBasic(c) <==> c as char in "ybnqiuxtdsog"
  {}

  lemma ContainerLetters()
    ensures Ascii("v") == [CODE_VARIANT] && Ascii("a") == [CODE_ARRAY]
    ensures Ascii("(") == [OPEN_STRUCT] && Ascii(")") == [CLOSE_STRUCT]
    ensures Ascii("{") == [OPEN_ENTRY] && Ascii("}") == [CLOSE_ENTRY]
  {}

  /** Types as text. */
  lemma TypeLetters(t: Type)
    ensures match t
      case Basic(c) => Print(t) == [c]
      case AnyVariant => Print(t) == Ascii("v")
      case ArrayOf(e) => Print(t) == Ascii("a") + Print(e)
      case StructOf(ts) => Print(t) == Ascii("(") + PrintAll(ts) + Ascii(")")
      case EntryOf(k, e) => Print(t) == Ascii("{") + [k] + Print(e) + Ascii("}")
  {
    hide Ascii, PrintAll;
    ContainerLetters();
    if t.EntryOf? {
      assert [OPEN_ENTRY] + [t.key] == [OPEN_ENTRY, t.key];
    }
  }
}
