/**
 * Marshalling: what each value contributes to an output stream that already holds `pos` bytes,
 * and when that layout is one the unmarshaller reads back.
 */
module Marshalling {
  import opened Octets
  import opened Signatures
  import opened Values

  /** Padding to the word's own width, then the word. */
  function PutWord(o: Order, v: nat, n: nat, pos: nat): bytes {
    Zeros(Padding(n, pos)) + Word(o, v, n)
  }

  /** `writeString`: a 32-bit length, the text, a NUL. */
  function PutString(o: Order, text: bytes, pos: nat): bytes {
    PutWord(o, |text| % WORD_LIMIT, 4, pos) + text + [0]
  }

  /** `writeSignature`: a one-byte length, the text, a NUL. */
  function PutSignature(text: bytes): bytes {
    [|text| % 256] + text + [0]
  }

  function MarshallBasic(o: Order, b: BasicValue, pos: nat): bytes {
    match b
    case Byte(b) => [b]
    case Boolean(word) => PutWord(o, if word != 0 then 1 else 0, 4, pos)
    case Fixed(kind, bits) => PutWord(o, bits, kind.Width(), pos)
    case Double(bits) => PutWord(o, bits, 8, pos)
    case String(text) => PutString(o, text, pos)
    case ObjectPath(text) => PutString(o, text, pos)
    case Signature(text) => PutSignature(text)
  }

  /** Where the first element of an array begins: after the padded length word and the padding of the element type. */
  function ContentsStart(signature: bytes, pos: nat): (start: nat)
    ensures pos + Padding(4, pos) + 4 <= start
  {
    var afterLength := pos + Padding(4, pos) + 4;
    afterLength + Padding(Alignment(Extract(signature, 1)), afterLength)
  }

  /** `marshallData`. */
  function Marshall(o: Order, v: Value, pos: nat): bytes
    decreases v, 1
  {
    match v
    case Empty => []
    case Plain(basic) => MarshallBasic(o, basic, pos)
    case Array(_, _) => MarshallArray(o, v, pos)
    case Struct(fields) => Zeros(Padding(8, pos)) + MarshallAll(o, fields, pos + Padding(8, pos))
    case DictEntry(_, _, _) => Zeros(Padding(8, pos)) + MarshallPair(o, v, pos + Padding(8, pos))
    case Variant(contained, value) => PutSignature(contained) + Marshall(o, value, pos + |PutSignature(contained)|)
  }

  /**
   * `Array::marshall`. The length is patched over the first four bytes the array appended,
   * which is where the length word stands only when no padding came before it.
   */
  function MarshallArray(o: Order, v: Value, pos: nat): bytes
    requires v.Array?
    decreases v, 0
  {
    var start := ContentsStart(SignatureOf(v), pos);
    var body := MarshallAll(o, v.contents, start);
    Word(o, |body| % WORD_LIMIT, 4) + Zeros(start - pos - 4) + body
  }

  /** The key and the value of a dict entry, one after the other. */
  function MarshallPair(o: Order, v: Value, pos: nat): bytes
    requires v.DictEntry?
    decreases v, 0
  {
    var first := Marshall(o, v.key, pos);
    first + Marshall(o, v.value, pos + |first|)
  }

  function MarshallAll(o: Order, vs: seq<Value>, pos: nat): bytes
    decreases vs, 2
  {
    if vs == [] then []
    else
      var first := Marshall(o, vs[0], pos);
      first + MarshallAll(o, vs[1..], pos + |first|)
  }

  /** How many bytes v occupies when it starts at pos; the byte order makes no difference. */
  function Size(v: Value, pos: nat): nat {
    |Marshall(Little, v, pos)|
  }

  function SizeAll(vs: seq<Value>, pos: nat): nat {
    |MarshallAll(Little, vs, pos)|
  }

  lemma {:induction false} SizeAnyOrder(o: Order, v: Value, pos: nat)
    ensures |Marshall(o, v, pos)| == Size(v, pos)
    decreases v, 1
  {
    hide Padding, MarshallArray, MarshallPair, MarshallAll;
    match v
    case Empty =>
    case Plain(_) =>
    case Array(_, _) => ArraySizeAnyOrder(o, v, pos);
    case Struct(fields) => SizeAllAnyOrder(o, fields, pos + Padding(8, pos));
    case DictEntry(_, _, _) => PairSizeAnyOrder(o, v, pos + Padding(8, pos));
    case Variant(contained, value) => SizeAnyOrder(o, value, pos + |PutSignature(contained)|);
  }

  lemma {:induction false} ArraySizeAnyOrder(o: Order, v: Value, pos: nat)
    requires v.Array?
    ensures |MarshallArray(o, v, pos)| == |MarshallArray(Little, v, pos)|
    decreases v, 0
  {
    hide Padding, ContentsStart, Marshall, MarshallAll;
    SizeAllAnyOrder(o, v.contents, ContentsStart(SignatureOf(v), pos));
  }

  lemma {:induction false} PairSizeAnyOrder(o: Order, v: Value, pos: nat)
    requires v.DictEntry?
    ensures |MarshallPair(o, v, pos)| == |MarshallPair(Little, v, pos)|
    decreases v, 0
  {
    hide Marshall;
    SizeAnyOrder(o, v.key, pos);
    SizeAnyOrder(o, v.value, pos + Size(v.key, pos));
  }

  lemma {:induction false} SizeAllAnyOrder(o: Order, vs: seq<Value>, pos: nat)
    ensures |MarshallAll(o, vs, pos)| == SizeAll(vs, pos)
    decreases vs, 2
  {
    hide Marshall;
    if vs != [] {
      SizeAnyOrder(o, vs[0], pos);
      SizeAllAnyOrder(o, vs[1..], pos + Size(vs[0], pos));
    }
  }

  // ----- layout

  /**
   * The layouts that survive: every non-empty array starts on a 4-byte boundary (else its length is patched
   * into the padding) and every double on an 8-byte boundary (the reader does not align doubles).
   */
  predicate LayoutOk(v: Value, pos: nat)
    decreases v, 1
  {
    match v
    case Empty => true
    case Plain(basic) => basic.Double? ==> pos % 8 == 0
    case Array(_, contents) =>
      contents == [] || (pos % 4 == 0 && LayoutAllOk(contents, ContentsStart(SignatureOf(v), pos)))
    case Struct(fields) => LayoutAllOk(fields, pos + Padding(8, pos))
    case DictEntry(_, key, value) =>
      var p := pos + Padding(8, pos);
      LayoutOk(key, p) && LayoutOk(value, p + Size(key, p))
    case Variant(contained, value) => LayoutOk(value, pos + |contained| + 2)
  }

  predicate LayoutAllOk(vs: seq<Value>, pos: nat)
    decreases vs, 2
  {
    vs == [] || (LayoutOk(vs[0], pos) && LayoutAllOk(vs[1..], pos + Size(vs[0], pos)))
  }

  /** No array's contents overflow its 32-bit length word. */
  predicate Fits(v: Value, pos: nat)
    decreases v, 1
  {
    match v
    case Empty => true
    case Plain(_) => true
    case Array(_, contents) =>
      var start := ContentsStart(SignatureOf(v), pos);
      SizeAll(contents, start) < WORD_LIMIT && FitsAll(contents, start)
    case Struct(fields) => FitsAll(fields, pos + Padding(8, pos))
    case DictEntry(_, key, value) =>
      var p := pos + Padding(8, pos);
      Fits(key, p) && Fits(value, p + Size(key, p))
    case Variant(contained, value) => Fits(value, pos + |contained| + 2)
  }

  predicate FitsAll(vs: seq<Value>, pos: nat)
    decreases vs, 2
  {
    vs == [] || (Fits(vs[0], pos) && FitsAll(vs[1..], pos + Size(vs[0], pos)))
  }

  // ----- translation invariance

  /** The bytes of a value depend on its position only modulo eight. */
  lemma {:induction false} TranslationInvariance(o: Order, v: Value, p: nat, q: nat)
    requires p % 8 == q % 8
    ensures Marshall(o, v, p) == Marshall(o, v, q)
    decreases v, 1
  {
    hide Padding, MarshallArray, MarshallPair, MarshallAll, MarshallBasic;
    PaddingCongruence(8, p, q);
    Congruent(p, q, Padding(8, p));
    match v
    case Empty =>
    case Plain(basic) => BasicTranslation(o, basic, p, q);
    case Array(_, _) => ArrayTranslation(o, v, p, q);
    case Struct(fields) => TranslationInvarianceAll(o, fields, p + Padding(8, p), q + Padding(8, q));
    case DictEntry(_, _, _) => PairTranslation(o, v, p + Padding(8, p), q + Padding(8, q));
    case Variant(contained, value) =>
      Congruent(p, q, |PutSignature(contained)|);
      TranslationInvariance(o, value, p + |PutSignature(contained)|, q + |PutSignature(contained)|);
  }

  lemma BasicTranslation(o: Order, b: BasicValue, p: nat, q: nat)
    requires p % 8 == q % 8
    ensures MarshallBasic(o, b, p) == MarshallBasic(o, b, q)
  {
    hide Padding, Word;
    PaddingCongruence(4, p, q);
    PaddingCongruence(8, p, q);
    if b.Fixed? {
      PaddingCongruence(b.kind.Width(), p, q);
    }
  }

  lemma {:induction false} ArrayTranslation(o: Order, v: Value, p: nat, q: nat)
    requires v.Array? && p % 8 == q % 8
    ensures MarshallArray(o, v, p) == MarshallArray(o, v, q)
    decreases v, 0
  {
    hide Padding, ContentsStart, Marshall, MarshallAll, SignatureOf, Word;
    ContentsStartCongruence(SignatureOf(v), p, q);
    TranslationInvarianceAll(o, v.contents, ContentsStart(SignatureOf(v), p), ContentsStart(SignatureOf(v), q));
  }

  lemma {:induction false} PairTranslation(o: Order, v: Value, p: nat, q: nat)
    requires v.DictEntry? && p % 8 == q % 8
    ensures MarshallPair(o, v, p) == MarshallPair(o, v, q)
    decreases v, 0
  {
    hide Marshall;
    var n := |Marshall(o, v.key, p)|;
    TranslationInvariance(o, v.key, p, q);
    Congruent(p, q, n);
    TranslationInvariance(o, v.value, p + n, q + n);
  }

  lemma {:induction false} TranslationInvarianceAll(o: Order, vs: seq<Value>, p: nat, q: nat)
    requires p % 8 == q % 8
    ensures MarshallAll(o, vs, p) == MarshallAll(o, vs, q)
    decreases vs, 2
  {
    hide Marshall;
    if vs != [] {
      TranslationInvariance(o, vs[0], p, q);
      var n := |Marshall(o, vs[0], p)|;
      Congruent(p, q, n);
      TranslationInvarianceAll(o, vs[1..], p + n, q + n);
    }
  }

  lemma ContentsStartCongruence(signature: bytes, p: nat, q: nat)
    requires p % 8 == q % 8
    ensures ContentsStart(signature, p) - p == ContentsStart(signature, q) - q
    ensures ContentsStart(signature, p) % 8 == ContentsStart(signature, q) % 8
  {
    hide Padding, Extract, Alignment;
    PaddingCongruence(4, p, q);
    var n := Padding(4, p) + 4;
    Congruent(p, q, n);
    var a := Alignment(Extract(signature, 1));
    PaddingCongruence(a, p + n, q + n);
    Congruent(p + n, q + n, Padding(a, p + n));
  }

  lemma PlainMarshalls(o: Order, b: BasicValue, pos: nat)
    ensures Marshall(o, Plain(b), pos) == MarshallBasic(o, b, pos)
    ensures LayoutOk(Plain(b), pos) <==> (b.Double? ==> pos % 8 == 0)
  {}

  // ----- the patched length

  /**
   * The word a reader finds where it looks for an array's length, on a little-endian host: the true size divided by
   * 256 for each byte of padding, so the size itself exactly when the array starts on a boundary or is zero bytes
   * long. The patch stays clear of the contents.
   */
  lemma PatchedLength(v: Value, pos: nat)
    requires v.Array?
    ensures var pad := Padding(4, pos);
            var start := ContentsStart(SignatureOf(v), pos);
            var m := MarshallArray(Little, v, pos);
            var n := SizeAll(v.contents, start) % WORD_LIMIT;
            && |m| >= pad + 4
            && LittleValue(m[pad..pad + 4]) == n / Pow256(pad)
            && (LittleValue(m[pad..pad + 4]) == n <==> pos % 4 == 0 || n == 0)
            && m[start - pos..] == MarshallAll(Little, v.contents, start)
  {
    var pad := Padding(4, pos);
    var start := ContentsStart(SignatureOf(v), pos);
    var m := MarshallArray(Little, v, pos);
    var n := SizeAll(v.contents, start) % WORD_LIMIT;
    hide Padding, ContentsStart, MarshallAll, LittleWord, LittleValue, Pow256, SignatureOf;
    PaddingFacts(4, pos);
    var w := LittleWord(n, 4);
    WordLimit();
    SizeAllAnyOrder(Little, v.contents, start);
    assert m[pad..pad + 4] == w[pad..] + Zeros(pad);
    LittleValueShift(w, pad);
    LittleRoundTrip(n, 4);
    PatchShrinks(n, pad);
  }

  lemma PatchShrinks(n: nat, pad: nat)
    ensures n / Pow256(pad) == n <==> pad == 0 || n == 0
  {
    if pad > 0 {
      assert Pow256(pad) == 256 * Pow256(pad - 1);
      QuotientShrinks(n, Pow256(pad));
    }
  }

  lemma QuotientShrinks(n: nat, d: nat)
    requires d >= 2
    ensures n / d == n <==> n == 0
  {
    var q := n / d;
    assert n == d * q + n % d;
    assert d * q >= 2 * q;
  }
}
