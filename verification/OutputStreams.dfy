/** `MessageOStream` and the marshalling methods that write to it, proved to append what Marshalling says. */
module OutputStreams {
  import opened Octets
  import opened Signatures
  import opened Values
  import opened Marshalling

  class MessageOStream {
    const order: Order    // the host's byte order
    var data: bytes

    constructor (order: Order)
      ensures data == [] && this.order == order
    {
      this.order := order;
      data := [];
    }

    method WriteByte(b: byte)
      modifies this
      ensures data == old(data) + [b]
    {
      data := data + [b];
    }

    method Pad(padding: nat)
      modifies this
      ensures data == old(data) + Zeros(Padding(padding, |old(data)|))
    {
      data := data + Zeros(Padding(padding, |data|));
    }

    /** `writeInt16` up to `writeDouble`: pad to the width, then the host's memory image. */
    method WriteWord(v: nat, width: nat)
      modifies this
      ensures data == old(data) + PutWord(order, v, width, |old(data)|)
    {
      Pad(width);
      data := data + Word(order, v, width);
    }

    method Write(text: bytes)
      modifies this
      ensures data == old(data) + text
    {
      data := data + text;
    }

    method WriteString(text: bytes)
      modifies this
      ensures data == old(data) + PutString(order, text, |old(data)|)
    {
      Pad(4);
      PaddingFacts(4, |old(data)|);
      assert Padding(4, |data|) == 0;
      WriteWord(|text| % WORD_LIMIT, 4);
      Write(text);
      WriteByte(0);
    }

    method WriteSignature(text: bytes)
      modifies this
      ensures data == old(data) + PutSignature(text)
    {
      WriteByte(|text| % 256);
      Write(text);
      WriteByte(0);
    }

    /** `data.replace(at, 4, ...)`. */
    method ReplaceWord(at: nat, v: nat)
      requires at + 4 <= |data|
      modifies this
      ensures data == old(data)[..at] + Word(order, v, 4) + old(data)[at + 4..]
    {
      data := data[..at] + Word(order, v, 4) + data[at + 4..];
    }
  }

  method MarshallData(v: Value, stream: MessageOStream)
    modifies stream
    ensures stream.data == old(stream.data) + Marshall(stream.order, v, |old(stream.data)|)
    decreases v, 1
  {
    hide MarshallArray, MarshallPair, MarshallAll;
    match v {
      case Empty =>
      case Plain(basic) =>
        MarshallPlain(basic, stream);
      case Array(_, _) =>
        MarshallArrayTo(v, stream);
      case Struct(fields) =>
        stream.Pad(8);
        MarshallContents(fields, stream);
      case DictEntry(_, _, _) =>
        stream.Pad(8);
        MarshallKeyAndValue(v, stream);
      case Variant(contained, value) =>
        stream.WriteSignature(contained);
        MarshallData(value, stream);
    }
  }

  method MarshallPlain(basic: BasicValue, stream: MessageOStream)
    modifies stream
    ensures stream.data == old(stream.data) + MarshallBasic(stream.order, basic, |old(stream.data)|)
  {
    match basic {
      case Byte(b) => stream.WriteByte(b);
      case Boolean(word) => stream.WriteWord(if word != 0 then 1 else 0, 4);
      case Fixed(kind, bits) => stream.WriteWord(bits, kind.Width());
      case Double(bits) => stream.WriteWord(bits, 8);
      case String(text) => stream.WriteString(text);
      case ObjectPath(text) => stream.WriteString(text);
      case Signature(text) => stream.WriteSignature(text);
    }
  }

  /** `Array::marshall`: a zero length, padding, the contents, then the length written over what stands at `sizePos`. */
  method MarshallArrayTo(v: Value, stream: MessageOStream)
    requires v.Array?
    modifies stream
    ensures stream.data == old(stream.data) + MarshallArray(stream.order, v, |old(stream.data)|)
    decreases v, 0
  {
    hide MarshallAll, Marshall, Padding, Word, Extract;
    var sizePos := |stream.data|;
    stream.WriteWord(0, 4);
    var elementSignature := ExtractSignature(SignatureOf(v), 1);
    stream.Pad(Alignment(elementSignature));
    var contentsStartPos := |stream.data|;
    assert contentsStartPos == ContentsStart(SignatureOf(v), sizePos);
    ZeroWord(stream.order, 4);
    assert stream.data == old(stream.data) + Zeros(contentsStartPos - sizePos);
    MarshallContents(v.contents, stream);
    var contentsSize := |stream.data| - contentsStartPos;
    PatchFront(old(stream.data), contentsStartPos - sizePos, Word(stream.order, contentsSize % WORD_LIMIT, 4),
               MarshallAll(stream.order, v.contents, contentsStartPos));
    stream.ReplaceWord(sizePos, contentsSize % WORD_LIMIT);
  }

  /** Writing w over the first bytes of k appended zeros leaves everything else as it was. */
  lemma PatchFront(before: bytes, k: nat, w: bytes, body: bytes)
    requires |w| <= k
    ensures var all := before + Zeros(k) + body;
            all[..|before|] + w + all[|before| + |w|..] == before + (w + Zeros(k - |w|) + body)
  {}

  method MarshallContents(vs: seq<Value>, stream: MessageOStream)
    modifies stream
    ensures stream.data == old(stream.data) + MarshallAll(stream.order, vs, |old(stream.data)|)
    decreases vs, 2
  {
    hide Marshall;
    assert vs[0..] == vs;
    for i := 0 to |vs|
      invariant stream.data + MarshallAll(stream.order, vs[i..], |stream.data|)
             == old(stream.data) + MarshallAll(stream.order, vs, |old(stream.data)|)
    {
      assert vs[i..][0] == vs[i] && vs[i..][1..] == vs[i + 1..];
      MarshallData(vs[i], stream);
    }
  }

  method MarshallKeyAndValue(v: Value, stream: MessageOStream)
    requires v.DictEntry?
    modifies stream
    ensures stream.data == old(stream.data) + MarshallPair(stream.order, v, |old(stream.data)|)
    decreases v, 0
  {
    hide Marshall;
    MarshallData(v.key, stream);
    MarshallData(v.value, stream);
  }
}
