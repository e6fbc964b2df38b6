/** `OctetBuffer`, `MessageIStream` and the unmarshalling methods, proved to read what Unmarshalling says. */
module InputStreams {
  import opened Wrappers
  import opened Octets
  import opened Signatures
  import opened Values
  import opened Unmarshalling

  /** A bounds-checked view that can only shrink from the front. */
  class OctetBuffer {
    var data: bytes

    constructor (data: bytes)
      ensures this.data == data
    {
      this.data := data;
    }

    /** False where the source throws `out_of_range`. */
    method RemovePrefix(count: nat) returns (ok: bool)
      modifies this
      ensures ok <==> count <= |old(data)|
      ensures data == if ok then old(data)[count..] else old(data)
    {
      ok := count <= |data|;
      if ok {
        data := data[count..];
      }
    }

    method Find(b: byte) returns (index: Option<nat>)
      ensures index.Some? ==> index.value < |data| && data[index.value] == b && b !in data[..index.value]
      ensures index.None? ==> b !in data
    {
      for i := 0 to |data|
        invariant b !in data[..i]
      {
        if data[i] == b {
          return Some(i);
        }
      }
      return None;
    }
  }

  class MessageIStream {
    const host: Order              // the byte order of this machine
    const swapByteOrder: bool
    ghost const view: bytes        // the outermost buffer, up to where this stream may read
    var data: bytes
    var offset: nat

    ghost predicate Valid()
      reads this
    {
      offset <= |view| && data == view[offset..]
    }

    /** The order the data is in, as far as this stream believes. */
    function DataOrder(): Order {
      if swapByteOrder then host.Other() else host
    }

    constructor (data: bytes, host: Order, swapByteOrder: bool)
      ensures Valid() && view == data && offset == 0
      ensures this.host == host && this.swapByteOrder == swapByteOrder
    {
      this.data := data;
      this.host := host;
      this.swapByteOrder := swapByteOrder;
      offset := 0;
      view := data;
    }

    /** The constructed half of `MessageIStream(stream, size)`. */
    constructor At(ghost view: bytes, data: bytes, offset: nat, host: Order, swapByteOrder: bool)
      requires offset <= |view| && data == view[offset..]
      ensures Valid() && this.view == view && this.offset == offset
      ensures this.host == host && this.swapByteOrder == swapByteOrder
    {
      this.view := view;
      this.data := data;
      this.offset := offset;
      this.host := host;
      this.swapByteOrder := swapByteOrder;
    }

    /**
     * `MessageIStream(stream, size)`: a stream over the next bytes, which the parent skips; null where the source
     * throws.
     */
    method SubStream(size: nat) returns (sub: MessageIStream?)
      requires Valid()
      modifies this
      ensures sub == null <==> old(offset) + size > |view|
      ensures sub != null ==>
        && fresh(sub) && sub.Valid() && sub.view == view[..old(offset) + size] && sub.offset == old(offset)
        && sub.DataOrder() == DataOrder()
        && Valid() && offset == old(offset) + size
    {
      if size > |data| {
        return null;
      }
      sub := new MessageIStream.At(view[..offset + size], data[..size], offset, host, swapByteOrder);
      data := data[size..];
      offset := offset + size;
    }

    method Skip(size: nat) returns (r: Outcome<()>)
      requires Valid()
      modifies this
      ensures r == if old(offset) + size <= |view| then Ok((), old(offset) + size) else Throw
      ensures r.Ok? ==> Valid() && offset == r.pos
    {
      if size > |data| {
        return Throw;
      }
      data := data[size..];
      offset := offset + size;
      return Ok((), offset);
    }

    method AlignTo(alignment: nat) returns (r: Outcome<()>)
      requires Valid() && alignment > 0
      modifies this
      ensures r == Align(alignment, view, old(offset))
      ensures r.Ok? ==> Valid() && offset == r.pos
    {
      if offset % alignment != 0 {
        r := Skip(alignment - offset % alignment);
      } else {
        r := Ok((), offset);
      }
    }

    method ReadOctet() returns (r: Outcome<byte>)
      requires Valid()
      modifies this
      ensures r == ReadByte(view, old(offset))
      ensures r.Ok? ==> Valid() && offset == r.pos
    {
      if |data| == 0 {
        return Throw;
      }
      var octet := data[0];
      offset := offset + 1;
      data := data[1..];
      return Ok(octet, offset);
    }

    /** `read(uint8_t*, size)` and `read(std::string&, size)`: the same bytes, the same error. */
    method ReadOctets(size: nat) returns (r: Outcome<bytes>)
      requires Valid()
      modifies this
      ensures r == ReadBytes(size, view, old(offset))
      ensures r.Ok? ==> Valid() && offset == r.pos
    {
      if size > |data| {
        return Throw;
      }
      var value := data[..size];
      assert value == view[offset..offset + size];
      data := data[size..];
      offset := offset + size;
      return Ok(value, offset);
    }

    /** `read<T>`: align, copy into a host integer, swap its bytes if asked to. */
    method ReadInteger(width: nat) returns (r: Outcome<nat>)
      requires Valid() && width > 0
      modifies this
      ensures r == ReadWord(DataOrder(), width, view, old(offset))
      ensures r.Ok? ==> Valid() && offset == r.pos
    {
      hide WordValue, Padding;
      var aligned := AlignTo(width);
      if aligned.IsFailure() {
        return Throw;
      }
      var octets := ReadOctets(width);
      if octets.IsFailure() {
        return Throw;
      }
      var value := WordValue(host, octets.value);
      if swapByteOrder {
        SwapReadsOtherOrder(host, octets.value);
        value := ByteSwap(value, width);
      }
      return Ok(value, offset);
    }

    /** `read(double*)`: no alignment, and the bytes are reversed before they are reinterpreted. */
    method ReadDoubleBits() returns (r: Outcome<nat>)
      requires Valid()
      modifies this
      ensures r == ReadDouble(DataOrder(), view, old(offset))
      ensures r.Ok? ==> Valid() && offset == r.pos
    {
      var octets := ReadOctets(8);
      if octets.IsFailure() {
        return Throw;
      }
      var image := if swapByteOrder then Reverse(octets.value) else octets.value;
      assert Reverse(Reverse(octets.value)) == octets.value;
      return Ok(WordValue(host, image), offset);
    }
  }

  // ----- unmarshalling

  method UnmarshallString(stream: MessageIStream) returns (r: Outcome<bytes>)
    requires stream.Valid()
    modifies stream
    ensures r == ReadString(stream.DataOrder(), stream.view, old(stream.offset))
    ensures r.Ok? ==> stream.Valid() && stream.offset == r.pos
  {
    hide ReadWord, ReadBytes, ReadByte;
    var size := stream.ReadInteger(4);
    if size.IsFailure() {
      return size.PropagateFailure();
    }
    var text := stream.ReadOctets(size.value);
    if text.IsFailure() {
      return text;
    }
    var nul := stream.ReadOctet();
    if nul.IsFailure() {
      return nul.PropagateFailure();
    }
    return Ok(text.value, stream.offset);
  }

  method UnmarshallSignature(stream: MessageIStream) returns (r: Outcome<bytes>)
    requires stream.Valid()
    modifies stream
    ensures r == ReadSignature(stream.view, old(stream.offset))
    ensures r.Ok? ==> stream.Valid() && stream.offset == r.pos
  {
    hide ReadBytes, ReadByte;
    var size := stream.ReadOctet();
    if size.IsFailure() {
      return size.PropagateFailure();
    }
    var text := stream.ReadOctets(size.value);
    if text.IsFailure() {
      return text;
    }
    var nul := stream.ReadOctet();
    if nul.IsFailure() {
      return nul.PropagateFailure();
    }
    return Ok(text.value, stream.offset);
  }

  method UnmarshallBasic(code: byte, stream: MessageIStream) returns (r: Outcome<BasicValue>)
    requires stream.Valid() && IsBasic(code)
    modifies stream
    ensures r == ReadBasic(stream.DataOrder(), code, stream.view, old(stream.offset))
    ensures r.Ok? ==> stream.Valid() && stream.offset == r.pos
  {
    hide ReadWord, ReadDouble, ReadString, ReadSignature, ReadByte, IsBasic;
    if code == CODE_BYTE {
      var b := stream.ReadOctet();
      r := if b.Ok? then Ok(Byte(b.value), b.pos) else b.PropagateFailure();
    } else if code == CODE_BOOLEAN {
      var w := stream.ReadInteger(4);
      r := if w.Ok? then Ok(Boolean(w.value), w.pos) else w.PropagateFailure();
    } else if code == CODE_DOUBLE {
      var w := stream.ReadDoubleBits();
      r := if w.Ok? then Ok(Double(w.value), w.pos) else w.PropagateFailure();
    } else if code == CODE_STRING {
      var s := UnmarshallString(stream);
      r := if s.Ok? then Ok(String(s.value), s.pos) else s.PropagateFailure();
    } else if code == CODE_OBJECT_PATH {
      var s := UnmarshallString(stream);
      r := if s.Ok? then Ok(ObjectPath(s.value), s.pos) else s.PropagateFailure();
    } else if code == CODE_SIGNATURE {
      var s := UnmarshallSignature(stream);
      r := if s.Ok? then Ok(Signature(s.value), s.pos) else s.PropagateFailure();
    } else {
      var kind := KindOf(code);
      var w := stream.ReadInteger(kind.Width());
      r := if w.Ok? then Ok(Fixed(kind, w.value), w.pos) else w.PropagateFailure();
    }
  }

  /** `unmarshallData` on a value just created for the signature. */
  method UnmarshallData(signature: bytes, stream: MessageIStream) returns (r: Outcome<Value>)
    requires stream.Valid()
    modifies stream
    ensures r == Unmarshall(stream.DataOrder(), signature, stream.view, old(stream.offset))
    ensures r.Ok? ==> stream.Valid() && stream.offset == r.pos
    decreases |stream.view| - stream.offset, |signature|, Opens(signature), 3, 0
  {
    hide ReadBasic, UnmarshallVariant, UnmarshallArray, UnmarshallStruct, UnmarshallEntry, IsBasic;
    var code := At(signature, 0);
    if IsBasic(code) {
      var b := UnmarshallBasic(code, stream);
      r := if b.Ok? then Ok(Plain(b.value), b.pos) else b.PropagateFailure();
    } else if code == CODE_VARIANT {
      r := UnmarshallVariantFrom(stream);
    } else if code == CODE_ARRAY {
      r := UnmarshallArrayFrom(signature, stream);
    } else if code == OPEN_STRUCT {
      r := UnmarshallStructFrom(signature, stream);
    } else if code == OPEN_ENTRY {
      r := UnmarshallEntryFrom(signature, stream);
    } else {
      r := Ok(Empty, stream.offset);
    }
  }

  method UnmarshallVariantFrom(stream: MessageIStream) returns (r: Outcome<Value>)
    requires stream.Valid()
    modifies stream
    ensures r == UnmarshallVariant(stream.DataOrder(), stream.view, old(stream.offset))
    ensures r.Ok? ==> stream.Valid() && stream.offset == r.pos
    decreases |stream.view| - stream.offset, 0, 0, 0, 0
  {
    hide ReadSignature, Unmarshall;
    var contained := UnmarshallSignature(stream);
    if contained.IsFailure() {
      return contained.PropagateFailure();
    }
    var v := UnmarshallData(contained.value, stream);
    r := if v.Ok? then Ok(Variant(contained.value, v.value), v.pos) else v;
  }

  /** What the elements read so far and the outcome of the rest make together. */
  ghost function Prepend(done: seq<Value>, rest: Outcome<seq<Value>>): Outcome<seq<Value>> {
    if rest.Ok? then Ok(done + rest.value, rest.pos) else rest
  }

  lemma PrependNothing(rest: Outcome<seq<Value>>)
    ensures Prepend([], rest) == rest
  {
    if rest.Ok? {
      assert [] + rest.value == rest.value;
    }
  }

  /** `Array::unmarshall`: the loop runs until its sub-stream is empty. */
  method UnmarshallArrayFrom(signature: bytes, stream: MessageIStream) returns (r: Outcome<Value>)
    requires stream.Valid()
    modifies stream
    ensures r == UnmarshallArray(stream.DataOrder(), signature, stream.view, old(stream.offset))
    ensures r.Ok? ==> stream.Valid() && stream.offset == r.pos
    decreases |stream.view| - stream.offset, |signature|, Opens(signature), 2, 0
  {
    hide ReadWord, Unmarshall, UnmarshallElements, Padding, Alignment;
    var size := stream.ReadInteger(4);
    if size.IsFailure() {
      return size.PropagateFailure();
    }
    var element := ExtractSignature(signature, 1);
    var aligned := stream.AlignTo(Alignment(element));
    if aligned.IsFailure() {
      return aligned.PropagateFailure();
    }
    ghost var start := stream.offset;
    var arrayStream := stream.SubStream(size.value);
    if arrayStream == null {
      return Throw;
    }
    assert ReadBytes(size.value, stream.view, start).Ok?;
    var contents := UnmarshallContents(element, arrayStream);
    if contents.IsFailure() {
      return contents.PropagateFailure();
    }
    return Ok(Array(signature, contents.value), stream.offset);
  }

  method UnmarshallContents(element: bytes, stream: MessageIStream) returns (r: Outcome<seq<Value>>)
    requires stream.Valid()
    modifies stream
    ensures r == UnmarshallElements(stream.DataOrder(), element, stream.view, old(stream.offset))
    decreases |stream.view| - stream.offset, |element|, Opens(element), 4, 0
  {
    hide Unmarshall;
    var contents: seq<Value> := [];
    PrependNothing(UnmarshallElements(stream.DataOrder(), element, stream.view, stream.offset));
    while |stream.data| != 0
      invariant stream.Valid() && old(stream.offset) <= stream.offset
      invariant UnmarshallElements(stream.DataOrder(), element, stream.view, old(stream.offset))
             == Prepend(contents, UnmarshallElements(stream.DataOrder(), element, stream.view, stream.offset))
      decreases |stream.view| - stream.offset
    {
      var before := stream.offset;
      var v := UnmarshallData(element, stream);
      if v.IsFailure() {
        return v.PropagateFailure();
      }
      if stream.offset == before {
        return Outside;    // no byte was read: the source never leaves this loop
      }
      ghost var rest := UnmarshallElements(stream.DataOrder(), element, stream.view, stream.offset);
      if rest.Ok? {
        assert contents + ([v.value] + rest.value) == (contents + [v.value]) + rest.value;
      }
      contents := contents + [v.value];
    }
    assert stream.offset == |stream.view|;
    assert contents + [] == contents;
    return Ok(contents, stream.offset);
  }

  /** `Struct::unmarshall`. */
  method UnmarshallStructFrom(signature: bytes, stream: MessageIStream) returns (r: Outcome<Value>)
    requires stream.Valid() && At(signature, 0) == OPEN_STRUCT
    modifies stream
    ensures r == UnmarshallStruct(stream.DataOrder(), signature, stream.view, old(stream.offset))
    ensures r.Ok? ==> stream.Valid() && stream.offset == r.pos
    decreases |stream.view| - stream.offset, |signature|, Opens(signature), 2, 0
  {
    hide UnmarshallFields, Padding;
    var aligned := stream.AlignTo(8);
    if aligned.IsFailure() {
      return aligned.PropagateFailure();
    }
    var fields := UnmarshallFieldsFrom(signature, stream);
    r := if fields.Ok? then Ok(Struct(fields.value), fields.pos) else fields.PropagateFailure();
  }

  /** The do-while loop: its first turn is always taken. */
  method UnmarshallFieldsFrom(signature: bytes, stream: MessageIStream) returns (r: Outcome<seq<Value>>)
    requires stream.Valid() && At(signature, 0) == OPEN_STRUCT
    modifies stream
    ensures r == UnmarshallFields(stream.DataOrder(), signature, 1, stream.view, old(stream.offset))
    ensures r.Ok? ==> stream.Valid() && stream.offset == r.pos
    decreases |stream.view| - stream.offset, |signature|, Opens(signature), 1, 0
  {
    hide Unmarshall, Extract;
    var signatureIndex := 1;    // skip the opening bracket
    var fields: seq<Value> := [];
    var more := true;
    PrependNothing(UnmarshallFields(stream.DataOrder(), signature, 1, stream.view, stream.offset));
    while more
      invariant more ==> stream.Valid() && old(stream.offset) <= stream.offset && signatureIndex >= 1
      invariant more ==>
        UnmarshallFields(stream.DataOrder(), signature, 1, stream.view, old(stream.offset))
        == Prepend(fields, UnmarshallFields(stream.DataOrder(), signature, signatureIndex, stream.view, stream.offset))
      invariant !more ==>
        && stream.Valid()
        && UnmarshallFields(stream.DataOrder(), signature, 1, stream.view, old(stream.offset))
          == Ok(fields, stream.offset)
      decreases more, |signature| - signatureIndex
    {
      var one := ExtractSignature(signature, signatureIndex);
      if one == signature {
        return Outside;    // the struct is its own first field: the source goes on inside it for ever
      }
      FieldShrinks(signature, signatureIndex);
      var v := UnmarshallData(one, stream);
      if v.IsFailure() {
        return v.PropagateFailure();
      }
      more := signatureIndex + |one| < |signature| - 1;
      if more {
        ghost var rest := UnmarshallFields(stream.DataOrder(), signature, signatureIndex + |one|, stream.view,
            stream.offset);
        if rest.Ok? {
          assert fields + ([v.value] + rest.value) == (fields + [v.value]) + rest.value;
        }
      }
      fields := fields + [v.value];
      signatureIndex := signatureIndex + |one|;
    }
    return Ok(fields, stream.offset);
  }

  /** `DictEntry::unmarshall`. */
  method UnmarshallEntryFrom(signature: bytes, stream: MessageIStream) returns (r: Outcome<Value>)
    requires stream.Valid()
    modifies stream
    ensures r == UnmarshallEntry(stream.DataOrder(), signature, stream.view, old(stream.offset))
    ensures r.Ok? ==> stream.Valid() && stream.offset == r.pos
    decreases |stream.view| - stream.offset, |signature|, Opens(signature), 2, 0
  {
    hide Unmarshall, Padding, Extract, IsBasic;
    var aligned := stream.AlignTo(8);
    if aligned.IsFailure() {
      return aligned.PropagateFailure();
    }
    if |signature| < 2 || !IsValidBasicType(signature[1]) {
      return Throw;
    }
    var element := ExtractSignature(signature, 2);
    var key := UnmarshallData([signature[1]], stream);
    if key.IsFailure() {
      return key;
    }
    var v := UnmarshallData(element, stream);
    r := if v.Ok? then Ok(DictEntry(signature, key.value, v.value), v.pos) else v;
  }
}
