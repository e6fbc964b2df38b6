/**
 * Layout as a matter of shape. A single zero double can survive anywhere by luck; a shape of value survives with every
 * double in it exactly when it is laid out soundly.
 */
module Shapes {
  import opened Octets
  import opened Signatures
  import opened Values
  import opened Marshalling
  import opened Unmarshalling
  import opened Layout

  /** v with every double in it set to the same non-zero bits: what is left is its shape. */
  function Shape(v: Value): Value {
    match v
    case Empty => Empty
    case Plain(basic) => if basic.Double? then Plain(Double(1)) else v
    case Array(declared, contents) => Array(declared, ShapeAll(contents))
    case Struct(fields) => Struct(ShapeAll(fields))
    case DictEntry(declared, key, value) => DictEntry(declared, Shape(key), Shape(value))
    case Variant(contained, value) => Variant(contained, Shape(value))
  }

  function ShapeAll(vs: seq<Value>): (ss: seq<Value>)
    ensures |ss| == |vs|
  {
    if vs == [] then [] else [Shape(vs[0])] + ShapeAll(vs[1..])
  }

  lemma {:induction false} ShapeSignature(v: Value)
    ensures SignatureOf(Shape(v)) == SignatureOf(v)
    decreases v, 0
  {
    match v
    case Empty =>
    case Plain(_) =>
    case Array(_, contents) =>
      if contents != [] {
        ShapeSignature(contents[0]);
      }
    case Struct(fields) => ShapeSignatures(fields);
    case DictEntry(_, _, _) =>
    case Variant(_, _) =>
  }

  lemma {:induction false} ShapeSignatures(vs: seq<Value>)
    ensures SignatureOfAll(ShapeAll(vs)) == SignatureOfAll(vs)
    decreases vs, 1
  {
    hide Shape, SignatureOf;
    if vs != [] {
      ShapeSignature(vs[0]);
      ShapeSignatures(vs[1..]);
    }
  }

  // ----- sizes

  lemma {:induction false} ShapeSize(v: Value, pos: nat)
    ensures Size(Shape(v), pos) == Size(v, pos)
    decreases v, 1
  {
    hide Padding, MarshallArray, MarshallPair, MarshallAll;
    match v
    case Empty =>
    case Plain(_) =>
    case Array(_, _) => ShapeArraySize(v, pos);
    case Struct(fields) => ShapeSizes(fields, pos + Padding(8, pos));
    case DictEntry(_, _, _) => ShapePairSize(v, pos + Padding(8, pos));
    case Variant(contained, value) => ShapeSize(value, pos + |PutSignature(contained)|);
  }

  lemma {:induction false} ShapeArraySize(v: Value, pos: nat)
    requires v.Array?
    ensures |MarshallArray(Little, Shape(v), pos)| == |MarshallArray(Little, v, pos)|
    decreases v, 0
  {
    hide Padding, ContentsStart, Marshall, MarshallAll, SignatureOf;
    ShapeSignature(v);
    ShapeSizes(v.contents, ContentsStart(SignatureOf(v), pos));
  }

  lemma {:induction false} ShapePairSize(v: Value, pos: nat)
    requires v.DictEntry?
    ensures |MarshallPair(Little, Shape(v), pos)| == |MarshallPair(Little, v, pos)|
    decreases v, 0
  {
    hide Marshall;
    ShapeSize(v.key, pos);
    ShapeSize(v.value, pos + Size(v.key, pos));
  }

  lemma {:induction false} ShapeSizes(vs: seq<Value>, pos: nat)
    ensures SizeAll(ShapeAll(vs), pos) == SizeAll(vs, pos)
    decreases vs, 2
  {
    hide Marshall, Shape;
    if vs != [] {
      ShapeSize(vs[0], pos);
      ShapeSizes(vs[1..], pos + Size(vs[0], pos));
    }
  }

  // ----- types and layout

  lemma {:induction false} ShapeType(v: Value, t: Type)
    requires HasType(v, t)
    ensures HasType(Shape(v), t)
    decreases v, 1
  {
    hide Print;
    match t
    case Basic(_) =>
    case AnyVariant =>
      var inner :| WellFormed(inner) && HasType(v.value, inner);
      ShapeType(v.value, inner);
      ShapeSignature(v.value);
    case ArrayOf(e) => ShapeElementTypes(v.contents, e);
    case StructOf(ts) => ShapeTypes(v.fields, ts);
    case EntryOf(_, e) => ShapeType(v.value, e);
  }

  lemma {:induction false} ShapeElementTypes(vs: seq<Value>, t: Type)
    requires AllHaveType(vs, t)
    ensures AllHaveType(ShapeAll(vs), t)
    decreases vs, 2
  {
    hide HasType, Shape;
    if vs != [] {
      ShapeType(vs[0], t);
      ShapeElementTypes(vs[1..], t);
    }
  }

  lemma {:induction false} ShapeTypes(vs: seq<Value>, ts: seq<Type>)
    requires HaveTypes(vs, ts)
    ensures HaveTypes(ShapeAll(vs), ts)
    decreases vs, 2
  {
    hide HasType, Shape;
    if vs != [] {
      ShapeType(vs[0], ts[0]);
      ShapeTypes(vs[1..], ts[1..]);
    }
  }

  /** Where things lie depends on the shape only, and a shape has no zero double. */
  lemma {:induction false} ShapeLayout(v: Value, pos: nat)
    ensures LayoutOk(Shape(v), pos) <==> LayoutOk(v, pos)
    ensures Fits(Shape(v), pos) <==> Fits(v, pos)
    ensures ZerosAligned(Shape(v), pos)
    decreases v, 1
  {
    hide Padding, ContentsStart, Size, SizeAll, SignatureOf, LayoutAllOk, FitsAll, ZerosAllAligned;
    match v
    case Empty =>
    case Plain(_) =>
    case Array(_, contents) =>
      ShapeSignature(v);
      ShapeSizes(contents, ContentsStart(SignatureOf(v), pos));
      ShapeLayouts(contents, ContentsStart(SignatureOf(v), pos));
    case Struct(fields) => ShapeLayouts(fields, pos + Padding(8, pos));
    case DictEntry(_, key, value) =>
      var p := pos + Padding(8, pos);
      ShapeLayout(key, p);
      ShapeSize(key, p);
      ShapeLayout(value, p + Size(key, p));
    case Variant(contained, value) => ShapeLayout(value, pos + |contained| + 2);
  }

  lemma {:induction false} ShapeLayouts(vs: seq<Value>, pos: nat)
    ensures LayoutAllOk(ShapeAll(vs), pos) <==> LayoutAllOk(vs, pos)
    ensures FitsAll(ShapeAll(vs), pos) <==> FitsAll(vs, pos)
    ensures ZerosAllAligned(ShapeAll(vs), pos)
    decreases vs, 2
  {
    hide Size, Shape, LayoutOk, Fits, ZerosAligned;
    if vs != [] {
      ShapeLayout(vs[0], pos);
      ShapeSize(vs[0], pos);
      ShapeLayouts(vs[1..], pos + Size(vs[0], pos));
    }
  }

  // ----- the exact condition

  /** Wherever its bytes stand at pos, v is read back from its own signature, value and extent. */
  ghost predicate Survives(o: Order, v: Value, pos: nat) {
    forall view :: Holds(view, pos, Marshall(o, v, pos)) ==>
      Unmarshall(o, SignatureOf(v), view, pos) == Ok(Normal(v), pos + Size(v, pos))
  }

  /** A value's layout is sound exactly when every value of its shape survives, whatever the doubles in it. */
  lemma ShapeSurvivesExactlyWhenLaidOut(o: Order, v: Value, t: Type, pos: nat)
    requires WellFormed(t) && HasType(v, t) && Fits(v, pos)
    ensures LayoutOk(v, pos) <==> forall w :: HasType(w, t) && Shape(w) == Shape(v) ==> Survives(o, w, pos)
  {
    hide WellFormed, HasType, Fits, LayoutOk, Unmarshall, Marshall, SignatureOf, Normal, Shape, Survives, ZerosAligned,
      Size;
    ShapeLayout(v, pos);
    if LayoutOk(v, pos) {
      forall w | HasType(w, t) && Shape(w) == Shape(v)
        ensures Survives(o, w, pos)
      {
        ShapeLayout(w, pos);
        LaidOutSurvives(o, w, t, pos);
      }
    } else {
      ShapeType(v, t);
      ShapeOfShape(v);
      ShapeIsLost(o, Shape(v), t, pos);
    }
  }

  lemma LaidOutSurvives(o: Order, v: Value, t: Type, pos: nat)
    requires WellFormed(t) && HasType(v, t) && Fits(v, pos) && LayoutOk(v, pos)
    ensures Survives(o, v, pos)
  {
    hide WellFormed, HasType, Fits, LayoutOk, Unmarshall, Marshall, SignatureOf, Normal, Size;
    forall view | Holds(view, pos, Marshall(o, v, pos))
      ensures Unmarshall(o, SignatureOf(v), view, pos) == Ok(Normal(v), pos + Size(v, pos))
    {
      ValueRoundTrip(o, v, t, view, pos);
    }
  }

  lemma ShapeIsLost(o: Order, v: Value, t: Type, pos: nat)
    requires WellFormed(t) && HasType(v, t) && Fits(v, pos) && ZerosAligned(v, pos) && !LayoutOk(v, pos)
    ensures !Survives(o, v, pos)
  {
    hide WellFormed, HasType, Fits, LayoutOk, Unmarshall, Marshall, SignatureOf, Normal, Size, ZerosAligned;
    var view := Zeros(pos) + Marshall(o, v, pos);
    assert Holds(view, pos, Marshall(o, v, pos));
    RoundTripExactlyWhenLaidOut(o, v, t, view, pos);
  }

  lemma {:induction false} ShapeOfShape(v: Value)
    ensures Shape(Shape(v)) == Shape(v)
    decreases v, 0
  {
    match v
    case Empty =>
    case Plain(_) =>
    case Array(_, contents) => ShapesOfShapes(contents);
    case Struct(fields) => ShapesOfShapes(fields);
    case DictEntry(_, key, value) =>
      ShapeOfShape(key);
      ShapeOfShape(value);
    case Variant(_, value) => ShapeOfShape(value);
  }

  lemma {:induction false} ShapesOfShapes(vs: seq<Value>)
    ensures ShapeAll(ShapeAll(vs)) == ShapeAll(vs)
    decreases vs, 1
  {
    hide Shape;
    if vs != [] {
      ShapeOfShape(vs[0]);
      ShapesOfShapes(vs[1..]);
    }
  }
}
