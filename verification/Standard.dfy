/**
 * Marshalling as the standard has it, in the section "Marshaling (Wire Format)" of the D-Bus Specification, and exactly
 * which values this library marshals to the same bytes. It differs in two places, at every depth: a variant aligns to
 * eight bytes where the standard has one, and the length of an array that starts off a 4-byte boundary is misplaced.
 */
module Standard {
  import opened Octets
  import opened Signatures
  import opened Values
  import opened Marshalling

  /** The standard's table of alignments, by the letter a type begins with. A variant can stand on any byte. */
  function StandardAlignment(signature: bytes): (a: nat)
    ensures IsAlignment(a)
  {
    match At(signature, 0) as char
    case 'n' => 2
    case 'q' => 2
    case 'b' => 4
    case 'i' => 4
    case 'u' => 4
    case 's' => 4
    case 'o' => 4
    case 'a' => 4
    case 'x' => 8
    case 't' => 8
    case 'd' => 8
    case '(' => 8
    case '{' => 8
    case _ => 1
  }

  /** The library has the same table but for variants, which it aligns to eight. */
  lemma AlignmentsDifferForVariants(signature: bytes)
    ensures Alignment(signature) == if At(signature, 0) == 'v' as int then 8 else StandardAlignment(signature)
  {}

  function AfterLength(pos: nat): nat {
    pos + Padding(4, pos) + 4
  }

  /** Where the contents of an array start: after the aligned length word, aligned for the element type. */
  function StandardStart(signature: bytes, pos: nat): (start: nat)
    ensures AfterLength(pos) <= start
  {
    AfterLength(pos) + Padding(StandardAlignment(Extract(signature, 1)), AfterLength(pos))
  }

  function StandardMarshall(o: Order, v: Value, pos: nat): bytes
    decreases v, 1
  {
    match v
    case Empty => []
    case Plain(basic) => MarshallBasic(o, basic, pos)
    case Array(_, _) => StandardArray(o, v, pos)
    case Struct(fields) => Zeros(Padding(8, pos)) + StandardAll(o, fields, pos + Padding(8, pos))
    case DictEntry(_, _, _) => Zeros(Padding(8, pos)) + StandardPair(o, v, pos + Padding(8, pos))
    case Variant(contained, value) =>
      PutSignature(contained) + StandardMarshall(o, value, pos + |PutSignature(contained)|)
  }

  function StandardArray(o: Order, v: Value, pos: nat): bytes
    requires v.Array?
    decreases v, 0
  {
    var start := StandardStart(SignatureOf(v), pos);
    var body := StandardAll(o, v.contents, start);
    Zeros(Padding(4, pos)) + Word(o, |body| % WORD_LIMIT, 4) + Zeros(start - AfterLength(pos)) + body
  }

  function StandardPair(o: Order, v: Value, pos: nat): bytes
    requires v.DictEntry?
    decreases v, 0
  {
    var first := StandardMarshall(o, v.key, pos);
    first + StandardMarshall(o, v.value, pos + |first|)
  }

  function StandardAll(o: Order, vs: seq<Value>, pos: nat): bytes
    decreases vs, 2
  {
    if vs == [] then []
    else
      var first := StandardMarshall(o, vs[0], pos);
      first + StandardAll(o, vs[1..], pos + |first|)
  }

  // ----- where the two agree

  /** The contents of an array start where the standard has them start. */
  predicate StartsAlike(v: Value, pos: nat) {
    ContentsStart(SignatureOf(v), pos) == StandardStart(SignatureOf(v), pos)
  }

  /**
   * At every depth, arrays start their contents where the standard does, and those with contents start at a multiple
   * of four.
   */
  predicate Conforms(v: Value, pos: nat)
    decreases v, 1
  {
    match v
    case Empty => true
    case Plain(_) => true
    case Array(_, contents) =>
      && StartsAlike(v, pos) && (contents == [] || pos % 4 == 0)
      && ConformsAll(contents, ContentsStart(SignatureOf(v), pos))
    case Struct(fields) => ConformsAll(fields, pos + Padding(8, pos))
    case DictEntry(_, key, value) =>
      var p := pos + Padding(8, pos);
      Conforms(key, p) && Conforms(value, p + Size(key, p))
    case Variant(contained, value) => Conforms(value, pos + |contained| + 2)
  }

  predicate ConformsAll(vs: seq<Value>, pos: nat)
    decreases vs, 2
  {
    vs == [] || (Conforms(vs[0], pos) && ConformsAll(vs[1..], pos + Size(vs[0], pos)))
  }

  /** The empty arrays, at least, are as long as the standard has them. */
  predicate EmptyConforms(v: Value, pos: nat)
    decreases v, 1
  {
    match v
    case Empty => true
    case Plain(_) => true
    case Array(_, contents) =>
      && (contents == [] ==> StartsAlike(v, pos))
      && EmptyConformsAll(contents, ContentsStart(SignatureOf(v), pos))
    case Struct(fields) => EmptyConformsAll(fields, pos + Padding(8, pos))
    case DictEntry(_, key, value) =>
      var p := pos + Padding(8, pos);
      EmptyConforms(key, p) && EmptyConforms(value, p + Size(key, p))
    case Variant(contained, value) => EmptyConforms(value, pos + |contained| + 2)
  }

  predicate EmptyConformsAll(vs: seq<Value>, pos: nat)
    decreases vs, 2
  {
    vs == [] || (EmptyConforms(vs[0], pos) && EmptyConformsAll(vs[1..], pos + Size(vs[0], pos)))
  }

  /** A conforming value has the standard's bytes. */
  lemma {:induction false} ConformingAgrees(o: Order, v: Value, pos: nat)
    requires Conforms(v, pos)
    ensures StandardMarshall(o, v, pos) == Marshall(o, v, pos)
    decreases v, 1
  {
    hide Padding, MarshallArray, MarshallPair, MarshallAll, MarshallBasic, StandardArray, StandardPair, StandardAll,
      Size;
    match v
    case Empty =>
    case Plain(_) =>
    case Array(_, _) => ConformingArrayAgrees(o, v, pos);
    case Struct(fields) => ConformingAllAgree(o, fields, pos + Padding(8, pos));
    case DictEntry(_, _, _) => ConformingPairAgrees(o, v, pos + Padding(8, pos));
    case Variant(contained, value) => ConformingAgrees(o, value, pos + |PutSignature(contained)|);
  }

  lemma {:induction false} ConformingArrayAgrees(o: Order, v: Value, pos: nat)
    requires v.Array? && StartsAlike(v, pos) && (v.contents == [] || pos % 4 == 0)
    requires ConformsAll(v.contents, ContentsStart(SignatureOf(v), pos))
    ensures StandardArray(o, v, pos) == MarshallArray(o, v, pos)
    decreases v, 0
  {
    hide Padding, Word, ContentsStart, StandardStart, SignatureOf, MarshallAll, StandardAll;
    var start := ContentsStart(SignatureOf(v), pos);
    var pad, gap := Padding(4, pos), start - AfterLength(pos);
    ConformingAllAgree(o, v.contents, start);
    PaddingFacts(4, pos);
    if v.contents == [] {
      NothingMarshalled(o, start);
      ZeroWord(o, 4);
      ZerosAdd(pad, 4);
      ZerosAdd(pad + 4, gap);
      ZerosAdd(4, pad + gap);
    } else {
      assert Zeros(0) + Word(o, |MarshallAll(o, v.contents, start)| % WORD_LIMIT, 4)
        == Word(o, |MarshallAll(o, v.contents, start)| % WORD_LIMIT, 4);
    }
  }

  lemma NothingMarshalled(o: Order, pos: nat)
    ensures MarshallAll(o, [], pos) == []
  {}

  lemma ZerosAdd(a: nat, b: nat)
    ensures Zeros(a) + Zeros(b) == Zeros(a + b)
  {}

  lemma {:induction false} ConformingPairAgrees(o: Order, v: Value, pos: nat)
    requires v.DictEntry? && Conforms(v.key, pos) && Conforms(v.value, pos + Size(v.key, pos))
    ensures StandardPair(o, v, pos) == MarshallPair(o, v, pos)
    decreases v, 0
  {
    hide Marshall, StandardMarshall, Conforms, Size;
    ConformingAgrees(o, v.key, pos);
    SizeAnyOrder(o, v.key, pos);
    ConformingAgrees(o, v.value, pos + Size(v.key, pos));
  }

  lemma {:induction false} ConformingAllAgree(o: Order, vs: seq<Value>, pos: nat)
    requires ConformsAll(vs, pos)
    ensures StandardAll(o, vs, pos) == MarshallAll(o, vs, pos)
    decreases vs, 2
  {
    hide Marshall, StandardMarshall, Conforms, Size;
    if vs != [] {
      ConformingAgrees(o, vs[0], pos);
      SizeAnyOrder(o, vs[0], pos);
      ConformingAllAgree(o, vs[1..], pos + Size(vs[0], pos));
    }
  }

  // ----- where they do not

  /** The two differ at a place both have, so they still do whatever is appended to them. */
  predicate Clash(a: bytes, b: bytes) {
    exists i :: 0 <= i < |a| && i < |b| && a[i] != b[i]
  }

  lemma ClashAppend(a: bytes, b: bytes, x: bytes, y: bytes)
    requires Clash(a, b)
    ensures Clash(a + x, b + y)
  {
    var i :| 0 <= i < |a| && i < |b| && a[i] != b[i];
    assert (a + x)[i] == a[i] && (b + y)[i] == b[i];
  }

  lemma ClashBehind(x: bytes, y: bytes, a: bytes, b: bytes)
    requires |x| == |y| && Clash(a, b)
    ensures Clash(x + a, y + b)
  {
    var i :| 0 <= i < |a| && i < |b| && a[i] != b[i];
    assert (x + a)[|x| + i] == a[i] && (y + b)[|x| + i] == b[i];
  }

  lemma DifferentClash(a: bytes, b: bytes)
    requires |a| == |b| && a != b
    ensures Clash(a, b)
  {}

  /** A well-formed value in which only arrays with contents fail to conform has other bytes than the standard's. */
  lemma {:induction false} NonconformingClashes(o: Order, v: Value, t: Type, pos: nat)
    requires WellFormed(t) && HasType(v, t) && Fits(v, pos) && EmptyConforms(v, pos) && !Conforms(v, pos)
    ensures Clash(Marshall(o, v, pos), StandardMarshall(o, v, pos))
    decreases v, 1
  {
    hide Padding, MarshallArray, MarshallPair, MarshallAll, MarshallBasic, StandardArray, StandardPair, StandardAll,
      Size, Clash, Print, ContentsStart, StandardStart, SignatureOf;
    match t
    case Basic(_) =>
    case AnyVariant =>
      var inner :| WellFormed(inner) && HasType(v.value, inner);
      var p := pos + |PutSignature(v.contained)|;
      NonconformingClashes(o, v.value, inner, p);
      ClashBehind(PutSignature(v.contained), PutSignature(v.contained), Marshall(o, v.value, p),
        StandardMarshall(o, v.value, p));
    case ArrayOf(_) => ArrayClashes(o, v, t, pos);
    case StructOf(ts) =>
      var p := pos + Padding(8, pos);
      AllClash(o, v.fields, ts, p);
      ClashBehind(Zeros(Padding(8, pos)), Zeros(Padding(8, pos)), MarshallAll(o, v.fields, p),
        StandardAll(o, v.fields, p));
    case EntryOf(_, e) =>
      var p := pos + Padding(8, pos);
      PairClashes(o, v, e, p);
      ClashBehind(Zeros(Padding(8, pos)), Zeros(Padding(8, pos)), MarshallPair(o, v, p), StandardPair(o, v, p));
  }

  lemma {:induction false} PairClashes(o: Order, v: Value, e: Type, pos: nat)
    requires v.DictEntry? && v.key.Plain? && WellFormed(e) && HasType(v.value, e)
    requires var q := pos + Size(v.key, pos);
             Fits(v.value, q) && EmptyConforms(v.value, q) && !Conforms(v.value, q)
    ensures Clash(MarshallPair(o, v, pos), StandardPair(o, v, pos))
    decreases v, 0
  {
    hide Clash, Conforms, EmptyConforms, Fits, HasType, WellFormed, Size, MarshallBasic;
    var q := pos + Size(v.key, pos);
    SizeAnyOrder(o, v.key, pos);
    assert StandardMarshall(o, v.key, pos) == Marshall(o, v.key, pos);
    NonconformingClashes(o, v.value, e, q);
    ClashBehind(Marshall(o, v.key, pos), Marshall(o, v.key, pos), Marshall(o, v.value, q),
      StandardMarshall(o, v.value, q));
  }

  lemma {:induction false} AllClash(o: Order, vs: seq<Value>, ts: seq<Type>, pos: nat)
    requires AllWellFormed(ts) && HaveTypes(vs, ts) && FitsAll(vs, pos) && EmptyConformsAll(vs, pos) &&
      !ConformsAll(vs, pos)
    ensures Clash(MarshallAll(o, vs, pos), StandardAll(o, vs, pos))
    decreases vs, 2
  {
    hide Clash, Conforms, EmptyConforms, Fits, HasType, WellFormed, Size, Marshall, StandardMarshall;
    FirstClashesOrAgrees(o, vs[0], ts[0], pos);
    var next := pos + Size(vs[0], pos);
    if Conforms(vs[0], pos) {
      AllClash(o, vs[1..], ts[1..], next);
    }
    ListClashes(o, vs, pos);
  }

  lemma {:induction false} ElementsClash(o: Order, vs: seq<Value>, e: Type, pos: nat)
    requires WellFormed(e) && AllHaveType(vs, e) && FitsAll(vs, pos) && EmptyConformsAll(vs, pos) &&
      !ConformsAll(vs, pos)
    ensures Clash(MarshallAll(o, vs, pos), StandardAll(o, vs, pos))
    decreases vs, 2
  {
    hide Clash, Conforms, EmptyConforms, Fits, HasType, WellFormed, Size, Marshall, StandardMarshall;
    FirstClashesOrAgrees(o, vs[0], e, pos);
    var next := pos + Size(vs[0], pos);
    if Conforms(vs[0], pos) {
      ElementsClash(o, vs[1..], e, next);
    }
    ListClashes(o, vs, pos);
  }

  lemma {:induction false} FirstClashesOrAgrees(o: Order, v: Value, t: Type, pos: nat)
    requires WellFormed(t) && HasType(v, t) && Fits(v, pos) && EmptyConforms(v, pos)
    ensures if Conforms(v, pos) then StandardMarshall(o, v, pos) == Marshall(o, v, pos)
      else Clash(Marshall(o, v, pos), StandardMarshall(o, v, pos))
    decreases v, 2
  {
    hide Clash, Conforms, EmptyConforms, Fits, HasType, WellFormed, Marshall, StandardMarshall;
    if Conforms(v, pos) {
      ConformingAgrees(o, v, pos);
    } else {
      NonconformingClashes(o, v, t, pos);
    }
  }

  lemma ListClashes(o: Order, vs: seq<Value>, pos: nat)
    requires vs != []
    requires var mine, theirs := Marshall(o, vs[0], pos), StandardMarshall(o, vs[0], pos);
             var next := pos + Size(vs[0], pos);
             || Clash(mine, theirs)
             || (mine == theirs && Clash(MarshallAll(o, vs[1..], next), StandardAll(o, vs[1..], next)))
    ensures Clash(MarshallAll(o, vs, pos), StandardAll(o, vs, pos))
  {
    hide Clash, Size, Marshall, StandardMarshall;
    SizeAnyOrder(o, vs[0], pos);
    var mine, theirs := Marshall(o, vs[0], pos), StandardMarshall(o, vs[0], pos);
    var moreMine, moreTheirs := MarshallAll(o, vs[1..], pos + |mine|), StandardAll(o, vs[1..], pos + |theirs|);
    if Clash(mine, theirs) {
      ClashAppend(mine, theirs, moreMine, moreTheirs);
    } else {
      ClashBehind(mine, theirs, moreMine, moreTheirs);
    }
  }

  // ----- arrays that do not

  lemma {:induction false} ArrayClashes(o: Order, v: Value, t: Type, pos: nat)
    requires t.ArrayOf? && WellFormed(t) && HasType(v, t) && Fits(v, pos) && EmptyConforms(v, pos) && !Conforms(v, pos)
    ensures Clash(MarshallArray(o, v, pos), StandardArray(o, v, pos))
    decreases v, 0
  {
    hide MarshallArray, StandardArray, MarshallAll, StandardAll, Clash, ContentsStart, StandardStart, SignatureOf,
      StartsAlike, ConformsAll, EmptyConformsAll, FitsAll, AllHaveType, WellFormed, Print;
    var start := ContentsStart(SignatureOf(v), pos);
    if !StartsAlike(v, pos) {
      GapClashes(o, v, t, pos);
    } else if !ConformsAll(v.contents, start) {
      assert WellFormed(t.elem) by { ElementWellFormed(t); }
      ElementsClash(o, v.contents, t.elem, start);
      ContentsClash(o, v, pos);
    } else {
      ConformingAllAgree(o, v.contents, start);
      BodyCounts(o, v, t, pos);
      LengthClashes(o, v, pos);
    }
  }

  lemma ElementWellFormed(t: Type)
    requires t.ArrayOf? && WellFormed(t)
    ensures WellFormed(t.elem)
  {}

  lemma ContentsClash(o: Order, v: Value, pos: nat)
    requires v.Array? && StartsAlike(v, pos)
    requires var start := ContentsStart(SignatureOf(v), pos);
             Clash(MarshallAll(o, v.contents, start), StandardAll(o, v.contents, start))
    ensures Clash(MarshallArray(o, v, pos), StandardArray(o, v, pos))
  {
    hide MarshallAll, StandardAll, Clash, ContentsStart, StandardStart, SignatureOf, Word, Padding;
    var start := ContentsStart(SignatureOf(v), pos);
    var mine, theirs := MarshallAll(o, v.contents, start), StandardAll(o, v.contents, start);
    ClashBehind(Word(o, |mine| % WORD_LIMIT, 4) + Zeros(start - pos - 4),
      Zeros(Padding(4, pos)) + Word(o, |theirs| % WORD_LIMIT, 4) + Zeros(start - AfterLength(pos)), mine, theirs);
  }

  /** The contents take at least one byte, and no more than their length word can say. */
  lemma BodyCounts(o: Order, v: Value, t: Type, pos: nat)
    requires t.ArrayOf? && WellFormed(t) && HasType(v, t) && Fits(v, pos) && v.contents != []
    ensures 0 < |MarshallAll(o, v.contents, ContentsStart(SignatureOf(v), pos))| < WORD_LIMIT
  {
    var start := ContentsStart(SignatureOf(v), pos);
    assert HasType(v.contents[0], t.elem) && SizeAll(v.contents, start) < WORD_LIMIT;
    hide ContentsStart, SignatureOf, HasType, Fits, WellFormed, Marshall, FitsAll;
    SizeAllAnyOrder(o, v.contents, start);
    assert WellFormed(t.elem) by { ElementWellFormed(t); }
    TypedTakesBytes(o, v.contents[0], t.elem, start);
  }

  lemma {:induction false} TypedTakesBytes(o: Order, v: Value, t: Type, pos: nat)
    requires WellFormed(t) && HasType(v, t)
    ensures Marshall(o, v, pos) != []
    decreases v
  {
    hide Padding, Word, Print, ContentsStart, SignatureOf;
    match t
    case Basic(_) => BasicTakesBytes(o, v.basic, pos);
    case AnyVariant =>
    case ArrayOf(_) =>
    case StructOf(ts) => TypedTakesBytes(o, v.fields[0], ts[0], pos + Padding(8, pos));
    case EntryOf(_, _) =>
      BasicTakesBytes(o, v.key.basic, pos + Padding(8, pos));
      assert MarshallPair(o, v, pos + Padding(8, pos)) != [];
  }

  lemma BasicTakesBytes(o: Order, b: BasicValue, pos: nat)
    ensures MarshallBasic(o, b, pos) != []
  {
    hide Padding, Word;
  }

  /** A length that is patched into the padding is not where the standard has it. */
  lemma LengthClashes(o: Order, v: Value, pos: nat)
    requires v.Array? && StartsAlike(v, pos) && pos % 4 != 0
    requires var start := ContentsStart(SignatureOf(v), pos);
             && StandardAll(o, v.contents, start) == MarshallAll(o, v.contents, start)
             && 0 < |MarshallAll(o, v.contents, start)| < WORD_LIMIT
    ensures Clash(MarshallArray(o, v, pos), StandardArray(o, v, pos))
  {
    hide MarshallAll, StandardAll, Clash, ContentsStart, StandardStart, SignatureOf, Word, Padding, Zeros;
    var start := ContentsStart(SignatureOf(v), pos);
    var body := MarshallAll(o, v.contents, start);
    var w, pad, gap := Word(o, |body|, 4), Padding(4, pos), start - AfterLength(pos);
    PaddingFacts(4, pos);
    ShiftClashes(o, |body|, pad);
    ZerosAdd(pad, gap);
    ClashAppend(w + Zeros(pad), Zeros(pad) + w, Zeros(gap) + body, Zeros(gap) + body);
    assert w + Zeros(pad) + (Zeros(gap) + body) == w + (Zeros(pad) + Zeros(gap)) + body;
    assert Zeros(pad) + w + (Zeros(gap) + body) == Zeros(pad) + w + Zeros(gap) + body;
  }

  lemma ShiftClashes(o: Order, n: nat, pad: nat)
    requires 0 < n < WORD_LIMIT && 0 < pad < 4
    ensures Clash(Word(o, n, 4) + Zeros(pad), Zeros(pad) + Word(o, n, 4))
  {
    hide Word, Clash, Pow256, WordValue;
    var w := Word(o, n, 4);
    if w + Zeros(pad) == Zeros(pad) + w {
      assert w == (w + Zeros(pad))[..4] == (Zeros(pad) + w)[..4] == Zeros(pad) + w[..4 - pad];
      ShiftedWordIsZero(w, pad);
      ZeroWord(o, 4);
      WordLimit();
      WordRoundTrip(o, n, 4);
      WordRoundTrip(o, 0, 4);
    }
    DifferentClash(w + Zeros(pad), Zeros(pad) + w);
  }

  /**
   * Four bytes of padding the standard does not have stand where it has the first variant, which begins with a length.
   */
  lemma GapClashes(o: Order, v: Value, t: Type, pos: nat)
    requires t.ArrayOf? && WellFormed(t) && HasType(v, t) && v.contents != [] && !StartsAlike(v, pos)
    ensures Clash(MarshallArray(o, v, pos), StandardArray(o, v, pos))
  {
    var start, standard := ContentsStart(SignatureOf(v), pos), StandardStart(SignatureOf(v), pos);
    GapOfVariants(v, t, pos);
    assert HasType(v.contents[0], AnyVariant);
    hide HasType, ContentsStart, StandardStart, SignatureOf, Word, Padding, StandardMarshall, MarshallAll, StandardAll,
      Zeros;
    VariantBegins(o, v.contents[0], standard);
    StandardBegins(o, v.contents, standard);
    var mine, theirs := MarshallAll(o, v.contents, start), StandardAll(o, v.contents, standard);
    var front := Zeros(Padding(4, pos)) + Word(o, |theirs| % WORD_LIMIT, 4);
    GapShows(Word(o, |mine| % WORD_LIMIT, 4), start - pos - 4, mine, front, theirs);
    assert front + Zeros(standard - AfterLength(pos)) == front by { NoZeros(); }
  }

  lemma NoZeros()
    ensures Zeros(0) == []
  {}

  lemma GapShows(word: bytes, gap: nat, mine: bytes, front: bytes, theirs: bytes)
    requires |word| <= |front| < |word| + gap && theirs != [] && theirs[0] != 0
    ensures Clash(word + Zeros(gap) + mine, front + theirs)
  {
    var i := |front|;
    assert (word + Zeros(gap) + mine)[i] == Zeros(gap)[i - |word|] == 0;
    assert (front + theirs)[i] == theirs[0];
  }

  /** Only variants are aligned differently, and then by the four bytes from one multiple of four to the next. */
  lemma GapOfVariants(v: Value, t: Type, pos: nat)
    requires t.ArrayOf? && WellFormed(t) && HasType(v, t) && !StartsAlike(v, pos)
    ensures v.Array? && t.elem == AnyVariant
    ensures StandardStart(SignatureOf(v), pos) == AfterLength(pos) < ContentsStart(SignatureOf(v), pos)
  {
    hide HasType, SignatureOf, Padding;
    SignatureIsType(v, t);
    assert v.Array? by { ArraysAreArrays(v, t); }
    ElementText(t);
    OneIsAligned(AfterLength(pos));
  }

  /**
   * Contents of every other type start where the standard has them; variants do behind a length word that ends on an
   * 8-byte boundary.
   */
  lemma StartsAlikeExactly(v: Value, t: Type, pos: nat)
    requires t.ArrayOf? && WellFormed(t) && HasType(v, t)
    ensures t.elem != AnyVariant ==> StartsAlike(v, pos)
    ensures t.elem == AnyVariant ==> (StartsAlike(v, pos) <==> AfterLength(pos) % 8 == 0)
  {
    hide HasType, SignatureOf, Padding;
    SignatureIsType(v, t);
    ElementText(t);
    OneIsAligned(AfterLength(pos));
    PaddingFacts(8, AfterLength(pos));
  }

  lemma ArraysAreArrays(v: Value, t: Type)
    requires t.ArrayOf? && HasType(v, t)
    ensures v.Array?
  {}

  lemma OneIsAligned(pos: nat)
    ensures Padding(1, pos) == 0
  {}

  lemma StandardBegins(o: Order, vs: seq<Value>, pos: nat)
    requires vs != [] && StandardMarshall(o, vs[0], pos) != [] && StandardMarshall(o, vs[0], pos)[0] != 0
    ensures StandardAll(o, vs, pos) != [] && StandardAll(o, vs, pos)[0] != 0
  {
    hide StandardMarshall;
  }

  /** A variant begins with the length of a signature, which is not zero. */
  lemma VariantBegins(o: Order, v: Value, pos: nat)
    requires HasType(v, AnyVariant)
    ensures StandardMarshall(o, v, pos) != [] && StandardMarshall(o, v, pos)[0] != 0
  {
    var inner :| WellFormed(inner) && HasType(v.value, inner);
    SignatureIsType(v.value, inner);
    assert v.contained == Print(inner) && |v.contained| <= 255;
    hide HasType, Print, WellFormed, SignatureOf;
    var tail := StandardMarshall(o, v.value, pos + |PutSignature(v.contained)|);
    assert StandardMarshall(o, v, pos) == PutSignature(v.contained) + tail;
    assert PutSignature(v.contained)[0] == |v.contained|;
  }

  lemma ElementText(t: Type)
    requires t.ArrayOf? && WellFormed(t)
    ensures At(Extract(Print(t), 1), 0) == At(Print(t.elem), 0)
    ensures At(Print(t.elem), 0) == CODE_VARIANT ==> t.elem == AnyVariant
  {
    assert Print(t) == [CODE_ARRAY] + Print(t.elem);
    assert Holds(Print(t), 1, Print(t.elem));
    ExtractInvertsPrint(Print(t), 1, t.elem);
  }

  // ----- the main result

  /**
   * A well-formed value has the standard's bytes if and only if, at every depth, its arrays of variants start their
   * contents where the standard does and its arrays with contents start at a multiple of four.
   */
  lemma StandardExactlyWhenConforming(o: Order, v: Value, t: Type, pos: nat)
    requires WellFormed(t) && HasType(v, t) && Fits(v, pos) && EmptyConforms(v, pos)
    ensures Marshall(o, v, pos) == StandardMarshall(o, v, pos) <==> Conforms(v, pos)
  {
    hide Marshall, StandardMarshall, Conforms, EmptyConforms, Fits, HasType, WellFormed;
    if Conforms(v, pos) {
      ConformingAgrees(o, v, pos);
    } else {
      NonconformingClashes(o, v, t, pos);
    }
  }

  // ----- arrays of variants

  /**
   * On a 4-byte boundary, an array of variants has the standard's bytes if and only if its length word happens to end
   * on an 8-byte boundary and, at every depth, its contents conform.
   */
  lemma VariantArrayIsStandardExactly(o: Order, v: Value, pos: nat)
    requires HasType(v, ArrayOf(AnyVariant)) && Fits(v, pos) && pos % 4 == 0
    requires EmptyConformsAll(v.contents, ContentsStart(SignatureOf(v), pos))
    ensures Marshall(o, v, pos) == StandardMarshall(o, v, pos) <==> pos % 8 == 4 && ConformsAll(v.contents, pos + 4)
  {
    hide HasType, Fits, Marshall, StandardMarshall, ConformsAll, EmptyConformsAll, SignatureOf, ContentsStart,
      StandardStart;
    var t := ArrayOf(AnyVariant);
    assert v.Array? by { ArraysAreArrays(v, t); }
    VariantArrayStarts(v, pos);
    if v.contents == [] && pos % 8 == 0 {
      EmptyDiffers(o, v, pos);
    } else if v.contents != [] || StartsAlike(v, pos) {
      StandardExactlyWhenConforming(o, v, t, pos);
    }
  }

  lemma VariantArrayStarts(v: Value, pos: nat)
    requires HasType(v, ArrayOf(AnyVariant)) && pos % 4 == 0
    ensures StandardStart(SignatureOf(v), pos) == pos + 4
    ensures ContentsStart(SignatureOf(v), pos) == if pos % 8 == 0 then pos + 8 else pos + 4
  {
    hide HasType, SignatureOf;
    SignatureIsType(v, ArrayOf(AnyVariant));
    assert Extract([CODE_ARRAY, CODE_VARIANT], 1) == [CODE_VARIANT];
    hide Extract, Alignment;
    PaddingAfterLength(pos);
  }

  lemma PaddingAfterLength(pos: nat)
    requires pos % 4 == 0
    ensures Padding(4, pos) == 0 && Padding(8, pos + 4) == (if pos % 8 == 0 then 4 else 0) && Padding(1, pos + 4) == 0
  {
    var q, r := pos / 8, pos % 8;
    assert pos == 8 * q + r && (r == 0 || r == 4);
    var left := if r == 0 then 4 else 0;
    assert (pos + 4) % 8 == left;
  }

  lemma EmptyDiffers(o: Order, v: Value, pos: nat)
    requires v.Array? && v.contents == [] && pos % 4 == 0
    requires StandardStart(SignatureOf(v), pos) == pos + 4 && ContentsStart(SignatureOf(v), pos) == pos + 8
    ensures Marshall(o, v, pos) != StandardMarshall(o, v, pos)
  {
    hide SignatureOf, ContentsStart, StandardStart, Word;
    assert Padding(4, pos) == 0;
    assert |StandardArray(o, v, pos)| == 4 && |MarshallArray(o, v, pos)| == 8;
  }

  /**
   * Why empty arrays are set apart: before something that aligns to eight, as in `(avt)`, the bytes an empty array of
   * variants has too many are those the standard pads with.
   */
  lemma EmptyArrayHides(o: Order, n: nat)
    ensures var v := Struct([Array([CODE_ARRAY, CODE_VARIANT], []), Plain(Fixed(Uint64, n))]);
            !Conforms(v, 0) && Marshall(o, v, 0) == StandardMarshall(o, v, 0)
  {
    hide Word, Marshall, StandardMarshall, MarshallAll, StandardAll, Conforms, ConformsAll, Zeros;
    var av, x := Array([CODE_ARRAY, CODE_VARIANT], []), Plain(Fixed(Uint64, n));
    EmptyVariantArray(o);
    WordAlone(o, n);
    TwoMarshalled(o, av, x, Zeros(8), Zeros(4));
    ZerosAdd(4, 4);
    assert Zeros(8) + Word(o, n, 8) == Zeros(4) + (Zeros(4) + Word(o, n, 8));
    StructsAtZero(o, [av, x]);
  }

  lemma EmptyVariantArray(o: Order)
    ensures var av := Array([CODE_ARRAY, CODE_VARIANT], []);
            Marshall(o, av, 0) == Zeros(8) && StandardMarshall(o, av, 0) == Zeros(4) && !Conforms(av, 0)
  {
    hide Word, ContentsStart, StandardStart, SignatureOf, Zeros, Padding;
    var av := Array([CODE_ARRAY, CODE_VARIANT], []);
    EmptyVariantArrayStarts();
    ZeroWord(o, 4);
    ZerosAdd(4, 4);
    NoZeros();
    NothingMarshalled(o, 8);
    assert StandardAll(o, [], 4) == [];
    assert MarshallArray(o, av, 0) == Zeros(4) + Zeros(4) + [];
    assert StandardArray(o, av, 0) == [] + Zeros(4) + [] + [];
  }

  lemma EmptyVariantArrayStarts()
    ensures var av := Array([CODE_ARRAY, CODE_VARIANT], []);
            && Padding(4, 0) == 0 && AfterLength(0) == 4
            && ContentsStart(SignatureOf(av), 0) == 8 && StandardStart(SignatureOf(av), 0) == 4
  {
    hide Padding, Extract, HasType, SignatureOf;
    var av := Array([CODE_ARRAY, CODE_VARIANT], []);
    assert HasType(av, ArrayOf(AnyVariant)) by { EmptyVariantArrayTyped(); }
    PaddingAfterLength(0);
    VariantArrayStarts(av, 0);
  }

  lemma EmptyVariantArrayTyped()
    ensures HasType(Array([CODE_ARRAY, CODE_VARIANT], []), ArrayOf(AnyVariant))
  {}

  lemma WordAlone(o: Order, n: nat)
    ensures var x := Plain(Fixed(Uint64, n));
            Marshall(o, x, 8) == Word(o, n, 8) && StandardMarshall(o, x, 4) == Zeros(4) + Word(o, n, 8)
  {
    hide Word;
    assert Zeros(0) + Word(o, n, 8) == Word(o, n, 8);
  }

  lemma TwoMarshalled(o: Order, a: Value, b: Value, mine: bytes, theirs: bytes)
    requires mine == Marshall(o, a, 0) && theirs == StandardMarshall(o, a, 0)
    ensures MarshallAll(o, [a, b], 0) == mine + Marshall(o, b, |mine|)
    ensures StandardAll(o, [a, b], 0) == theirs + StandardMarshall(o, b, |theirs|)
    ensures !Conforms(a, 0) ==> !ConformsAll([a, b], 0)
  {
    hide Marshall, StandardMarshall, Conforms;
    assert [a, b][1..] == [b];
    OneMarshalled(o, b, |mine|);
    OneMarshalled(o, b, |theirs|);
  }

  lemma OneMarshalled(o: Order, v: Value, pos: nat)
    ensures MarshallAll(o, [v], pos) == Marshall(o, v, pos) && StandardAll(o, [v], pos) == StandardMarshall(o, v, pos)
  {
    hide Marshall, StandardMarshall;
    var mine, theirs := Marshall(o, v, pos), StandardMarshall(o, v, pos);
    assert [v][1..] == [];
    assert MarshallAll(o, [v][1..], pos + |mine|) == [] && StandardAll(o, [v][1..], pos + |theirs|) == [];
  }

  lemma StructsAtZero(o: Order, vs: seq<Value>)
    ensures MarshallAll(o, vs, 0) == StandardAll(o, vs, 0) ==>
      Marshall(o, Struct(vs), 0) == StandardMarshall(o, Struct(vs), 0)
    ensures Conforms(Struct(vs), 0) ==> ConformsAll(vs, 0)
  {
    hide MarshallAll, StandardAll, ConformsAll;
    assert Padding(8, 0) == 0;
  }
}
