/** What is read for arrays, structs, dict entries and variants: where their parts stand, and where reading stops. */
module ContainerReads {
  import opened Octets
  import opened Signatures
  import opened Values
  import opened Unmarshalling
  import opened WireBytes
  import opened WireReads
  import opened Texts

  // ----- arrays

  /** The alignment of an item, by the letter its type begins with. */
  function ItemAlignment(item: bytes): (a: nat)
    ensures a == 1 || a == 2 || a == 4 || a == 8
  {
    if item == [] then 1
    else
      match item[0] as char
      case 'v' => 8
      case '(' => 8
      case '{' => 8
      case 'a' => 4
      case _ => LetterAlignment(item[0] as char)
  }

  lemma ItemsAlign(item: bytes)
    ensures Alignment(item) == ItemAlignment(item)
  {}

  /** Items read one behind the other: the i-th begins at ps[i], ends at ps[i + 1] and takes at least one byte. */
  predicate InTurn(o: Order, item: bytes, view: bytes, ps: seq<nat>, vs: seq<Value>) {
    && |ps| == |vs| + 1 && (forall i :: 0 <= i < |ps| ==> ps[i] <= |view|)
    && forall i :: 0 <= i < |vs| ==> ps[i] < ps[i + 1] && Unmarshall(o, item, view, ps[i]) == Ok(vs[i], ps[i + 1])
  }

  /** Where reading items ends: with the view, with the first item that throws, or with one that never ends. */
  predicate ItemsEnd(o: Order, item: bytes, view: bytes, last: nat, r: Outcome<seq<Value>>, vs: seq<Value>)
    requires last <= |view|
  {
    match r
    case Ok(all, end) => all == vs && end == last == |view|
    case Throw => last < |view| && Unmarshall(o, item, view, last) == Throw
    case Outside => last < |view| && NeverEnds(Unmarshall(o, item, view, last), last)
  }

  /** An item that is not read to an end, or takes no bytes. */
  predicate NeverEnds(r: Outcome<Value>, pos: nat) {
    r.Outside? || (r.Ok? && r.pos == pos)
  }

  lemma {:induction false} ItemsRead(o: Order, item: bytes, view: bytes, pos: nat)
      returns (ps: seq<nat>, vs: seq<Value>)
    requires pos <= |view|
    ensures InTurn(o, item, view, ps, vs) && ps[0] == pos
    ensures ItemsEnd(o, item, view, ps[|vs|], UnmarshallElements(o, item, view, pos), vs)
    decreases |view| - pos
  {
    hide Unmarshall;
    ps, vs := [pos], [];
    if pos < |view| {
      var r := Unmarshall(o, item, view, pos);
      if r.Ok? && r.pos > pos {
        var qs, ws := ItemsRead(o, item, view, r.pos);
        ps, vs := [pos] + qs, [r.value] + ws;
      }
    }
  }

  /**
   * An array: the length word on the least multiple of four, the contents on the least multiple of their alignment
   * behind it, as many bytes as the length says; in them the items one behind the other, up to exactly their end. It
   * throws if there are too few bytes, or if an item does; its items do not see what follows the array.
   */
  lemma ArrayReads(o: Order, signature: bytes, view: bytes, pos: nat)
      returns (length: nat, start: nat, n: nat, ps: seq<nat>, vs: seq<Value>)
    requires signature != [] && signature[..1] == Ascii("a") && pos <= |view|
    ensures var item := Extract(signature, 1);
            Reaches(length, 4, pos) && Reaches(start, ItemAlignment(item), length + 4)
    ensures var item, r := Extract(signature, 1), Unmarshall(o, signature, view, pos);
            if length + 4 > |view| || start + n > |view| then r == Throw
            else
              var inner := view[..start + n];
              && view[length..length + 4] == NumberBytes(o, n, 4)
              && InTurn(o, item, inner, ps, vs) && ps[0] == start
              && match r
                 case Ok(v, end) => v == Array(signature, vs) && end == ps[|vs|] == start + n
                 case Throw => ps[|vs|] < start + n && Unmarshall(o, item, inner, ps[|vs|]) == Throw
                 case Outside => ps[|vs|] < start + n && NeverEnds(Unmarshall(o, item, inner, ps[|vs|]), ps[|vs|])
  {
    hide Padding, Reaches, NumberBytes, WordValue, Alignment, ItemAlignment, Extract, UnmarshallElements, ReadWord;
    var item := Extract(signature, 1);
    length := pos + Padding(4, pos);
    start := length + 4 + Padding(ItemAlignment(item), length + 4);
    PaddingReaches(4, pos);
    PaddingReaches(ItemAlignment(item), length + 4);
    ItemsAlign(item);
    n := NumberAt(o, 4, view, length);
    WordAt(o, 4, view, pos);
    ps, vs := [], [];
    ArrayIsRead(o, signature, view, pos);
    if length + 4 <= |view| && start + n <= |view| {
      ps, vs := ItemsRead(o, item, view[..start + n], start);
    }
  }

  lemma ArrayIsRead(o: Order, signature: bytes, view: bytes, pos: nat)
    requires signature != [] && signature[..1] == Ascii("a") && pos <= |view|
    ensures Unmarshall(o, signature, view, pos) == UnmarshallArray(o, signature, view, pos)
  {
    hide UnmarshallArray;
    ContainerLetters();
  }

  // ----- structs

  /**
   * Fields read one behind the other: the type of the k-th is cut out of the signature at cuts[k], its value begins at
   * ps[k] and ends at ps[k + 1].
   */
  predicate FieldsInTurn(o: Order, signature: bytes, view: bytes, cuts: seq<nat>, ps: seq<nat>, vs: seq<Value>) {
    && |cuts| == |ps| == |vs| + 1 && (forall k :: 0 <= k < |ps| ==> ps[k] <= |view|)
    && forall k :: 0 <= k < |vs| ==> FieldStands(o, signature, view, cuts[k], cuts[k + 1], ps[k], ps[k + 1], vs[k])
  }

  /** The type of a field is cut out at `cut`, its value stands at p; `next` and q are where they end. */
  predicate FieldStands(o: Order, signature: bytes, view: bytes, cut: nat, next: nat, p: nat, q: nat, v: Value)
    requires p <= |view|
  {
    var one := Extract(signature, cut);
    one != signature && next == cut + |one| && Unmarshall(o, one, view, p) == Ok(v, q)
  }

  /** There is a field to read as long as the signature has more than its last letter; the first one is always read. */
  predicate FieldFollows(signature: bytes, cuts: seq<nat>, k: nat)
    requires k < |cuts|
  {
    k == 0 || cuts[k] < |signature| - 1
  }

  /** Where reading fields ends: with the last one, with the first that throws, or with one that never ends. */
  predicate FieldsEnd(o: Order, signature: bytes, view: bytes, cuts: seq<nat>, last: nat, r: Outcome<Value>,
                      vs: seq<Value>)
    requires last <= |view| && |cuts| == |vs| + 1
  {
    var one := Extract(signature, cuts[|vs|]);
    && (forall k :: 0 <= k < |vs| ==> FieldFollows(signature, cuts, k))
    && (r.Ok? <==> !FieldFollows(signature, cuts, |vs|))
    && match r
       case Ok(v, end) => v == Struct(vs) && end == last
       case Throw => one != signature && Unmarshall(o, one, view, last) == Throw
       case Outside => one == signature || Unmarshall(o, one, view, last).Outside?
  }

  function AsStruct(r: Outcome<seq<Value>>): Outcome<Value> {
    match r
    case Ok(fields, end) => Ok(Struct(fields), end)
    case Throw => Throw
    case Outside => Outside
  }

  lemma {:induction false} FieldsRead(o: Order, signature: bytes, idx: nat, view: bytes, pos: nat)
      returns (cuts: seq<nat>, ps: seq<nat>, vs: seq<Value>)
    requires pos <= |view| && At(signature, 0) == OPEN_STRUCT && idx >= 1
    ensures FieldsInTurn(o, signature, view, cuts, ps, vs) && cuts[0] == idx && ps[0] == pos
    ensures FieldsEnd(o, signature, view, cuts, ps[|vs|], AsStruct(UnmarshallFields(o, signature, idx, view, pos)), vs)
    decreases |signature| - idx
  {
    hide Unmarshall, Extract, At;
    cuts, ps, vs := [idx], [pos], [];
    var one := Extract(signature, idx);
    if one != signature && Unmarshall(o, one, view, pos).Ok? {
      var r := Unmarshall(o, one, view, pos);
      var next := idx + |one|;
      if next < |signature| - 1 {
        hide FieldsInTurn, FieldsEnd, FieldFollows;
        var ds, qs, ws := FieldsRead(o, signature, next, view, r.pos);
        cuts, ps, vs := [idx] + ds, [pos] + qs, [r.value] + ws;
        TurnGrows(o, signature, view, idx, pos, r.value, ds, qs, ws);
        EndGrows(o, signature, view, idx, ds, qs[|ws|], UnmarshallFields(o, signature, next, view, r.pos), ws, r.value);
      } else {
        cuts, ps, vs := [idx, next], [pos, r.pos], [r.value];
        assert FieldFollows(signature, cuts, 0) && !FieldFollows(signature, cuts, 1);
      }
    }
  }

  function Before(v: Value, r: Outcome<seq<Value>>): Outcome<seq<Value>> {
    match r
    case Ok(rest, end) => Ok([v] + rest, end)
    case _ => r
  }

  /** A field in front of others. */
  lemma TurnGrows(o: Order, signature: bytes, view: bytes, idx: nat, pos: nat, v: Value, cuts: seq<nat>, ps: seq<nat>,
                  vs: seq<Value>)
    requires FieldsInTurn(o, signature, view, cuts, ps, vs)
    requires pos <= |view| && FieldStands(o, signature, view, idx, cuts[0], pos, ps[0], v)
    ensures FieldsInTurn(o, signature, view, [idx] + cuts, [pos] + ps, [v] + vs)
  {
    hide FieldStands;
    var ds, qs, ws := [idx] + cuts, [pos] + ps, [v] + vs;
    forall k | 0 <= k < |ws|
      ensures FieldStands(o, signature, view, ds[k], ds[k + 1], qs[k], qs[k + 1], ws[k])
    {
      if k > 0 {
        assert ds[k] == cuts[k - 1] && qs[k] == ps[k - 1] && ws[k] == vs[k - 1];
      }
    }
  }

  lemma EndGrows(o: Order, signature: bytes, view: bytes, idx: nat, cuts: seq<nat>, last: nat,
                 r: Outcome<seq<Value>>, vs: seq<Value>, v: Value)
    requires last <= |view| && |cuts| == |vs| + 1 && cuts[0] < |signature| - 1
    requires FieldsEnd(o, signature, view, cuts, last, AsStruct(r), vs)
    ensures FieldsEnd(o, signature, view, [idx] + cuts, last, AsStruct(Before(v, r)), [v] + vs)
  {
    hide Unmarshall, Extract;
    var more := [idx] + cuts;
    forall k | 1 <= k < |more|
      ensures FieldFollows(signature, more, k) <==> FieldFollows(signature, cuts, k - 1)
    {
      assert more[k] == cuts[k - 1];
    }
  }

  /**
   * A struct: on the least multiple of eight, its fields one behind the other, each of the type cut out of the
   * signature behind the one before. It throws if there is no room for the padding or if a field does.
   */
  lemma StructReads(o: Order, signature: bytes, view: bytes, pos: nat)
      returns (start: nat, cuts: seq<nat>, ps: seq<nat>, vs: seq<Value>)
    requires signature != [] && signature[..1] == Ascii("(") && pos <= |view|
    ensures Reaches(start, 8, pos)
    ensures var r := Unmarshall(o, signature, view, pos);
            if start > |view| then r == Throw
            else
              && FieldsInTurn(o, signature, view, cuts, ps, vs) && cuts[0] == 1 && ps[0] == start
              && FieldsEnd(o, signature, view, cuts, ps[|vs|], r, vs)
  {
    hide Padding, Reaches, UnmarshallFields, FieldsInTurn, FieldsEnd;
    start := pos + Padding(8, pos);
    PaddingReaches(8, pos);
    ContainerLetters();
    cuts, ps, vs := [], [], [];
    if start <= |view| {
      cuts, ps, vs := FieldsRead(o, signature, 1, view, start);
    }
  }

  // ----- dict entries and variants

  /**
   * A dict entry: on the least multiple of eight, the key, whose type is the signature's second letter, and behind it
   * the value, whose type is cut out behind that letter.
   */
  lemma EntryReads(o: Order, signature: bytes, view: bytes, pos: nat) returns (start: nat)
    requires signature != [] && signature[..1] == Ascii("{") && pos <= |view|
    ensures Reaches(start, 8, pos)
    ensures var r := Unmarshall(o, signature, view, pos);
            if start > |view| || |signature| < 2 || signature[1] as char !in "ybnqiuxtdhsog" then r == Throw
            else
              var key := Unmarshall(o, [signature[1]], view, start);
              if !key.Ok? then r == key
              else
                var value := Unmarshall(o, Extract(signature, 2), view, key.pos);
                if !value.Ok? then r == value
                else r == Ok(DictEntry(signature, key.value, value.value), value.pos)
  {
    hide Padding, Reaches, Extract, IsValidBasicType, Unmarshall;
    start := pos + Padding(8, pos);
    PaddingReaches(8, pos);
    EntryIsRead(o, signature, view, pos);
    if |signature| >= 2 {
      KeyLetters(signature[1]);
    }
  }

  /** A variant: one byte of length, that many letters and a terminator, and directly behind it a value of that type. */
  lemma VariantReads(o: Order, signature: bytes, view: bytes, pos: nat)
    requires signature != [] && signature[..1] == Ascii("v") && pos <= |view|
    ensures var r := Unmarshall(o, signature, view, pos);
            if pos + 1 > |view| || pos + view[pos] + 2 > |view| then r == Throw
            else
              var contained := view[pos + 1..pos + 1 + view[pos]];
              var value := Unmarshall(o, contained, view, pos + view[pos] + 2);
              if !value.Ok? then r == value else r == Ok(Variant(contained, value.value), value.pos)
  {
    hide Unmarshall;
    VariantIsRead(o, signature, view, pos);
  }

  lemma EntryIsRead(o: Order, signature: bytes, view: bytes, pos: nat)
    requires signature != [] && signature[..1] == Ascii("{") && pos <= |view|
    ensures Unmarshall(o, signature, view, pos) == UnmarshallEntry(o, signature, view, pos)
  {
    hide UnmarshallEntry, Ascii;
    ContainerLetters();
    assert signature[..1][0] == signature[0];
  }

  lemma VariantIsRead(o: Order, signature: bytes, view: bytes, pos: nat)
    requires signature != [] && signature[..1] == Ascii("v") && pos <= |view|
    ensures Unmarshall(o, signature, view, pos) == UnmarshallVariant(o, view, pos)
  {
    hide UnmarshallVariant, Ascii;
    ContainerLetters();
    assert signature[..1][0] == signature[0];
  }

  /** What is read for a basic type depends on the first letter only. */
  lemma FirstLetterDecides(o: Order, signature: bytes, view: bytes, pos: nat)
    requires signature != [] && signature[0] as char in "ybnqiuxtdsog" && pos <= |view|
    ensures Unmarshall(o, signature, view, pos) == Unmarshall(o, [signature[0]], view, pos)
  {
    BasicLetters(signature[0]);
    hide ReadBasic;
  }
}
