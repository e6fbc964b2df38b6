/**
 * Type signatures: the types they denote, their printed text, and `extractSignature`,
 * which cuts one complete type out of a longer text by counting one kind of bracket.
 */
module Signatures {
  import opened Octets
  import opened Wrappers

  const CODE_BYTE: byte := 121    // 'y'
  const CODE_BOOLEAN: byte := 98    // 'b'
  const CODE_INT16: byte := 110    // 'n'
  const CODE_UINT16: byte := 113    // 'q'
  const CODE_INT32: byte := 105    // 'i'
  const CODE_UINT32: byte := 117    // 'u'
  const CODE_INT64: byte := 120    // 'x'
  const CODE_UINT64: byte := 116    // 't'
  const CODE_DOUBLE: byte := 100    // 'd'
  const CODE_STRING: byte := 115    // 's'
  const CODE_OBJECT_PATH: byte := 111    // 'o'
  const CODE_SIGNATURE: byte := 103    // 'g'
  const CODE_VARIANT: byte := 118    // 'v'
  const CODE_ARRAY: byte := 97    // 'a'
  const OPEN_STRUCT: byte := 40    // '('
  const CLOSE_STRUCT: byte := 41    // ')'
  const OPEN_ENTRY: byte := 123    // '{'
  const CLOSE_ENTRY: byte := 125    // '}'

  /** The basic types this library can marshal; 'h' (a file descriptor) is not among them. */
  predicate IsBasic(c: byte) {
    || c == CODE_BYTE || c == CODE_BOOLEAN
    || c == CODE_INT16 || c == CODE_UINT16 || c == CODE_INT32 || c == CODE_UINT32 || c == CODE_INT64 || c == CODE_UINT64
    || c == CODE_DOUBLE || c == CODE_STRING || c == CODE_OBJECT_PATH || c == CODE_SIGNATURE
  }

  /** A single complete type. */
  datatype Type =
    | Basic(code: byte)
    | AnyVariant
    | ArrayOf(elem: Type)
    | StructOf(fields: seq<Type>)
    | EntryOf(key: byte, value: Type)

  predicate WellFormed(t: Type) {
    match t
    case Basic(c) => IsBasic(c)
    case AnyVariant => true
    case ArrayOf(e) => WellFormed(e)
    case StructOf(fs) => fs != [] && forall f | f in fs :: WellFormed(f)
    case EntryOf(k, v) => IsBasic(k) && WellFormed(v)
  }

  predicate AllWellFormed(ts: seq<Type>) {
    forall t | t in ts :: WellFormed(t)
  }

  function Print(t: Type): (s: bytes)
    ensures s != []
  {
    match t
    case Basic(c) => [c]
    case AnyVariant => [CODE_VARIANT]
    case ArrayOf(e) => [CODE_ARRAY] + Print(e)
    case StructOf(fs) => [OPEN_STRUCT] + PrintAll(fs) + [CLOSE_STRUCT]
    case EntryOf(k, v) => [OPEN_ENTRY, k] + Print(v) + [CLOSE_ENTRY]
  }

  function PrintAll(ts: seq<Type>): bytes {
    if ts == [] then [] else Print(ts[0]) + PrintAll(ts[1..])
  }

  /** Reading a `std::string` at its size gives the terminating NUL. */
  function At(s: bytes, i: nat): byte {
    if i < |s| then s[i] else 0
  }

  /**
   * The index after the bracket that closes `depth` open ones, scanning from i and seeing only this kind of bracket.
   */
  function Scan(s: bytes, i: nat, open: byte, close: byte, depth: nat): (end: Option<nat>)
    requires i <= |s| && depth > 0
    ensures end.Some? ==> i < end.value <= |s|
    decreases |s| - i
  {
    if i == |s| then None
    else if s[i] == open then Scan(s, i + 1, open, close, depth + 1)
    else if s[i] == close then
      if depth == 1 then Some(i + 1) else Scan(s, i + 1, open, close, depth - 1)
    else Scan(s, i + 1, open, close, depth)
  }

  /** `extractSignature`. With no matching bracket the source logs an error and appends the bracket once more. */
  function Extract(declaration: bytes, idx: nat): (s: bytes)
    ensures s != [] && |s| <= if idx <= |declaration| then |declaration| - idx + 1 else 1
    decreases |declaration| - idx
  {
    var c := At(declaration, idx);
    if c == OPEN_STRUCT then Bracketed(declaration, idx, OPEN_STRUCT, CLOSE_STRUCT)
    else if c == OPEN_ENTRY then Bracketed(declaration, idx, OPEN_ENTRY, CLOSE_ENTRY)
    else if c == CODE_ARRAY then [c] + Extract(declaration, idx + 1)
    else [c]
  }

  function Bracketed(declaration: bytes, idx: nat, open: byte, close: byte): (s: bytes)
    requires idx < |declaration|
    ensures s != [] && |s| <= |declaration| - idx + 1
  {
    match Scan(declaration, idx + 1, open, close, 1)
    case Some(end) => declaration[idx..end]
    case None => declaration[idx..] + [declaration[idx]]
  }

  // ----- scanning printed types

  predicate IsBracketPair(open: byte, close: byte) {
    (open == OPEN_STRUCT && close == CLOSE_STRUCT) || (open == OPEN_ENTRY && close == CLOSE_ENTRY)
  }

  /** Scanning over a printed type, inside at least one open bracket, changes nothing. */
  lemma {:induction false} ScanOverType(s: bytes, i: nat, t: Type, open: byte, close: byte, depth: nat)
    requires WellFormed(t) && Holds(s, i, Print(t))
    requires IsBracketPair(open, close) && depth > 0
    ensures Scan(s, i, open, close, depth) == Scan(s, i + |Print(t)|, open, close, depth)
    decreases t, 0
  {
    HoldsAt(s, i, Print(t), 0);
    match t
    case Basic(_) =>
    case AnyVariant =>
    case ArrayOf(e) =>
      HoldsConcat(s, i, [CODE_ARRAY], Print(e));
      ScanOverType(s, i + 1, e, open, close, depth);
    case StructOf(fs) =>
      ScanOverStruct(s, i, t, open, close, depth);
    case EntryOf(k, v) =>
      ScanOverEntry(s, i, t, open, close, depth);
  }

  lemma {:induction false} ScanOverStruct(s: bytes, i: nat, t: Type, open: byte, close: byte, depth: nat)
    requires t.StructOf? && WellFormed(t) && Holds(s, i, Print(t))
    requires IsBracketPair(open, close) && depth > 0
    ensures Scan(s, i, open, close, depth) == Scan(s, i + |Print(t)|, open, close, depth)
    decreases t.fields, 1
  {
    var inner := if open == OPEN_STRUCT then depth + 1 else depth;
    BracketsApart(s, i, [OPEN_STRUCT], PrintAll(t.fields), [CLOSE_STRUCT]);
    ScanOverTypes(s, i + 1, t.fields, open, close, inner);
    ScanAround(s, i, i + 1, i + |Print(t)| - 1, OPEN_STRUCT, CLOSE_STRUCT, open, close, depth);
  }

  lemma {:induction false} ScanOverEntry(s: bytes, i: nat, t: Type, open: byte, close: byte, depth: nat)
    requires t.EntryOf? && WellFormed(t) && Holds(s, i, Print(t))
    requires IsBracketPair(open, close) && depth > 0
    ensures Scan(s, i, open, close, depth) == Scan(s, i + |Print(t)|, open, close, depth)
    decreases t.value, 1
  {
    var inner := if open == OPEN_ENTRY then depth + 1 else depth;
    BracketsApart(s, i, [OPEN_ENTRY, t.key], Print(t.value), [CLOSE_ENTRY]);
    assert Scan(s, i + 1, open, close, inner) == Scan(s, i + 2, open, close, inner);
    ScanOverType(s, i + 2, t.value, open, close, inner);
    ScanAround(s, i, i + 1, i + |Print(t)| - 1, OPEN_ENTRY, CLOSE_ENTRY, open, close, depth);
  }

  /** A bracketed stretch is passed over if its inside is. */
  lemma ScanAround(s: bytes, i: nat, from: nat, to: nat, left: byte, right: byte, open: byte, close: byte, depth: nat)
    requires i + 1 == from <= to < |s| && depth > 0
    requires IsBracketPair(left, right) && IsBracketPair(open, close)
    requires s[i] == left && s[to] == right
    requires var inner := if open == left then depth + 1 else depth;
             Scan(s, from, open, close, inner) == Scan(s, to, open, close, inner)
    ensures Scan(s, i, open, close, depth) == Scan(s, to + 1, open, close, depth)
  {}

  lemma BracketsApart(s: bytes, i: nat, head: bytes, body: bytes, tail: bytes)
    requires Holds(s, i, head + body + tail)
    requires 0 < |head| <= 2 && |tail| == 1
    ensures Holds(s, i + |head|, body)
    ensures s[i] == head[0] && s[i + |head| - 1] == head[|head| - 1]
    ensures s[i + |head| + |body|] == tail[0]
  {
    HoldsConcat(s, i, head + body, tail);
    HoldsConcat(s, i, head, body);
    HoldsAt(s, i, head, 0);
    HoldsAt(s, i, head, |head| - 1);
    HoldsAt(s, i + |head + body|, tail, 0);
  }

  lemma {:induction false} ScanOverTypes(s: bytes, i: nat, ts: seq<Type>, open: byte, close: byte, depth: nat)
    requires AllWellFormed(ts) && Holds(s, i, PrintAll(ts))
    requires IsBracketPair(open, close) && depth > 0
    ensures Scan(s, i, open, close, depth) == Scan(s, i + |PrintAll(ts)|, open, close, depth)
    decreases ts, 0
  {
    if ts != [] {
      HoldsConcat(s, i, Print(ts[0]), PrintAll(ts[1..]));
      ScanOverType(s, i, ts[0], open, close, depth);
      ScanOverTypes(s, i + |Print(ts[0])|, ts[1..], open, close, depth);
    }
  }

  /** Wherever a type is printed, `extractSignature` returns exactly its text, whatever comes before or after. */
  lemma {:induction false} ExtractInvertsPrint(declaration: bytes, idx: nat, t: Type)
    requires WellFormed(t) && Holds(declaration, idx, Print(t))
    ensures Extract(declaration, idx) == Print(t)
    decreases t
  {
    HoldsAt(declaration, idx, Print(t), 0);
    match t
    case Basic(_) =>
    case AnyVariant =>
    case ArrayOf(e) =>
      HoldsConcat(declaration, idx, [CODE_ARRAY], Print(e));
      ExtractInvertsPrint(declaration, idx + 1, e);
    case StructOf(_) =>
      ExtractStruct(declaration, idx, t);
    case EntryOf(_, _) =>
      ExtractEntry(declaration, idx, t);
  }

  lemma ExtractStruct(declaration: bytes, idx: nat, t: Type)
    requires t.StructOf? && WellFormed(t) && Holds(declaration, idx, Print(t))
    ensures Extract(declaration, idx) == Print(t)
  {
    hide Scan;
    BracketsApart(declaration, idx, [OPEN_STRUCT], PrintAll(t.fields), [CLOSE_STRUCT]);
    ScanOverTypes(declaration, idx + 1, t.fields, OPEN_STRUCT, CLOSE_STRUCT, 1);
    ScanCloses(declaration, idx + |Print(t)| - 1, OPEN_STRUCT, CLOSE_STRUCT);
  }

  lemma ExtractEntry(declaration: bytes, idx: nat, t: Type)
    requires t.EntryOf? && WellFormed(t) && Holds(declaration, idx, Print(t))
    ensures Extract(declaration, idx) == Print(t)
  {
    BracketsApart(declaration, idx, [OPEN_ENTRY, t.key], Print(t.value), [CLOSE_ENTRY]);
    assert Scan(declaration, idx + 1, OPEN_ENTRY, CLOSE_ENTRY, 1)
      == Scan(declaration, idx + 2, OPEN_ENTRY, CLOSE_ENTRY, 1);
    hide Scan;
    ScanOverType(declaration, idx + 2, t.value, OPEN_ENTRY, CLOSE_ENTRY, 1);
    ScanCloses(declaration, idx + |Print(t)| - 1, OPEN_ENTRY, CLOSE_ENTRY);
  }

  lemma ScanCloses(s: bytes, i: nat, open: byte, close: byte)
    requires i < |s| && s[i] == close && open != close
    ensures Scan(s, i, open, close, 1) == Some(i + 1)
  {}

  /** The texts the struct loop cuts out of a declaration from idx up to end. */
  function Cut(declaration: bytes, idx: nat, end: nat): seq<bytes>
    decreases end - idx
  {
    if idx >= end then []
    else
      var one := Extract(declaration, idx);
      [one] + Cut(declaration, idx + |one|, end)
  }

  function Texts(ts: seq<Type>): seq<bytes> {
    if ts == [] then [] else [Print(ts[0])] + Texts(ts[1..])
  }

  /** Types printed one after another are cut apart into exactly those types, in order. */
  lemma {:induction false} CutInvertsPrintAll(declaration: bytes, idx: nat, ts: seq<Type>)
    requires AllWellFormed(ts) && Holds(declaration, idx, PrintAll(ts))
    ensures Cut(declaration, idx, idx + |PrintAll(ts)|) == Texts(ts)
    decreases ts
  {
    hide Extract, Print, Holds;
    if ts != [] {
      HoldsConcat(declaration, idx, Print(ts[0]), PrintAll(ts[1..]));
      ExtractInvertsPrint(declaration, idx, ts[0]);
      CutInvertsPrintAll(declaration, idx + |Print(ts[0])|, ts[1..]);
    }
  }

  // ----- the scanner as it runs

  /** The bracket-counting loop: the text from idx through the matching bracket, or to the end if there is none. */
  method CountBrackets(declaration: bytes, idx: nat, open: byte, close: byte) returns (result: bytes, matched: bool)
    requires idx < |declaration| && declaration[idx] == open && open != close
    ensures matched <==> Scan(declaration, idx + 1, open, close, 1).Some?
    ensures result == if matched then declaration[idx..Scan(declaration, idx + 1, open, close, 1).value]
      else declaration[idx..]
  {
    result := [];
    var brackets: nat := 0;
    var i := idx;
    while i < |declaration|
      invariant idx <= i <= |declaration| && result == declaration[idx..i]
      invariant i == idx ==> brackets == 0
      invariant i > idx ==> brackets > 0
      invariant i > idx ==> Scan(declaration, idx + 1, open, close, 1) == Scan(declaration, i, open, close, brackets)
    {
      result := result + [declaration[i]];
      assert result == declaration[idx..i + 1];
      if declaration[i] == open {
        brackets := brackets + 1;
      } else if declaration[i] == close {
        brackets := brackets - 1;
        if brackets == 0 {
          return result, true;
        }
      }
      i := i + 1;
    }
    matched := false;
  }

  method ExtractSignature(declaration: bytes, idx: nat) returns (result: bytes)
    ensures result == Extract(declaration, idx)
    decreases |declaration| - idx
  {
    hide Scan;
    result := [];
    var matched := false;
    if At(declaration, idx) == OPEN_STRUCT {
      result, matched := CountBrackets(declaration, idx, OPEN_STRUCT, CLOSE_STRUCT);
      assert !matched ==> result == declaration[idx..];
    } else if At(declaration, idx) == OPEN_ENTRY {
      result, matched := CountBrackets(declaration, idx, OPEN_ENTRY, CLOSE_ENTRY);
      assert !matched ==> result == declaration[idx..];
    }
    if matched {
      return;
    }
    result := result + [At(declaration, idx)];
    if At(declaration, idx) == CODE_ARRAY {
      var element := ExtractSignature(declaration, idx + 1);
      result := result + element;
    }
  }
}
