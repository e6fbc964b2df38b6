/** What is read from the wire, whatever stands there, byte by byte and by letter. */
module WireReads {
  import opened Wrappers
  import opened Octets
  import opened Signatures
  import opened Values
  import opened Unmarshalling
  import opened WireBytes
  import opened Texts

  // ----- basic values

  /** How many bytes a value of a type with this letter takes; none is given for texts. */
  function LetterWidth(letter: char): nat {
    match letter
    case 'y' => 1
    case 'n' => 2
    case 'q' => 2
    case 'b' => 4
    case 'i' => 4
    case 'u' => 4
    case 'x' => 8
    case 't' => 8
    case 'd' => 8
    case _ => 0
  }

  /** Doubles are read where the stream stands; everything else is aligned as it is written. */
  function ReadAlignment(letter: char): (a: nat)
    ensures a == 1 || a == 2 || a == 4 || a == 8
  {
    if letter == 'd' then 1 else LetterAlignment(letter)
  }

  /** b is the value of the type with this letter whose number is n. */
  predicate Holding(b: BasicValue, letter: char, n: nat) {
    match letter
    case 'y' => b.Byte? && b.b == n
    case 'b' => b.Boolean? && b.word == n
    case 'n' => b.Fixed? && b.kind == Int16 && b.bits == n
    case 'q' => b.Fixed? && b.kind == Uint16 && b.bits == n
    case 'i' => b.Fixed? && b.kind == Int32 && b.bits == n
    case 'u' => b.Fixed? && b.kind == Uint32 && b.bits == n
    case 'x' => b.Fixed? && b.kind == Int64 && b.bits == n
    case 't' => b.Fixed? && b.kind == Uint64 && b.bits == n
    case 'd' => b.Double? && b.bits == n
    case _ => false
  }

  /**
   * A number is read from the bytes that are its own, at the least multiple of its alignment, or throws for want of
   * them.
   */
  lemma NumberReads(o: Order, letter: char, view: bytes, pos: nat) returns (start: nat, n: nat)
    requires letter in "ybnqiuxtd" && pos <= |view|
    ensures Reaches(start, ReadAlignment(letter), pos)
    ensures var w, r := LetterWidth(letter), Unmarshall(o, [letter as int], view, pos);
            if start + w > |view| then r == Throw
            else
              && r.Ok? && r.pos == start + w && r.value.Plain?
              && Holding(r.value.basic, letter, n) && view[start..start + w] == NumberBytes(o, n, w)
  {
    hide Unmarshall, Padding, Word, WordValue, NumberBytes, Reaches;
    var a, w := ReadAlignment(letter), LetterWidth(letter);
    start := pos + Padding(a, pos);
    PaddingReaches(a, pos);
    n := NumberAt(o, w, view, start);
    match letter
    case 'y' => ByteReads(o, view, pos);
    case 'b' => BooleanReads(o, view, pos);
    case 'n' => KindReads(o, Int16, view, pos);
    case 'q' => KindReads(o, Uint16, view, pos);
    case 'i' => KindReads(o, Int32, view, pos);
    case 'u' => KindReads(o, Uint32, view, pos);
    case 'x' => KindReads(o, Int64, view, pos);
    case 't' => KindReads(o, Uint64, view, pos);
    case 'd' => DoubleReads(o, view, pos);
  }

  /** The number whose bytes stand there, if there are enough. */
  lemma NumberAt(o: Order, w: nat, view: bytes, start: nat) returns (n: nat)
    ensures start + w <= |view| ==>
      n == WordValue(o, view[start..start + w]) && view[start..start + w] == NumberBytes(o, n, w)
  {
    hide Word, WordValue, NumberBytes;
    n := 0;
    if start + w <= |view| {
      var s := view[start..start + w];
      n := WordValue(o, s);
      WordOfValue(o, s);
      WordBytes(o, n, w);
    }
  }

  lemma WordAt(o: Order, w: nat, view: bytes, pos: nat)
    ensures var start := pos + Padding(w, pos);
            ReadWord(o, w, view, pos)
            == if start + w > |view| then Throw else Ok(WordValue(o, view[start..start + w]), start + w)
  {
    hide Padding, WordValue;
  }

  lemma KindReads(o: Order, kind: FixedKind, view: bytes, pos: nat)
    requires pos <= |view|
    ensures var w := kind.Width();
            var start := pos + Padding(w, pos);
            Unmarshall(o, [kind.Code()], view, pos)
            == if start + w > |view| then Throw
              else Ok(Plain(Fixed(kind, WordValue(o, view[start..start + w]))), start + w)
  {
    hide Padding, WordValue, ReadWord;
    WordAt(o, kind.Width(), view, pos);
    assert KindOf(kind.Code()) == kind;
  }

  lemma BooleanReads(o: Order, view: bytes, pos: nat)
    requires pos <= |view|
    ensures var start := pos + Padding(4, pos);
            Unmarshall(o, [CODE_BOOLEAN], view, pos)
            == if start + 4 > |view| then Throw else Ok(Plain(Boolean(WordValue(o, view[start..start + 4]))), start + 4)
  {
    hide Padding, WordValue, ReadWord;
    WordAt(o, 4, view, pos);
  }

  lemma DoubleReads(o: Order, view: bytes, pos: nat)
    requires pos <= |view|
    ensures Padding(1, pos) == 0
    ensures Unmarshall(o, [CODE_DOUBLE], view, pos)
         == if pos + 8 > |view| then Throw else Ok(Plain(Double(WordValue(o, view[pos..pos + 8]))), pos + 8)
  {
    hide WordValue;
  }

  lemma ByteReads(o: Order, view: bytes, pos: nat)
    requires pos <= |view|
    ensures Padding(1, pos) == 0
    ensures Unmarshall(o, [CODE_BYTE], view, pos)
         == if pos + 1 > |view| then Throw else Ok(Plain(Byte(view[pos])), pos + 1)
    ensures pos < |view| ==> WordValue(o, view[pos..pos + 1]) == view[pos]
  {
    UnpaddedOctet(o, view, pos);
    hide WordValue;
  }

  lemma UnpaddedOctet(o: Order, view: bytes, pos: nat)
    ensures Padding(1, pos) == 0
    ensures pos < |view| ==> WordValue(o, view[pos..pos + 1]) == view[pos]
  {
    if pos < |view| {
      var s := view[pos..pos + 1];
      assert s == [view[pos]] && Reverse(s) == s && s[1..] == [];
      assert LittleValue(s[1..]) == 0;
    }
  }

  /** A text is its length, its bytes and one byte more, which is not looked at. */
  lemma TextReads(o: Order, letter: char, view: bytes, pos: nat) returns (start: nat, n: nat)
    requires letter in "sog" && pos <= |view|
    ensures Reaches(start, LetterAlignment(letter), pos)
    ensures var w, r := if letter == 'g' then 1 else 4, Unmarshall(o, [letter as int], view, pos);
            if start + w > |view| then r == Throw
            else
              && view[start..start + w] == NumberBytes(o, n, w)
              && if start + w + n + 1 > |view| then r == Throw
                 else
                   var text := view[start + w..start + w + n];
                   r == Ok(Plain(if letter == 's' then String(text) else if letter == 'o' then ObjectPath(text)
                                 else Signature(text)), start + w + n + 1)
  {
    hide Unmarshall, Padding, Word, WordValue, NumberBytes, Reaches;
    var a, w := LetterAlignment(letter), if letter == 'g' then 1 else 4;
    start := pos + Padding(a, pos);
    PaddingReaches(a, pos);
    n := NumberAt(o, w, view, start);
    match letter
    case 's' => StringReads(o, CODE_STRING, view, pos);
    case 'o' => StringReads(o, CODE_OBJECT_PATH, view, pos);
    case 'g' => SignatureReads(o, view, pos);
  }

  lemma StringReads(o: Order, code: byte, view: bytes, pos: nat)
    requires (code == CODE_STRING || code == CODE_OBJECT_PATH) && pos <= |view|
    ensures var start := pos + Padding(4, pos);
            var r := Unmarshall(o, [code], view, pos);
            if start + 4 > |view| then r == Throw
            else
              var n := WordValue(o, view[start..start + 4]);
              if start + 4 + n + 1 > |view| then r == Throw
              else
                var text := view[start + 4..start + 4 + n];
                r == Ok(Plain(if code == CODE_STRING then String(text) else ObjectPath(text)), start + 4 + n + 1)
  {
    hide Padding, WordValue, ReadWord;
    WordAt(o, 4, view, pos);
  }

  lemma SignatureReads(o: Order, view: bytes, pos: nat)
    requires pos <= |view|
    ensures Padding(1, pos) == 0
    ensures var r := Unmarshall(o, [CODE_SIGNATURE], view, pos);
            if pos + 1 > |view| then r == Throw
            else
              var n := WordValue(o, view[pos..pos + 1]);
              if pos + 1 + n + 1 > |view| then r == Throw
              else r == Ok(Plain(Signature(view[pos + 1..pos + 1 + n])), pos + 1 + n + 1)
  {
    UnpaddedOctet(o, view, pos);
    hide WordValue;
  }

  // ----- items that take no bytes

  /** An array of items that take no bytes is never read to an end unless it is empty. */
  lemma EmptyItemsNeverEnd(o: Order, element: bytes, view: bytes, pos: nat)
    requires pos <= |view| && (element == [] || element[0] as char !in "ybnqiuxtdsogva({")
    ensures UnmarshallElements(o, element, view, pos) == if pos == |view| then Ok([], pos) else Outside
  {
    OtherLettersReadNothing(o, element, view, pos);
    hide Unmarshall;
  }

  // ----- brackets

  /** Brackets opened less brackets closed, of one kind. */
  function Balance(s: bytes, from: nat, to: nat, open: char, close: char): int
    requires from <= to <= |s|
    decreases |s| - from
  {
    if from == to then 0
    else
      (if s[from] as char == open then 1 else if s[from] as char == close then -1 else 0)
      + Balance(s, from + 1, to, open, close)
  }

  /** The brackets from `from` on are first balanced at `end`. */
  ghost predicate FirstBalanced(s: bytes, from: nat, depth: nat, end: nat, open: char, close: char) {
    && from < end <= |s| && depth + Balance(s, from, end, open, close) == 0
    && forall k :: from <= k < end ==> depth + Balance(s, from, k, open, close) > 0
  }

  ghost predicate NeverBalanced(s: bytes, from: nat, depth: nat, open: char, close: char) {
    forall k :: from <= k <= |s| ==> depth + Balance(s, from, k, open, close) > 0
  }

  predicate Pair(open: char, close: char) {
    (open == '(' && close == ')') || (open == '{' && close == '}')
  }

  lemma {:induction false} ScanBalances(s: bytes, i: nat, depth: nat, open: char, close: char)
    requires Pair(open, close) && i <= |s| && depth > 0
    ensures match Scan(s, i, open as int, close as int, depth)
      case Some(end) => FirstBalanced(s, i, depth, end, open, close)
      case None => NeverBalanced(s, i, depth, open, close)
    decreases |s| - i
  {
    if i < |s| {
      var step := if s[i] as char == open then 1 else if s[i] as char == close then -1 else 0;
      assert forall k :: i < k <= |s| ==> Balance(s, i, k, open, close) == step + Balance(s, i + 1, k, open, close);
      if depth + step > 0 {
        ScanBalances(s, i + 1, depth + step, open, close);
      } else {
        assert Balance(s, i + 1, i + 1, open, close) == 0;
      }
    }
  }

  /**
   * The text cut out at a bracket runs through the place where brackets of its kind are first balanced. Where there is
   * no such place it is all that is left, and the bracket once more.
   */
  lemma BracketsCut(s: bytes, idx: nat, open: char, close: char) returns (end: Option<nat>)
    requires Pair(open, close) && idx < |s| && s[idx] as char == open
    ensures match end
      case Some(e) => FirstBalanced(s, idx + 1, 1, e, open, close) && Extract(s, idx) == s[idx..e]
      case None =>
        && NeverBalanced(s, idx + 1, 1, open, close)
        && Extract(s, idx) == s[idx..] + [open as int]
  {
    hide Scan;
    ScanBalances(s, idx + 1, 1, open, close);
    end := Scan(s, idx + 1, open as int, close as int, 1);
  }

  /** Anywhere else it is one letter, and after an `a` the type of the items; at the very end it is a NUL. */
  lemma LettersCut(s: bytes, idx: nat)
    requires idx <= |s|
    ensures idx == |s| ==> Extract(s, idx) == [0]
    ensures idx < |s| && s[idx] as char == 'a' ==> Extract(s, idx) == Ascii("a") + Extract(s, idx + 1)
    ensures idx < |s| && s[idx] as char !in "({a" ==> Extract(s, idx) == [s[idx]]
  {
    ContainerLetters();
  }
}
