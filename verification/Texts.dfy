/** Numbers and letters as they are read and written, spelled out. */
module Texts {
  import opened Wrappers
  import opened Octets
  import opened Signatures
  import opened Values
  import opened Unmarshalling
  import opened Numerals
  import opened WireBytes

  // ----- numbers

  predicate Blank(s: bytes) {
    forall i :: 0 <= i < |s| ==> s[i] as char in " \t\n\r" || s[i] == 11 || s[i] == 12
  }

  predicate StartsWithDigit(s: bytes) {
    s != [] && '0' as int <= s[0] <= '9' as int
  }

  lemma {:induction false} BlanksSkipped(blanks: bytes, rest: bytes)
    requires Blank(blanks) && (rest != [] ==> !Blank(rest[..1]))
    ensures SkipSpace(blanks + rest) == rest
  {
    if blanks == [] {
      assert blanks + rest == rest;
      if rest != [] {
        assert rest[..1][0] == rest[0];
      }
    } else {
      assert (blanks + rest)[1..] == blanks[1..] + rest;
      BlanksSkipped(blanks[1..], rest);
    }
  }

  function SignedBy(sign: string, n: nat): int {
    if sign == "-" then 0 - n else n
  }

  /**
   * `stoi` reads blanks, a sign or none, and digits, and ignores what follows the last digit. The number has to fit a
   * 32-bit signed integer.
   */
  lemma StoiReads(blanks: bytes, sign: string, n: nat, rest: bytes)
    requires Blank(blanks) && (sign == "" || sign == "+" || sign == "-") && !StartsWithDigit(rest)
    ensures var value := SignedBy(sign, n);
            Stoi(blanks + Ascii(sign) + Decimal(n) + rest)
            == if -0x8000_0000 <= value < 0x8000_0000 then Some(value) else None
  {
    hide Decimal, SkipSpace;
    var digits := Decimal(n) + rest;
    var number := Ascii(sign) + digits;
    assert blanks + Ascii(sign) + Decimal(n) + rest == blanks + number;
    Signs();
    assert digits[0] == Decimal(n)[0];
    assert number[0] == if sign == "" then digits[0] else Ascii(sign)[0];
    assert number[..1][0] == number[0];
    BlanksSkipped(blanks, number);
    LeadingNumberOfDecimal(n, rest);
    assert LeadingNumber(rest, n) == n;
    if sign == "" {
      assert number == digits;
    } else {
      assert number[1..] == digits;
    }
  }

  lemma Signs()
    ensures Ascii("") == [] && Ascii("+") == [43] && Ascii("-") == [45]
  {}

  /** Without a digit there it throws. */
  lemma StoiRefuses(blanks: bytes, sign: string, rest: bytes)
    requires Blank(blanks) && (sign == "" || sign == "+" || sign == "-") && !StartsWithDigit(rest)
    requires sign == "" ==> rest == [] || (!Blank(rest[..1]) && rest[0] != '+' as int && rest[0] != '-' as int)
    ensures Stoi(blanks + Ascii(sign) + rest) == None
  {
    var number := Ascii(sign) + rest;
    assert blanks + Ascii(sign) + rest == blanks + number;
    if number != [] {
      assert number[..1] == [number[0]];
    }
    if sign == "" {
      assert number == rest;
    } else {
      assert number[1..] == rest;
    }
    BlanksSkipped(blanks, number);
  }

  /** Numbers are written in decimal digits. */
  lemma {:induction false} DecimalDigits(n: nat)
    ensures forall i :: 0 <= i < |Decimal(n)| ==> '0' as int <= Decimal(n)[i] <= '9' as int
    ensures Decimal(n)[|Decimal(n)| - 1] == '0' as int + n % 10
    ensures n >= 10 ==> Decimal(n)[..|Decimal(n)| - 1] == Decimal(n / 10)
    ensures n < 10 ==> |Decimal(n)| == 1
  {
    if n >= 10 {
      DecimalDigits(n / 10);
    }
  }

  /** Negative numbers have their sign in front; a bit pattern stands for one from half its range on. */
  lemma NegativeText(n: nat)
    requires 0 < n
    ensures n <= 0x8000 ==> AsString(Plain(Fixed(Int16, 0x1_0000 - n))) == Some(Ascii("-") + Decimal(n))
    ensures n <= 0x8000_0000 ==> AsString(Plain(Fixed(Int32, 0x1_0000_0000 - n))) == Some(Ascii("-") + Decimal(n))
    ensures n <= 0x8000_0000_0000_0000 ==>
      AsString(Plain(Fixed(Int64, 0x1_0000_0000_0000_0000 - n))) == Some(Ascii("-") + Decimal(n))
  {
    hide Decimal, Ascii;
    Signs();
    Ranges();
  }

  lemma PositiveText(n: nat)
    ensures AsString(Plain(Fixed(Uint16, n))) == Some(Decimal(n))
    ensures AsString(Plain(Fixed(Uint32, n))) == Some(Decimal(n))
    ensures AsString(Plain(Fixed(Uint64, n))) == Some(Decimal(n))
    ensures AsString(Plain(Boolean(n))) == Some(Decimal(n))
    ensures n < 256 ==> AsString(Plain(Byte(n))) == Some(Decimal(n))
    ensures n < 0x8000 ==> AsString(Plain(Fixed(Int16, n))) == Some(Decimal(n))
    ensures n < 0x8000_0000 ==> AsString(Plain(Fixed(Int32, n))) == Some(Decimal(n))
    ensures n < 0x8000_0000_0000_0000 ==> AsString(Plain(Fixed(Int64, n))) == Some(Decimal(n))
  {
    hide Decimal;
    Ranges();
  }

  lemma Ranges()
    ensures Pow256(2) == 0x1_0000 && Pow256(4) == 0x1_0000_0000 && Pow256(8) == 0x1_0000_0000_0000_0000
  {}

  lemma ContainerText(v: Value)
    ensures v.Array? ==> AsString(v) == Some(Ascii("[array]"))
    ensures v.Struct? ==> AsString(v) == Some(Ascii("[struct]"))
    ensures v.DictEntry? ==> AsString(v) == Some(Ascii("[DictEntry]"))
  {
    assert Ascii("[array]") == [91, 97, 114, 114, 97, 121, 93];
    assert Ascii("[struct]") == [91, 115, 116, 114, 117, 99, 116, 93];
    assert Ascii("[DictEntry]") == [91, 68, 105, 99, 116, 69, 110, 116, 114, 121, 93];
  }

  // ----- hexadecimal

  function DigitFrom(d: nat, ten: char): byte
    requires d < 16 && (ten == 'a' || ten == 'A')
  {
    if d < 10 then '0' as int + d else ten as int + (d - 10)
  }

  /** Digits are written in lower case and read in either. */
  lemma HexDigits(b: byte)
    ensures ToHex([b]) == [DigitFrom(b / 16, 'a'), DigitFrom(b % 16, 'a')]
    ensures FromHex([DigitFrom(b / 16, 'A'), DigitFrom(b % 16, 'A')]) == [b]
  {
    assert [b][1..] == [] && ToHex([]) == [];
    var pair := [DigitFrom(b / 16, 'A'), DigitFrom(b % 16, 'A')];
    assert pair[..2] == pair && pair[2..] == [];
    UpperPair(b);
    hide HexWord, DigitFrom;
    assert SkipSpace(pair) == pair;
    assert FromHex([]) == [];
  }

  lemma UpperPair(b: byte)
    ensures HexWord([DigitFrom(b / 16, 'A'), DigitFrom(b % 16, 'A')]) == b
    ensures !IsSpace(DigitFrom(b / 16, 'A')) && !IsSpace(DigitFrom(b % 16, 'A'))
  {}

  /** The value of a hexadecimal digit. */
  function DigitValue(c: char): Option<nat> {
    if '0' <= c <= '9' then Some(c as int - '0' as int)
    else if 'a' <= c <= 'f' then Some(10 + (c as int - 'a' as int))
    else if 'A' <= c <= 'F' then Some(10 + (c as int - 'A' as int))
    else None
  }

  /** The byte two characters stand for: as far as they are digits, a sign in front counts, anything else is zero. */
  function PairValue(first: char, second: char): int {
    match (DigitValue(first), DigitValue(second))
    case (Some(high), Some(low)) => 16 * high + low
    case (Some(digit), None) => digit
    case (None, Some(digit)) => if first == '+' then digit else if first == '-' then (256 - digit) % 256 else 0
    case (None, None) => 0
  }

  function SingleValue(c: char): int {
    match DigitValue(c)
    case Some(digit) => digit
    case None => 0
  }

  /** Hexadecimal text is read in pairs of characters; blanks are skipped, but end a pair after its first character. */
  lemma HexReads(blanks: bytes, first: byte, rest: bytes)
    requires Blank(blanks) && !Blank([first])
    ensures FromHex(blanks + [first] + rest)
         == if rest == [] || Blank(rest[..1]) then [SingleValue(first as char)] + FromHex(rest)
           else [PairValue(first as char, rest[0] as char)] + FromHex(rest[1..])
    ensures FromHex(blanks) == []
  {
    hide FromHex, HexWord, SkipSpace, PairValue, SingleValue;
    var t := [first] + rest;
    assert blanks + [first] + rest == blanks + t && t[..1] == [first] && t[1..] == rest;
    BlanksSkipped(blanks, t);
    BlanksSkipped(blanks, []);
    assert blanks + [] == blanks;
    NextWord(blanks);
    NextWord(blanks + t);
    WordValues(first);
    if rest != [] {
      assert rest[..1] == [rest[0]] && t[2..] == rest[1..] && t[..2] == [first, rest[0]];
      PairValues(first, rest[0]);
    }
  }

  lemma NextWord(s: bytes)
    ensures var t := SkipSpace(s);
            FromHex(s) == if t == [] then []
                          else if |t| == 1 || Blank(t[1..2]) then [HexWord(t[..1])] + FromHex(t[1..])
                          else [HexWord(t[..2])] + FromHex(t[2..])
  {
    hide HexWord, SkipSpace;
    var t := SkipSpace(s);
    if |t| > 1 {
      assert t[1..2] == [t[1]];
      BlankLetter(t[1]);
    }
  }

  lemma BlankLetter(c: byte)
    ensures Blank([c]) <==> IsSpace(c)
  {
    assert [c][0] == c;
  }

  lemma DigitsAgree(c: byte)
    ensures HexValue(c) == DigitValue(c as char)
    ensures HexValue(c).Some? ==> HexValue(c).value < 16
  {}

  lemma WordValues(first: byte)
    ensures HexWord([first]) == SingleValue(first as char)
  {
    hide HexValue, DigitValue;
    DigitsAgree(first);
  }

  lemma PairValues(first: byte, second: byte)
    ensures HexWord([first, second]) == PairValue(first as char, second as char)
  {
    hide HexValue, DigitValue;
    DigitsAgree(first);
    DigitsAgree(second);
  }

  // ----- letters

  /** The keys a dict entry is read with: the basic types and file descriptors. */
  lemma KeyLetters(c: byte)
    ensures IsValidBasicType(c) <==> c as char in "ybnqiuxtdhsog"
  {}

  /** A dict entry with another key throws, if it does not throw before that. */
  lemma OtherKeysThrow(o: Order, signature: bytes, view: bytes, pos: nat)
    requires pos <= |view| && (|signature| < 2 || signature[1] as char !in "ybnqiuxtdhsog")
    ensures UnmarshallEntry(o, signature, view, pos) == Throw
  {
    if |signature| >= 2 {
      KeyLetters(signature[1]);
    }
    hide Unmarshall, IsValidBasicType;
  }

  /** A signature that begins with none of the letters is read as nothing, without an exception. */
  lemma OtherLettersReadNothing(o: Order, signature: bytes, view: bytes, pos: nat)
    requires pos <= |view| && (signature == [] || signature[0] as char !in "ybnqiuxtdsogva({")
    ensures Unmarshall(o, signature, view, pos) == Ok(Empty, pos)
  {
    if signature != [] {
      FirstLetters(signature[0]);
    }
    hide IsBasic;
    assert !IsBasic(0) by { BasicLetters(0); }
  }

  lemma FirstLetters(c: byte)
    ensures c as char in "ybnqiuxtdsogva({"
            <==> IsBasic(c) || c == CODE_VARIANT || c == CODE_ARRAY || c == OPEN_STRUCT || c == OPEN_ENTRY
  {}
}
