/**
 * Numbers as text. The source turns header numbers into decimal text and back through `std::stoi`,
 * and the handshake writes its identity in hexadecimal.
 */
module Numerals {
  import opened Wrappers
  import opened Octets
  import opened Values

  const INT_LIMIT: nat := 0x8000_0000

  predicate IsSpace(c: byte) {
    9 <= c <= 13 || c == 32
  }

  predicate IsDigit(c: byte) {
    48 <= c <= 57
  }

  function SkipSpace(s: bytes): (t: bytes)
    ensures |t| <= |s| && (t != [] ==> !IsSpace(t[0]))
  {
    if s != [] && IsSpace(s[0]) then SkipSpace(s[1..]) else s
  }

  // ----- decimal

  function Decimal(n: nat): (s: bytes)
    ensures s != [] && IsDigit(s[0])
  {
    if n < 10 then [48 + n] else Decimal(n / 10) + [48 + n % 10]
  }

  function SignedDecimal(n: int): bytes {
    if n < 0 then [45] + Decimal(-n) else Decimal(n)
  }

  /** The number the leading digits of s continue, after the digits of `high`. */
  function LeadingNumber(s: bytes, high: nat): nat {
    if s != [] && IsDigit(s[0]) then LeadingNumber(s[1..], 10 * high + (s[0] - 48)) else high
  }

  /** `std::stoi`: blanks, a sign, digits; what follows is ignored. None where it throws. */
  function Stoi(s: bytes): Option<int> {
    var t := SkipSpace(s);
    var negative := t != [] && t[0] == 45;
    var u := if t != [] && (t[0] == 45 || t[0] == 43) then t[1..] else t;
    if u == [] || !IsDigit(u[0]) then None
    else
      var n: int := LeadingNumber(u, 0);
      if n < INT_LIMIT || (negative && n == INT_LIMIT) then Some(if negative then -n else n) else None
  }

  lemma {:induction false} LeadingNumberOfDecimal(n: nat, rest: bytes)
    ensures LeadingNumber(Decimal(n) + rest, 0) == LeadingNumber(rest, n)
  {
    if n < 10 {
      assert ([48 + n] + rest)[1..] == rest;
    } else {
      var last: bytes := [48 + n % 10];
      LeadingNumberOfDecimal(n / 10, last + rest);
      assert Decimal(n) + rest == Decimal(n / 10) + (last + rest);
      assert (last + rest)[1..] == rest;
    }
  }

  /** A number written out and read with `stoi` comes back exactly when it fits a 32-bit signed integer. */
  lemma StoiOfDecimal(n: nat)
    ensures Stoi(Decimal(n)) == if n < INT_LIMIT then Some(n) else None
  {
    LeadingNumberOfDecimal(n, []);
    assert Decimal(n) + [] == Decimal(n);
  }

  // ----- values as text and numbers

  /** The two's-complement reading of a bit pattern. */
  function Signed(bits: nat, width: nat): int {
    if 2 * bits >= Pow256(width) then bits - Pow256(width) else bits
  }

  function BasicText(b: BasicValue): Option<bytes> {
    match b
    case Byte(x) => Some(Decimal(x))
    case Boolean(word) => Some(Decimal(word))
    case Fixed(kind, bits) =>
      if kind.Int16? || kind.Int32? || kind.Int64? then Some(SignedDecimal(Signed(bits, kind.Width())))
      else Some(Decimal(bits))
    case Double(_) => None
    case String(text) => Some(text)
    case ObjectPath(text) => Some(text)
    case Signature(text) => Some(text)
  }

  /** `asString`. None for a double, whose formatting is not modelled. */
  function AsString(v: Value): Option<bytes> {
    match v
    case Empty => Some([])
    case Plain(basic) => BasicText(basic)
    case Array(_, _) => Some([91, 97, 114, 114, 97, 121, 93])                               // [array]
    case Struct(_) => Some([91, 115, 116, 114, 117, 99, 116, 93])                           // [struct]
    case DictEntry(_, _, _) => Some([91, 68, 105, 99, 116, 69, 110, 116, 114, 121, 93])     // [DictEntry]
    case Variant(_, value) => AsString(value)
  }

  /** `asUint32` and `asByte` of a text: `stoi`, cut to the width of the result. */
  function NumberIn(text: bytes, limit: nat): Option<nat>
    requires limit > 0
  {
    match Stoi(text)
    case Some(n) => Some(n % limit)
    case None => None
  }

  // ----- hexadecimal

  function HexDigit(d: nat): byte
    requires d < 16
  {
    if d < 10 then 48 + d else 87 + d
  }

  function ToHex(s: bytes): bytes {
    if s == [] then [] else [HexDigit(s[0] / 16), HexDigit(s[0] % 16)] + ToHex(s[1..])
  }

  function HexValue(c: byte): Option<nat> {
    if 48 <= c <= 57 then Some(c - 48)
    else if 97 <= c <= 102 then Some(c - 87)
    else if 65 <= c <= 70 then Some(c - 55)
    else None
  }

  /** One word of at most two characters, extracted as a hexadecimal `uint16_t` and cut to a byte: 0 if nothing fits. */
  function HexWord(w: bytes): byte
    requires 1 <= |w| <= 2
  {
    match HexValue(w[0])
    case Some(high) =>
      if |w| == 2 && HexValue(w[1]).Some? then (16 * high + HexValue(w[1]).value) % 256 else high % 256
    case None =>
      if |w| == 2 && w[0] == 45 && HexValue(w[1]).Some? then (256 - HexValue(w[1]).value) % 256
      else if |w| == 2 && w[0] == 43 && HexValue(w[1]).Some? then HexValue(w[1]).value % 256
      else 0
  }

  function FromHex(s: bytes): bytes
    decreases |s|
  {
    var t := SkipSpace(s);
    if t == [] then []
    else
      var n := if |t| > 1 && !IsSpace(t[1]) then 2 else 1;
      [HexWord(t[..n])] + FromHex(t[n..])
  }

  lemma {:induction false} HexRoundTrip(s: bytes)
    ensures FromHex(ToHex(s)) == s
  {
    if s != [] {
      var pair := [HexDigit(s[0] / 16), HexDigit(s[0] % 16)];
      var t := ToHex(s);
      assert t[..2] == pair && t[2..] == ToHex(s[1..]);
      HexPair(s[0]);
      HexRoundTrip(s[1..]);
      hide HexWord, HexDigit, ToHex;
      assert SkipSpace(t) == t;
    }
  }

  lemma HexPair(b: byte)
    ensures HexWord([HexDigit(b / 16), HexDigit(b % 16)]) == b
    ensures !IsSpace(HexDigit(b / 16)) && !IsSpace(HexDigit(b % 16))
  {}

  /** `ConvertBinaryToHexString`. */
  method ConvertBinaryToHexString(result: bytes, input: bytes) returns (hex: bytes)
    ensures hex == result + ToHex(input)
  {
    hex := result;
    assert input[0..] == input;
    for i := 0 to |input|
      invariant hex + ToHex(input[i..]) == result + ToHex(input)
    {
      assert input[i..][0] == input[i] && input[i..][1..] == input[i + 1..];
      hex := hex + [HexDigit(input[i] / 16), HexDigit(input[i] % 16)];
    }
  }

  /** `ConvertHexStringToBinary`. */
  method ConvertHexStringToBinary(result: bytes, input: bytes) returns (binary: bytes)
    ensures binary == result + FromHex(input)
  {
    binary := result;
    var ss := SkipSpace(input);
    SkipSpaceTwice(input);
    while ss != []
      invariant ss == SkipSpace(ss)
      invariant binary + FromHex(ss) == result + FromHex(input)
      decreases |ss|
    {
      var n := if |ss| > 1 && !IsSpace(ss[1]) then 2 else 1;
      binary := binary + [HexWord(ss[..n])];
      SkipSpaceTwice(ss[n..]);
      ss := SkipSpace(ss[n..]);
    }
  }

  lemma SkipSpaceTwice(s: bytes)
    ensures SkipSpace(SkipSpace(s)) == SkipSpace(s)
    ensures FromHex(SkipSpace(s)) == FromHex(s)
  {}
}
