/** Bytes, byte order and alignment: the arithmetic below the wire format. */
module Octets {

  type byte = b: int | 0 <= b < 256
  type bytes = seq<byte>

  const WORD_LIMIT: nat := 0x1_0000_0000

  /** The byte order of a host, or of the data in a stream. */
  datatype Order = Little | Big {
    function Other(): Order {
      if Little? then Big else Little
    }
  }

  function Pow256(n: nat): (p: nat)
    ensures p > 0
  {
    if n == 0 then 1 else 256 * Pow256(n - 1)
  }

  function Zeros(n: nat): (s: bytes)
    ensures |s| == n && forall i :: 0 <= i < n ==> s[i] == 0
  {
    seq(n, _ => 0)
  }

  function Reverse(s: bytes): (r: bytes)
    ensures |r| == |s| && forall i :: 0 <= i < |s| ==> r[i] == s[|s| - 1 - i]
  {
    seq(|s|, i requires 0 <= i < |s| => s[|s| - 1 - i])
  }

  /** The n low-order bytes of v, least significant first. */
  function LittleWord(v: nat, n: nat): (s: bytes)
    ensures |s| == n
  {
    if n == 0 then [] else [v % 256] + LittleWord(v / 256, n - 1)
  }

  function LittleValue(s: bytes): nat {
    if s == [] then 0 else s[0] + 256 * LittleValue(s[1..])
  }

  /** The memory image of an n-byte integer on a host of order o, as written by `data.append((char*)&value, n)`. */
  function Word(o: Order, v: nat, n: nat): (s: bytes)
    ensures |s| == n
  {
    if o.Little? then LittleWord(v, n) else Reverse(LittleWord(v, n))
  }

  /** The integer a host of order o sees in the memory image s. */
  function WordValue(o: Order, s: bytes): nat {
    LittleValue(if o.Little? then s else Reverse(s))
  }

  /** `bswap_16`, `bswap_32` and `bswap_64`, by width. */
  function ByteSwap(v: nat, n: nat): nat {
    LittleValue(Reverse(LittleWord(v, n)))
  }

  lemma {:induction false} LittleRoundTrip(v: nat, n: nat)
    requires v < Pow256(n)
    ensures LittleValue(LittleWord(v, n)) == v
  {
    if n > 0 {
      LittleRoundTrip(v / 256, n - 1);
    }
  }

  lemma {:induction false} LittleValueBound(s: bytes)
    ensures LittleValue(s) < Pow256(|s|)
  {
    if s != [] {
      LittleValueBound(s[1..]);
    }
  }

  lemma {:induction false} LittleWordOfValue(s: bytes)
    ensures LittleWord(LittleValue(s), |s|) == s
  {
    if s != [] {
      LowByte(s[0], LittleValue(s[1..]));
      LittleWordOfValue(s[1..]);
    }
  }

  lemma LowByte(low: byte, high: nat)
    ensures (low + 256 * high) % 256 == low && (low + 256 * high) / 256 == high
  {}

  /** The bound of a 32-bit word, both ways it is written here. */
  lemma WordLimit()
    ensures Pow256(4) == WORD_LIMIT
  {}

  lemma WordRoundTrip(o: Order, v: nat, n: nat)
    requires v < Pow256(n)
    ensures WordValue(o, Word(o, v, n)) == v
  {
    LittleRoundTrip(v, n);
    assert Reverse(Reverse(LittleWord(v, n))) == LittleWord(v, n);
  }

  lemma WordOfValue(o: Order, s: bytes)
    ensures WordValue(o, s) < Pow256(|s|)
    ensures Word(o, WordValue(o, s), |s|) == s
  {
    var t := if o.Little? then s else Reverse(s);
    LittleValueBound(t);
    LittleWordOfValue(t);
    assert Reverse(Reverse(s)) == s;
  }

  /** Swapping the bytes of what a host reads gives what a host of the other order reads. */
  lemma SwapReadsOtherOrder(o: Order, s: bytes)
    ensures ByteSwap(WordValue(o, s), |s|) == WordValue(o.Other(), s)
  {
    var t := if o.Little? then s else Reverse(s);
    LittleWordOfValue(t);
    assert Reverse(Reverse(s)) == s;
  }

  /** Dropping the k low-order bytes of a little-endian word divides it by 256^k. */
  lemma {:induction false} LittleValueShift(s: bytes, k: nat)
    requires k <= |s|
    ensures LittleValue(s[k..] + Zeros(k)) == LittleValue(s) / Pow256(k)
  {
    if k == 0 {
      assert s[0..] + Zeros(0) == s;
    } else {
      LittleValueShift(s[1..], k - 1);
      assert s[1..][k - 1..] == s[k..];
      LittleValueZeroTail(s[k..] + Zeros(k - 1));
      assert s[k..] + Zeros(k - 1) + [0] == s[k..] + Zeros(k);
      DivideTwice(s[0], LittleValue(s[1..]), Pow256(k - 1));
    }
  }

  lemma {:induction false} LittleValueZeroTail(s: bytes)
    ensures LittleValue(s + [0]) == LittleValue(s)
  {
    if s == [] {
      assert s + [0] == [0];
    } else {
      LittleValueZeroTail(s[1..]);
      assert (s + [0])[1..] == s[1..] + [0];
    }
  }

  lemma DivideTwice(low: byte, high: nat, d: nat)
    requires d > 0
    ensures (low + 256 * high) / (256 * d) == high / d
  {
    var q, r := high / d, high % d;
    assert high == d * q + r;
    assert low + 256 * high == (256 * d) * q + (low + 256 * r);
    assert 0 <= low + 256 * r < 256 * d;
    QuotientUnique(low + 256 * high, 256 * d, q, low + 256 * r);
  }

  lemma QuotientUnique(n: nat, d: nat, q: nat, r: nat)
    requires d > 0 && r < d && n == d * q + r
    ensures n / d == q && n % d == r
  {
    var e := n / d - q;
    assert d * e == r - n % d by {
      assert n == d * (n / d) + n % d;
      assert d * (n / d) - d * q == d * e;
    }
    MultipleIsFar(d, e);
  }

  lemma {:induction false} MultipleIsFar(d: nat, e: int)
    requires d > 0
    ensures e > 0 ==> d * e >= d
    ensures e < 0 ==> d * e <= 0 - d
    decreases if e < 0 then -e else e
  {
    if e > 1 {
      MultipleIsFar(d, e - 1);
      assert d * e == d * (e - 1) + d;
    } else if e < -1 {
      MultipleIsFar(d, e + 1);
      assert d * e == d * (e + 1) - d;
    }
  }

  /** A word equal to itself moved up or down by k > 0 zero bytes is zero. */
  lemma ShiftedWordIsZero(w: bytes, k: nat)
    requires 0 < k <= |w|
    requires w == Zeros(k) + w[..|w| - k] || w == w[k..] + Zeros(k)
    ensures w == Zeros(|w|)
  {
    if w == Zeros(k) + w[..|w| - k] {
      ZeroUpwards(w, k, |w|);
    } else {
      var r := Reverse(w);
      assert r == Zeros(k) + r[..|r| - k] by {
        forall i | 0 <= i < |r|
          ensures r[i] == (Zeros(k) + r[..|r| - k])[i]
        {
          var j := |w| - 1 - i;
          assert w[j] == (w[k..] + Zeros(k))[j];
          if i >= k {
            assert w[j] == w[j + k];
          }
        }
      }
      ZeroUpwards(r, k, |r|);
      forall i | 0 <= i < |w|
        ensures w[i] == 0
      {
        assert r[|w| - 1 - i] == w[i];
      }
    }
  }

  lemma {:induction false} ZeroUpwards(w: bytes, k: nat, n: nat)
    requires 0 < k <= |w| && n <= |w|
    requires w == Zeros(k) + w[..|w| - k]
    ensures forall i :: 0 <= i < n ==> w[i] == 0
  {
    if n > 0 {
      ZeroUpwards(w, k, n - 1);
      assert w[n - 1] == (Zeros(k) + w[..|w| - k])[n - 1];
    }
  }

  lemma {:induction false} ZeroValue(n: nat)
    ensures LittleValue(Zeros(n)) == 0 && Reverse(Zeros(n)) == Zeros(n)
  {
    if n > 0 {
      ZeroValue(n - 1);
      assert Zeros(n)[1..] == Zeros(n - 1);
    }
  }

  lemma {:induction false} ZeroWord(o: Order, n: nat)
    ensures Word(o, 0, n) == Zeros(n)
  {
    ZeroValue(n);
    LittleWordOfValue(Zeros(n));
  }

  // ----- alignment

  /** `DBus::Utils::getPadding`: how many bytes bring `size` up to a multiple of `pad`. */
  function Padding(pad: nat, size: nat): nat {
    if pad == 0 then 0
    else
      var required := pad - size % pad;
      if required == pad then 0 else required
  }

  predicate IsAlignment(a: nat) {
    a == 1 || a == 2 || a == 4 || a == 8
  }

  /** Padding reaches the next multiple and is the least amount that does. */
  lemma PaddingFacts(a: nat, pos: nat)
    requires a > 0
    ensures Padding(a, pos) < a
    ensures (pos + Padding(a, pos)) % a == 0
    ensures Padding(a, pos) == 0 <==> pos % a == 0
  {
    var q, r := pos / a, pos % a;
    assert pos == a * q + r;
    if r > 0 {
      var n := pos + Padding(a, pos);
      assert n == a * (q + 1) by {
        assert a * (q + 1) == a * q + a;
      }
      QuotientUnique(n, a, q + 1, 0);
    }
  }

  /** The remainder modulo an alignment depends only on the remainder modulo eight. */
  lemma ModuloOfModulo(a: nat, pos: nat)
    requires IsAlignment(a)
    ensures pos % a == (pos % 8) % a
  {
    var eighths, rest := pos / 8, pos % 8;
    var steps :=
      if a == 1 then 8 * eighths else if a == 2 then 4 * eighths else if a == 4 then 2 * eighths else eighths;
    assert a * steps == 8 * eighths;
    RemainderStep(a, rest, steps);
  }

  lemma Distribute(a: nat, b: nat, c: nat)
    ensures a * (b + c) == a * b + a * c
  {}

  lemma RemainderStep(a: nat, rest: nat, steps: nat)
    requires a > 0
    ensures (rest + a * steps) % a == rest % a
  {
    var q, r := rest / a, rest % a;
    Distribute(a, q, steps);
    QuotientUnique(rest + a * steps, a, q + steps, r);
  }

  lemma PaddingCongruence(a: nat, p: nat, q: nat)
    requires IsAlignment(a) && p % 8 == q % 8
    ensures Padding(a, p) == Padding(a, q)
  {
    ModuloOfModulo(a, p);
    ModuloOfModulo(a, q);
  }

  lemma Congruent(p: nat, q: nat, n: nat)
    requires p % 8 == q % 8
    ensures (p + n) % 8 == (q + n) % 8
  {}

  // ----- text inside a longer text

  /** p stands in s at index i. */
  predicate Holds<T(==)>(s: seq<T>, i: nat, p: seq<T>) {
    i + |p| <= |s| && s[i..i + |p|] == p
  }

  lemma HoldsConcat<T>(s: seq<T>, i: nat, p: seq<T>, q: seq<T>)
    ensures Holds(s, i, p + q) <==> Holds(s, i, p) && Holds(s, i + |p|, q)
  {
    if i + |p| + |q| <= |s| {
      var both := s[i..i + |p + q|];
      assert both[..|p|] == s[i..i + |p|] && both[|p|..] == s[i + |p|..i + |p| + |q|];
      assert (p + q)[..|p|] == p && (p + q)[|p|..] == q;
      assert both == both[..|p|] + both[|p|..];
    }
  }

  lemma HoldsAt<T>(s: seq<T>, i: nat, p: seq<T>, k: nat)
    requires Holds(s, i, p) && k < |p|
    ensures s[i + k] == p[k]
  {
    assert s[i..i + |p|][k] == s[i + k];
  }

  lemma HoldsWithin<T>(s: seq<T>, k: nat, p: seq<T>, i: nat, j: nat)
    requires Holds(s, k, p) && i <= j <= |p|
    ensures s[k + i..k + j] == p[i..j]
  {
    forall x | 0 <= x < j - i
      ensures s[k + i..k + j][x] == p[i..j][x]
    {
      HoldsAt(s, k, p, i + x);
    }
  }
}
