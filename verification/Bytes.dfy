/** Byte strings as `std::string` holds them, and the decimal and hexadecimal numerals printed into them. */
module Bytes {
  type byte = b: int | 0 <= b < 256
  type bytes = seq<byte>

  /** The bytes of a text of seven-bit characters; any other one is a question mark. */
  function Ascii(text: string): (t: bytes)
    ensures |t| == |text| && forall k | 0 <= k < |t| && text[k] as int < 128 :: t[k] == text[k] as int
  {
    seq(|text|, k requires 0 <= k < |text| => if text[k] as int < 128 then text[k] as int else 0x3F)
  }

  /** The parts one after the other, with `separator` between them. */
  function Joined(parts: seq<bytes>, separator: bytes): bytes {
    if parts == [] then []
    else if |parts| == 1 then parts[0]
    else parts[0] + separator + Joined(parts[1..], separator)
  }

  lemma {:induction false} JoinedLast(parts: seq<bytes>, last: bytes, separator: bytes)
    ensures Joined(parts + [last], separator) ==
            if parts == [] then last else Joined(parts, separator) + separator + last
  {
    if parts == [] {
      assert parts + [last] == [last];
    } else {
      assert (parts + [last])[1..] == parts[1..] + [last];
      JoinedLast(parts[1..], last, separator);
    }
  }

  /** `str[i]`: reading a `std::string` at its size gives the terminating NUL. */
  function CharAt(s: bytes, i: nat): byte {
    if i < |s| then s[i] else 0
  }

  lemma Regroup<T>(a: seq<T>, b: seq<T>, c: seq<T>)
    ensures a + (b + c) == a + b + c
  {
  }

  /** `t` occurs in `s` at index `i`. */
  predicate At(s: bytes, i: nat, t: bytes) {
    i + |t| <= |s| && s[i..i + |t|] == t
  }

  lemma AtConcat(s: bytes, i: nat, a: bytes, b: bytes)
    ensures At(s, i, a + b) <==> At(s, i, a) && At(s, i + |a|, b)
  {
    if At(s, i, a + b) {
      assert s[i..i + |a|] == s[i..i + |a + b|][..|a|] == a;
      assert s[i + |a|..i + |a| + |b|] == s[i..i + |a + b|][|a|..] == b;
    }
    if At(s, i, a) && At(s, i + |a|, b) {
      assert s[i..i + |a + b|] == s[i..i + |a|] + s[i + |a|..i + |a| + |b|];
    }
  }

  lemma AtHead(s: bytes, i: nat, t: bytes)
    requires At(s, i, t) && t != []
    ensures i < |s| && s[i] == t[0] && At(s, i + 1, t[1..])
  {
    assert s[i] == s[i..i + |t|][0];
    assert [t[0]] + t[1..] == t;
    AtConcat(s, i, [t[0]], t[1..]);
  }

  /** A text in four parts, which end at `j`, `k` and `l`. */
  lemma AtParts(s: bytes, i: nat, t: bytes, a: bytes, j: nat, b: bytes, k: nat, c: bytes, l: nat, d: bytes)
    requires At(s, i, t) && t == a + (b + (c + d)) && j == i + |a| && k == j + |b| && l == k + |c|
    ensures At(s, i, a) && At(s, j, b) && At(s, k, c) && At(s, l, d)
  {
    AtConcat(s, i, a, b + (c + d));
    AtConcat(s, j, b, c + d);
    AtConcat(s, k, c, d);
  }

  /** A text in two parts, the first of which ends at `j`. */
  lemma AtSplit(s: bytes, i: nat, t: bytes, a: bytes, j: nat, b: bytes)
    requires At(s, i, t) && t == a + b && j == i + |a|
    ensures At(s, i, a) && At(s, j, b)
  {
    AtConcat(s, i, a, b);
  }

  lemma AtJoin(s: bytes, i: nat, a: bytes, j: nat, b: bytes)
    requires At(s, i, a) && j == i + |a| && At(s, j, b)
    ensures At(s, i, a + b)
  {
    AtConcat(s, i, a, b);
  }

  lemma AtJoin4(s: bytes, i: nat, a: bytes, j: nat, b: bytes, k: nat, c: bytes, l: nat, d: bytes)
    requires At(s, i, a) && j == i + |a| && At(s, j, b) && k == j + |b| && At(s, k, c) && l == k + |c| && At(s, l, d)
    ensures At(s, i, a + (b + (c + d)))
  {
    AtJoin(s, k, c, l, d);
    AtJoin(s, j, b, k, c + d);
    AtJoin(s, i, a, j, b + (c + d));
  }

  lemma AtOne(s: bytes, i: nat, c: byte)
    requires CharIs(s, i, c)
    ensures At(s, i, [c])
  {
    assert s[i..i + 1] == [c];
  }

  /** The byte at `i` is `c`. */
  predicate CharIs(s: bytes, i: nat, c: byte) {
    i < |s| && s[i] == c
  }

  /** A text that starts with the byte `c`. */
  lemma AtByte(s: bytes, i: nat, t: bytes, c: byte, j: nat, rest: bytes)
    requires At(s, i, t) && t == [c] + rest && j == i + 1
    ensures CharIs(s, i, c) && At(s, j, rest)
  {
    AtHead(s, i, t);
    assert t[1..] == rest;
  }

  predicate IsDigit(c: byte) {
    0x30 <= c <= 0x39
  }

  predicate AllDigits(t: bytes) {
    forall k | 0 <= k < |t| :: IsDigit(t[k])
  }

  /** The number a string of decimal digits denotes. */
  function NatOf(t: bytes): int {
    if t == [] then 0 else 10 * NatOf(t[..|t| - 1]) + t[|t| - 1] - 0x30
  }

  /** The decimal numeral that `%d`, `%u` and `operator<<` print for a non-negative number. */
  function Decimal(n: nat): (t: bytes)
    ensures t != [] && AllDigits(t)
    ensures |t| > 1 ==> t[0] != 0x30
    ensures t[0] == 0x30 <==> n == 0
  {
    if n < 10 then [0x30 + n] else Decimal(n / 10) + [0x30 + n % 10]
  }

  lemma {:induction false} NatOfDecimal(n: nat)
    ensures NatOf(Decimal(n)) == n
  {
    if n >= 10 {
      NatOfDecimal(n / 10);
      assert Decimal(n)[..|Decimal(n)| - 1] == Decimal(n / 10);
    }
  }

  function Pow10(k: nat): (p: nat)
    ensures p >= 1
  {
    if k == 0 then 1 else 10 * Pow10(k - 1)
  }

  /** A numeral of at most `k` digits is below 10^k. */
  lemma {:induction false} NatOfBound(t: bytes)
    requires AllDigits(t)
    ensures 0 <= NatOf(t) < Pow10(|t|)
  {
    if t != [] {
      NatOfBound(t[..|t| - 1]);
    }
  }

  lemma {:induction false} Pow10Monotone(j: nat, k: nat)
    requires j <= k
    ensures Pow10(j) <= Pow10(k)
    decreases k
  {
    if j < k {
      Pow10Monotone(j, k - 1);
    }
  }

  predicate IsHexDigit(c: byte) {
    0x61 <= c <= 0x66 || 0x41 <= c <= 0x46 || IsDigit(c)
  }

  function HexValue(c: byte): (v: nat)
    requires IsHexDigit(c)
    ensures v < 16
  {
    if IsDigit(c) then c - 0x30 else if c >= 0x61 then c - 0x61 + 10 else c - 0x41 + 10
  }

  /** The lower-case hexadecimal digit that `%x` and `std::hex` print. */
  function HexDigit(v: nat): (c: byte)
    requires v < 16
    ensures IsHexDigit(c) && HexValue(c) == v
  {
    if v < 10 then 0x30 + v else 0x61 + (v - 10)
  }

  predicate IsHex4(h: bytes) {
    |h| == 4 && forall k | 0 <= k < 4 :: IsHexDigit(h[k])
  }

  /** `strtol(h, nullptr, 16)` on four hexadecimal digits. */
  function Hex4(h: bytes): (u: nat)
    requires IsHex4(h)
    ensures u < 0x10000
  {
    ((HexValue(h[0]) * 16 + HexValue(h[1])) * 16 + HexValue(h[2])) * 16 + HexValue(h[3])
  }
}
