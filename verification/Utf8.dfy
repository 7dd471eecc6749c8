/** `JsonParser::encode_utf8` and what makes it UTF-8: a decoder for section 3 of RFC 3629 undoes it. */
module Utf8 {
  import opened Bytes

  /** Bytes appended for code point `pt`; nothing is appended for a negative one.
      Every `|` of the source joins operands without a common bit, so it is an addition here. */
  function EncodeUtf8(pt: int): (t: bytes)
    requires pt < 0x200000
    ensures pt >= 0 ==> 1 <= |t| <= 4
  {
    if pt < 0 then
      []
    else if pt < 0x80 then
      [pt]
    else if pt < 0x800 then
      [0xC0 + pt / 64, 0x80 + pt % 64]
    else if pt < 0x10000 then
      [0xE0 + pt / 4096, 0x80 + pt / 64 % 64, 0x80 + pt % 64]
    else
      [0xF0 + pt / 262144, 0x80 + pt / 4096 % 64, 0x80 + pt / 64 % 64, 0x80 + pt % 64]
  }

  /** The examples of section 7 of RFC 3629, and one character of two bytes. */
  lemma Examples()
    ensures EncodeUtf8(0x41) == [0x41] && EncodeUtf8(0x391) == [0xCE, 0x91] && EncodeUtf8(0x2262) == [0xE2, 0x89, 0xA2]
    ensures EncodeUtf8(0xD55C) == [0xED, 0x95, 0x9C] && EncodeUtf8(0x65E5) == [0xE6, 0x97, 0xA5]
    ensures EncodeUtf8(0x233B4) == [0xF0, 0xA3, 0x8E, 0xB4] && EncodeUtf8(0xE9) == [0xC3, 0xA9]
  {
  }

  predicate IsHighSurrogate(u: int) {
    0xD800 <= u <= 0xDBFF
  }

  predicate IsLowSurrogate(u: int) {
    0xDC00 <= u <= 0xDFFF
  }

  /** Unicode scalar values: the code points UTF-8 may carry. */
  predicate IsScalar(u: int) {
    0 <= u <= 0x10FFFF && !IsHighSurrogate(u) && !IsLowSurrogate(u)
  }

  predicate IsTail(c: byte) {
    0x80 <= c <= 0xBF
  }

  /** The bits a leading byte carries above its marker. */
  function Lead(c: byte, marker: int): int {
    c - marker
  }

  /** The six bits a continuation byte carries. */
  function Low6(c: byte): (v: int)
    requires IsTail(c)
    ensures v == c - 0x80
  {
    var v: int := c;
    v - 0x80
  }

  datatype Decoded = Malformed | Decoded(scalar: nat, width: nat)

  /** The first character of `t` by the ABNF of section 4 of RFC 3629, written from the receiving side. */
  function DecodeFirst(t: bytes): (r: Decoded)
    ensures r.Decoded? ==> 1 <= r.width <= |t|
  {
    if |t| >= 1 && t[0] <= 0x7F then
      Decoded(t[0], 1)
    else if |t| >= 2 && 0xC2 <= t[0] <= 0xDF && IsTail(t[1]) then
      Decoded(64 * Lead(t[0], 0xC0) + Low6(t[1]), 2)
    else if |t| >= 3 && 0xE0 <= t[0] <= 0xEF && IsTail(t[1]) && IsTail(t[2])
            && (t[0] == 0xE0 ==> 0xA0 <= t[1]) && (t[0] == 0xED ==> t[1] <= 0x9F) then
      Decoded(4096 * Lead(t[0], 0xE0) + 64 * Low6(t[1]) + Low6(t[2]), 3)
    else if |t| >= 4 && 0xF0 <= t[0] <= 0xF4 && IsTail(t[1]) && IsTail(t[2]) && IsTail(t[3])
            && (t[0] == 0xF0 ==> 0x90 <= t[1]) && (t[0] == 0xF4 ==> t[1] <= 0x8F) then
      Decoded(262144 * Lead(t[0], 0xF0) + 4096 * Low6(t[1]) + 64 * Low6(t[2]) + Low6(t[3]), 4)
    else
      Malformed
  }

  lemma Sextets3(u: nat)
    requires u < 0x10000
    ensures u == 4096 * (u / 4096) + 64 * (u / 64 % 64) + u % 64
    ensures 0 <= u / 4096 < 16
  {
    assert u / 4096 == u / 64 / 64;
  }

  lemma Sextets4(u: nat)
    requires u <= 0x10FFFF
    ensures u == 262144 * (u / 262144) + 4096 * (u / 4096 % 64) + 64 * (u / 64 % 64) + u % 64
    ensures 0 <= u / 262144 <= 4
  {
    assert u / 4096 == u / 64 / 64;
    assert u / 262144 == u / 4096 / 64;
  }

  lemma DecodeTwo(u: nat, t: bytes)
    requires 0x80 <= u < 0x800 && |t| >= 2
    requires t[0] == 0xC0 + u / 64 && t[1] == 0x80 + u % 64
    ensures DecodeFirst(t) == Decoded(u, 2)
  {
    assert Lead(t[0], 0xC0) == u / 64 && Low6(t[1]) == u % 64;
  }

  lemma DecodeThree(u: nat, t: bytes)
    requires 0x800 <= u < 0x10000 && |t| >= 3
    requires t[0] == 0xE0 + u / 4096 && t[1] == 0x80 + u / 64 % 64 && t[2] == 0x80 + u % 64
    ensures DecodeFirst(t) == if IsScalar(u) then Decoded(u, 3) else Malformed
  {
    Sextets3(u);
    var a, b, c := u / 4096, u / 64 % 64, u % 64;
    assert Lead(t[0], 0xE0) == a && Low6(t[1]) == b && Low6(t[2]) == c;
    assert a == 0 ==> b >= 0x20;
    assert IsScalar(u) <==> !(a == 13 && b >= 0x20);
  }

  lemma DecodeFour(u: nat, t: bytes)
    requires 0x10000 <= u <= 0x10FFFF && |t| >= 4
    requires t[0] == 0xF0 + u / 262144 && t[1] == 0x80 + u / 4096 % 64
    requires t[2] == 0x80 + u / 64 % 64 && t[3] == 0x80 + u % 64
    ensures DecodeFirst(t) == Decoded(u, 4)
  {
    Sextets4(u);
    var a, b, c, d := u / 262144, u / 4096 % 64, u / 64 % 64, u % 64;
    assert Lead(t[0], 0xF0) == a && Low6(t[1]) == b && Low6(t[2]) == c && Low6(t[3]) == d;
    assert a == 0 ==> b >= 0x10;
    assert a == 4 ==> b <= 0x0F;
  }

  /** Whatever follows it, the encoding of a code point up to U+10FFFF is read back as that code point
      and nothing else exactly when the code point is a scalar value; a lone surrogate is malformed. */
  lemma EncodeDecode(u: int, rest: bytes)
    requires 0 <= u <= 0x10FFFF
    ensures DecodeFirst(EncodeUtf8(u) + rest) ==
            if IsScalar(u) then Decoded(u, |EncodeUtf8(u)|) else Malformed
  {
    var e := EncodeUtf8(u);
    var t := e + rest;
    assert forall k | 0 <= k < |e| :: t[k] == e[k];
    if u < 0x80 {
    } else if u < 0x800 {
      DecodeTwo(u, t);
    } else if u < 0x10000 {
      DecodeThree(u, t);
    } else {
      DecodeFour(u, t);
    }
  }

  /** No two scalar values share an encoding, and none is a prefix of another's. */
  lemma EncodeInjective(u: int, v: int, rest: bytes, rest': bytes)
    requires IsScalar(u) && IsScalar(v)
    requires EncodeUtf8(u) + rest == EncodeUtf8(v) + rest'
    ensures u == v && rest == rest'
  {
    EncodeDecode(u, rest);
    EncodeDecode(v, rest');
    assert rest == (EncodeUtf8(u) + rest)[|EncodeUtf8(u)|..];
    assert rest' == (EncodeUtf8(v) + rest')[|EncodeUtf8(v)|..];
  }

  /** The scalar value of a surrogate pair, as `parse_string` reassembles it. */
  function PairValue(high: int, low: int): (u: int)
    requires IsHighSurrogate(high) && IsLowSurrogate(low)
    ensures 0x10000 <= u <= 0x10FFFF
  {
    (high - 0xD800) * 1024 + (low - 0xDC00) + 0x10000
  }
}
