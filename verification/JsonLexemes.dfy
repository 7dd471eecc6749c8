/** The lexical classes of JSON that the parser, the grammar and the printer share. */
module JsonLexemes {
  import opened Bytes

  const QUOTE: byte := 0x22
  const BACKSLASH: byte := 0x5C
  const OPEN_BRACE: byte := 0x7B
  const CLOSE_BRACE: byte := 0x7D
  const OPEN_BRACKET: byte := 0x5B
  const CLOSE_BRACKET: byte := 0x5D
  const COMMA: byte := 0x2C
  const COLON: byte := 0x3A
  const MINUS: byte := 0x2D
  const POINT: byte := 0x2E
  const ZERO: byte := 0x30
  const LOWER_U: byte := 0x75

  predicate IsSpace(c: byte) {
    c == 0x20 || c == 0x0D || c == 0x0A || c == 0x09
  }

  predicate IsShortEscape(c: byte) {
    c == 0x62 || c == 0x66 || c == 0x6E || c == 0x72 || c == 0x74 || c == QUOTE || c == BACKSLASH || c == 0x2F
  }

  /** The byte a two-character escape stands for. */
  function ShortEscapeValue(c: byte): byte {
    if c == 0x62 then 0x08
    else if c == 0x66 then 0x0C
    else if c == 0x6E then 0x0A
    else if c == 0x72 then 0x0D
    else if c == 0x74 then 0x09
    else c
  }

  predicate IsExponentMark(c: byte) {
    c == 0x65 || c == 0x45
  }

  predicate IsSign(c: byte) {
    c == 0x2B || c == MINUS
  }

  function RealPow10(e: int): real {
    if e >= 0 then Pow10(e) as real else 1.0 / Pow10(-e) as real
  }

  /** The number a literal with these parts denotes. */
  function LiteralValue(negative: bool, whole: bytes, fraction: bytes, exponent: int): real
  {
    var magnitude := (NatOf(whole) as real + NatOf(fraction) as real / Pow10(|fraction|) as real)
                     * RealPow10(exponent);
    if negative then -magnitude else magnitude
  }

  /** `numeric_limits<int>::digits10`. */
  const DIGITS10: nat := 9

  const TRUE_TEXT: bytes := [0x74, 0x72, LOWER_U, 0x65]
  const FALSE_TEXT: bytes := [0x66, 0x61, 0x6C, 0x73, 0x65]
  const NULL_TEXT: bytes := [0x6E, LOWER_U, 0x6C, 0x6C]
}
