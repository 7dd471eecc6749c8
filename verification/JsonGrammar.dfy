/** The JSON grammar of sections 2 to 7 of RFC 8259 on bytes, as syntax trees with the text each one
    stands for, and the value each one denotes. Nothing here mentions the parser. */
module JsonGrammar {
  import opened Bytes
  import opened Utf8
  import opened JsonLexemes
  import opened JsonValue

  /** One `char` production of section 7: an unescaped byte, a two-character escape, or `\uXXXX`. */
  datatype Item = Plain(b: byte) | Short(c: byte) | Unicode(h: bytes)

  datatype ExponentSyntax = NoExponent | Exponent(mark: byte, sign: bytes, digits: bytes)

  /** Section 6; an absent fraction has no digits. */
  datatype NumberSyntax = NumberSyntax(negative: bool, whole: bytes, fraction: bytes, exponent: ExponentSyntax)

  datatype Syntax =
    | NullWord
    | TrueWord
    | FalseWord
    | Number(num: NumberSyntax)
    | Chars(items: seq<Item>)
    | List(gap: bytes, elems: seq<Elem>)
    | Dict(gap: bytes, pairs: seq<Pair>)

  /** A list element with the white space around it. */
  datatype Elem = Elem(before: bytes, value: Syntax, after: bytes)

  /** An object member with the white space around its key and value. */
  datatype Pair = Pair(before: bytes, key: seq<Item>, mid: bytes, gap: bytes, value: Syntax, after: bytes)

  predicate Blank(w: bytes) {
    forall k | 0 <= k < |w| :: IsSpace(w[k])
  }

  predicate GoodItem(it: Item) {
    match it
    case Plain(b) => b >= 0x20 && b != QUOTE && b != BACKSLASH
    case Short(c) => IsShortEscape(c)
    case Unicode(h) => IsHex4(h)
  }

  predicate GoodItems(its: seq<Item>) {
    forall k | 0 <= k < |its| :: GoodItem(its[k])
  }

  predicate GoodNumber(n: NumberSyntax) {
    && n.whole != [] && AllDigits(n.whole) && (|n.whole| > 1 ==> n.whole[0] != ZERO)
    && AllDigits(n.fraction)
    && (n.exponent.Exponent? ==>
          && IsExponentMark(n.exponent.mark)
          && (n.exponent.sign == [] || (|n.exponent.sign| == 1 && IsSign(n.exponent.sign[0])))
          && n.exponent.digits != [] && AllDigits(n.exponent.digits))
  }

  predicate Good(t: Syntax)
    decreases t, 1
  {
    match t
    case Number(n) => GoodNumber(n)
    case Chars(its) => GoodItems(its)
    case List(gap, es) => Blank(gap) && GoodElems(es)
    case Dict(gap, ps) => Blank(gap) && GoodPairs(ps)
    case _ => true
  }

  predicate GoodElems(es: seq<Elem>)
    decreases es, 0
  {
    es == [] || (Blank(es[0].before) && Good(es[0].value) && Blank(es[0].after) && GoodElems(es[1..]))
  }

  predicate GoodPairs(ps: seq<Pair>)
    decreases ps, 0
  {
    ps == [] ||
    (&& Blank(ps[0].before) && GoodItems(ps[0].key) && Blank(ps[0].mid) && Blank(ps[0].gap)
     && Good(ps[0].value) && Blank(ps[0].after) && GoodPairs(ps[1..]))
  }

  // The text of a tree.

  function ItemText(it: Item): bytes {
    match it
    case Plain(b) => [b]
    case Short(c) => [BACKSLASH, c]
    case Unicode(h) => [BACKSLASH, LOWER_U] + h
  }

  function ItemsText(its: seq<Item>): bytes {
    if its == [] then [] else ItemText(its[0]) + ItemsText(its[1..])
  }

  function WholeText(n: NumberSyntax): bytes {
    (if n.negative then [MINUS] else []) + n.whole
  }

  function FractionText(n: NumberSyntax): bytes {
    if n.fraction == [] then [] else [POINT] + n.fraction
  }

  function ExponentText(e: ExponentSyntax): bytes {
    match e
    case NoExponent => []
    case Exponent(mark, sign, digits) => [mark] + sign + digits
  }

  function NumberText(n: NumberSyntax): bytes {
    WholeText(n) + FractionText(n) + ExponentText(n.exponent)
  }

  /** A string with its closing quotation mark, without the opening one. */
  function CharsText(its: seq<Item>): bytes {
    ItemsText(its) + [QUOTE]
  }

  function Text(t: Syntax): bytes
    decreases t, 1
  {
    match t
    case NullWord => NULL_TEXT
    case TrueWord => TRUE_TEXT
    case FalseWord => FALSE_TEXT
    case Number(n) => NumberText(n)
    case Chars(its) => [QUOTE] + CharsText(its)
    case List(gap, es) => [OPEN_BRACKET] + (if es == [] then gap else ElemsText(es)) + [CLOSE_BRACKET]
    case Dict(gap, ps) => [OPEN_BRACE] + (if ps == [] then gap else PairsText(ps)) + [CLOSE_BRACE]
  }

  function ElemsText(es: seq<Elem>): bytes
    decreases es, 0
  {
    if es == [] then []
    else es[0].before + (Text(es[0].value) + (es[0].after + (if |es| == 1 then [] else [COMMA] + ElemsText(es[1..]))))
  }

  function PairsText(ps: seq<Pair>): bytes
    decreases ps, 0
  {
    if ps == [] then []
    else
      ps[0].before + ([QUOTE] + (CharsText(ps[0].key) + (ps[0].mid + ([COLON] + (ps[0].gap +
      (Text(ps[0].value) + (ps[0].after + (if |ps| == 1 then [] else [COMMA] + PairsText(ps[1..])))))))))
  }

  // The value of a tree.

  /** What a string is made of once its escapes are read: bytes and 16-bit code units. */
  datatype Unit = Raw(b: byte) | Code(u: nat)

  function ItemUnit(it: Item): Unit
    requires GoodItem(it)
  {
    match it
    case Plain(b) => Raw(b)
    case Short(c) => Raw(ShortEscapeValue(c))
    case Unicode(h) => Code(Hex4(h))
  }

  function Units(its: seq<Item>): (us: seq<Unit>)
    requires GoodItems(its)
    ensures GoodUnits(us)
  {
    if its == [] then [] else [ItemUnit(its[0])] + Units(its[1..])
  }

  predicate GoodUnits(us: seq<Unit>) {
    forall k | 0 <= k < |us| :: us[k].Code? ==> us[k].u < 0x10000
  }

  /** Section 7: a code unit that starts a surrogate pair is joined to the next one, every other is a
      character by itself. */
  function Join(us: seq<Unit>): bytes
    requires GoodUnits(us)
  {
    if us == [] then []
    else
      match us[0]
      case Raw(b) => [b] + Join(us[1..])
      case Code(u) =>
        if IsHighSurrogate(u) && |us| > 1 && us[1].Code? && IsLowSurrogate(us[1].u) then
          EncodeUtf8(PairValue(u, us[1].u)) + Join(us[2..])
        else
          EncodeUtf8(u) + Join(us[1..])
  }

  function StringValue(its: seq<Item>): bytes
    requires GoodItems(its)
  {
    Join(Units(its))
  }

  function ExponentValue(e: ExponentSyntax): int {
    match e
    case NoExponent => 0
    case Exponent(_, sign, digits) =>
      if sign == [MINUS] then -NatOf(digits) else NatOf(digits)
  }

  /** json11 keeps a literal of at most nine characters without fraction and exponent as an `int`, and
      every other one as a double. */
  predicate IsInt(n: NumberSyntax) {
    n.fraction == [] && n.exponent.NoExponent? && |WholeText(n)| <= DIGITS10
  }

  function IntValue(n: NumberSyntax): int {
    if n.negative then -NatOf(n.whole) else NatOf(n.whole)
  }

  function NumberJson(n: NumberSyntax): Json
    requires GoodNumber(n)
  {
    if IsInt(n) then
      IntValueRange(n);
      Int(IntValue(n) as int32)
    else
      Double(LiteralValue(n.negative, n.whole, n.fraction, ExponentValue(n.exponent)))
  }

  lemma IntValueRange(n: NumberSyntax)
    requires GoodNumber(n) && IsInt(n)
    ensures -0x8000_0000 <= IntValue(n) < 0x8000_0000
  {
    NatOfBound(n.whole);
    Pow10Monotone(|n.whole|, 9);
    assert Pow10(9) == 1_000_000_000;
  }

  function Eval(t: Syntax): Json
    requires Good(t)
    decreases t, 1
  {
    match t
    case NullWord => Null
    case TrueWord => Bool(true)
    case FalseWord => Bool(false)
    case Number(n) => NumberJson(n)
    case Chars(its) => String(StringValue(its))
    case List(_, es) => Array(EvalElems(es))
    case Dict(_, ps) => Object(EvalPairs(ps, []))
  }

  function EvalElems(es: seq<Elem>): seq<Json>
    requires GoodElems(es)
    decreases es, 0
  {
    if es == [] then [] else [Eval(es[0].value)] + EvalElems(es[1..])
  }

  /** Members are stored one after the other, so a repeated name keeps its last value. */
  function EvalPairs(ps: seq<Pair>, data: seq<Member>): seq<Member>
    requires GoodPairs(ps)
    decreases ps, 0
  {
    if ps == [] then data
    else EvalPairs(ps[1..], Put(data, StringValue(ps[0].key), Eval(ps[0].value)))
  }

  /** Nesting of a text; scalars and empty containers have height 0. */
  function Nesting(t: Syntax): nat
    decreases t, 1
  {
    match t
    case List(_, es) => ElemsNesting(es)
    case Dict(_, ps) => PairsNesting(ps)
    case _ => 0
  }

  function ElemsNesting(es: seq<Elem>): nat
    decreases es, 0
  {
    if es == [] then 0 else Max(1 + Nesting(es[0].value), ElemsNesting(es[1..]))
  }

  function PairsNesting(ps: seq<Pair>): nat
    decreases ps, 0
  {
    if ps == [] then 0 else Max(1 + Nesting(ps[0].value), PairsNesting(ps[1..]))
  }
}
