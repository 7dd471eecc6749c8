/** What one pass of `JsonParser` over an input computes: the value read and the index after it, or the
    first failure. The methods of module JsonParser are proved against these functions, and module
    JsonGrammar relates them to the grammar. */
module JsonScan {
  import opened Bytes
  import opened Utf8
  import opened JsonLexemes
  import opened JsonValue

  const MAX_DEPTH: nat := 200

  /** The messages given to `fail`, with the parts of the input they quote. */
  datatype Error =
    | UnexpectedEnd
    | UnexpectedEndInString
    | UnescapedControl(c: byte)
    | BadUnicodeEscape(text: bytes)
    | InvalidEscape(c: byte)
    | LeadingZero
    | InvalidInNumber(c: byte)
    | FractionDigitRequired
    | ExponentDigitRequired
    | ExpectedWord(expected: bytes, got: bytes)
    | TooDeep
    | ExpectedKey(c: byte)
    | ExpectedColon(c: byte)
    | ExpectedCommaInObject(c: byte)
    | ExpectedCommaInList(c: byte)
    | ExpectedValue(c: byte)
    | TrailingInput(c: byte)

  datatype Scan<+T> = Ok(value: T, next: nat) | Fail(error: Error)

  /** Index reached by `consume_whitespace`. */
  function SkipSpace(s: bytes, i: nat): (j: nat)
    requires i <= |s|
    ensures i <= j <= |s|
    decreases |s| - i
  {
    if IsSpace(CharAt(s, i)) then SkipSpace(s, i + 1) else i
  }

  /** `get_next_token`. */
  function NextToken(s: bytes, i: nat): (r: Scan<byte>)
    requires i <= |s|
    ensures r.Ok? ==> i < r.next <= |s| && s[r.next - 1] == r.value
  {
    var j := SkipSpace(s, i);
    if j == |s| then Fail(UnexpectedEnd) else Ok(s[j], j + 1)
  }

  /** `str.substr(i, n)`. */
  function Substr(s: bytes, i: nat, n: nat): bytes
    requires i <= |s|
  {
    if i + n <= |s| then s[i..i + n] else s[i..]
  }

  /** The rest of `parse_string` once `out` has been produced and `last` is the escaped code point still
      held back, -1 for none. */
  function StringFrom(s: bytes, i: nat, out: bytes, last: int): (r: Scan<bytes>)
    requires i <= |s| && -1 <= last < 0x10000
    ensures r.Ok? ==> i < r.next <= |s|
    decreases |s| - i
  {
    if i == |s| then Fail(UnexpectedEndInString)
    else if s[i] == QUOTE then Ok(out + EncodeUtf8(last), i + 1)
    else if s[i] <= 0x1F then Fail(UnescapedControl(s[i]))
    else if s[i] != BACKSLASH then StringFrom(s, i + 1, out + EncodeUtf8(last) + [s[i]], -1)
    else if i + 1 == |s| then Fail(UnexpectedEndInString)
    else if s[i + 1] == LOWER_U then
      var h := Substr(s, i + 2, 4);
      if !IsHex4(h) then Fail(BadUnicodeEscape(h))
      else if IsHighSurrogate(last) && IsLowSurrogate(Hex4(h)) then
        StringFrom(s, i + 6, out + EncodeUtf8(PairValue(last, Hex4(h))), -1)
      else
        StringFrom(s, i + 6, out + EncodeUtf8(last), Hex4(h))
    else if IsShortEscape(s[i + 1]) then
      StringFrom(s, i + 2, out + EncodeUtf8(last) + [ShortEscapeValue(s[i + 1])], -1)
    else Fail(InvalidEscape(s[i + 1]))
  }

  /** `parse_string`, started after the opening quotation mark. */
  function StringAt(s: bytes, i: nat): Scan<bytes>
    requires i <= |s|
  {
    StringFrom(s, i, [], -1)
  }

  /** Where `parse_string` leaves the cursor, whether it succeeds or fails. */
  function StringStop(s: bytes, i: nat): (j: nat)
    requires i <= |s|
    ensures i <= j <= |s|
    decreases |s| - i
  {
    if i == |s| then i
    else if s[i] == QUOTE || s[i] <= 0x1F then i + 1
    else if s[i] != BACKSLASH then StringStop(s, i + 1)
    else if i + 1 == |s| then i + 1
    else if s[i + 1] == LOWER_U then
      if IsHex4(Substr(s, i + 2, 4)) then StringStop(s, i + 6) else i + 2
    else if IsShortEscape(s[i + 1]) then StringStop(s, i + 2)
    else i + 2
  }

  /** Index after a run of digits. */
  function DigitsEnd(s: bytes, i: nat): (j: nat)
    requires i <= |s|
    ensures i <= j <= |s|
    decreases |s| - i
  {
    if IsDigit(CharAt(s, i)) then DigitsEnd(s, i + 1) else i
  }

  lemma {:induction false} DigitsRun(s: bytes, i: nat)
    requires i <= |s|
    ensures AllDigits(s[i..DigitsEnd(s, i)]) && !IsDigit(CharAt(s, DigitsEnd(s, i)))
    decreases |s| - i
  {
    if IsDigit(CharAt(s, i)) {
      DigitsRun(s, i + 1);
      assert s[i..DigitsEnd(s, i)] == [s[i]] + s[i + 1..DigitsEnd(s, i)];
    }
  }

  /** The sign, integer digits, fraction digits and exponent of the longest decimal literal at `i`. */
  function LiteralFrom(t: bytes, i: nat): (bool, bytes, bytes, int)
    requires i <= |t|
  {
    var a := if CharAt(t, i) == MINUS then i + 1 else i;
    var b := DigitsEnd(t, a);
    var c := if CharAt(t, b) == POINT then DigitsEnd(t, b + 1) else b;
    (CharAt(t, i) == MINUS, t[a..b], if c == b then [] else t[b + 1..c], ExponentOf(t, c))
  }

  /** `std::strtod` on a decimal literal, before rounding to a double. */
  function Strtod(t: bytes): real {
    var (negative, whole, fraction, exponent) := LiteralFrom(t, 0);
    LiteralValue(negative, whole, fraction, exponent)
  }

  /** The exponent of a literal whose exponent mark, if any, stands at `c`. */
  function ExponentOf(t: bytes, c: nat): int
    requires c <= |t|
  {
    if !IsExponentMark(CharAt(t, c)) then 0
    else
      var d := if IsSign(CharAt(t, c + 1)) then c + 2 else c + 1;
      var power := NatOf(t[d..DigitsEnd(t, d)]);
      if CharAt(t, c + 1) == MINUS then -power else power
  }

  /** `std::atoi`, for text whose digits stay within an `int`. */
  function Atoi(t: bytes): int {
    var a := if CharAt(t, 0) == MINUS then 1 else 0;
    var n := NatOf(t[a..DigitsEnd(t, a)]);
    if a == 1 then -n else n
  }

  /** `atoi` is only given texts of at most nine characters, so its result is an `int`. */
  lemma AtoiRange(t: bytes)
    requires |t| <= DIGITS10
    ensures -0x8000_0000 <= Atoi(t) < 0x8000_0000
  {
    var a := if CharAt(t, 0) == MINUS then 1 else 0;
    var d := t[a..DigitsEnd(t, a)];
    DigitsRun(t, a);
    NatOfBound(d);
    Pow10Monotone(|d|, 9);
    assert Pow10(9) == 1_000_000_000;
  }

  /** The sign and integer part of a number that starts at `i`. */
  function WholeEnd(s: bytes, i: nat): (r: Scan<()>)
    requires i <= |s|
    ensures r.Ok? ==> i < r.next <= |s|
  {
    var a := if CharAt(s, i) == MINUS then i + 1 else i;
    if CharAt(s, a) == ZERO then
      if IsDigit(CharAt(s, a + 1)) then Fail(LeadingZero) else Ok((), a + 1)
    else if IsDigit(CharAt(s, a)) then Ok((), DigitsEnd(s, a + 1))
    else Fail(InvalidInNumber(CharAt(s, a)))
  }

  /** The fraction, if a point stands at `b`. */
  function FractionEnd(s: bytes, b: nat): (r: Scan<()>)
    requires b <= |s|
    ensures r.Ok? ==> b <= r.next <= |s|
  {
    if CharAt(s, b) != POINT then Ok((), b)
    else if !IsDigit(CharAt(s, b + 1)) then Fail(FractionDigitRequired)
    else Ok((), DigitsEnd(s, b + 1))
  }

  /** The exponent, if an exponent mark stands at `c`. */
  function ExponentEnd(s: bytes, c: nat): (r: Scan<()>)
    requires c <= |s|
    ensures r.Ok? ==> c <= r.next <= |s|
  {
    if !IsExponentMark(CharAt(s, c)) then Ok((), c)
    else
      var d := if IsSign(CharAt(s, c + 1)) then c + 2 else c + 1;
      if !IsDigit(CharAt(s, d)) then Fail(ExponentDigitRequired) else Ok((), DigitsEnd(s, d))
  }

  /** No fraction or exponent follows and the text so far fits an `int`. */
  predicate IsShortInt(s: bytes, i: nat, b: nat) {
    CharAt(s, b) != POINT && !IsExponentMark(CharAt(s, b)) && b - i <= DIGITS10
  }

  function IntOf(t: bytes): Json
    requires |t| <= DIGITS10
  {
    AtoiRange(t);
    Int(Atoi(t) as int32)
  }

  /** `parse_number`, started on its first character. */
  function NumberAt(s: bytes, i: nat): (r: Scan<Json>)
    requires i <= |s|
    ensures r.Ok? ==> i < r.next <= |s|
  {
    match WholeEnd(s, i)
    case Fail(e) => Fail(e)
    case Ok(_, b) =>
      if IsShortInt(s, i, b) then Ok(IntOf(s[i..b]), b)
      else
        match FractionEnd(s, b)
        case Fail(e) => Fail(e)
        case Ok(_, c) =>
          match ExponentEnd(s, c)
          case Fail(e) => Fail(e)
          case Ok(_, d) => Ok(Double(Strtod(s[i..d])), d)
  }

  /** `expect`, with `i` the index of the character just read. */
  function WordAt(s: bytes, i: nat, expected: bytes, res: Json): (r: Scan<Json>)
    requires i <= |s|
    ensures r.Ok? ==> r.next == i + |expected| <= |s|
  {
    if At(s, i, expected) then Ok(res, i + |expected|)
    else Fail(ExpectedWord(expected, Substr(s, i, |expected|)))
  }

  function DepthLeft(depth: nat): nat {
    if depth > MAX_DEPTH then 0 else MAX_DEPTH + 1 - depth
  }

  /** `parse_json(depth)`. */
  function ValueAt(s: bytes, i: nat, depth: nat): (r: Scan<Json>)
    requires i <= |s|
    ensures r.Ok? ==> i < r.next <= |s|
    decreases DepthLeft(depth), |s| + 1
  {
    if depth > MAX_DEPTH then Fail(TooDeep)
    else
      match NextToken(s, i)
      case Fail(e) => Fail(e)
      case Ok(ch, j) =>
        if ch == MINUS || IsDigit(ch) then NumberAt(s, j - 1)
        else if ch == 0x74 then WordAt(s, j - 1, TRUE_TEXT, Bool(true))
        else if ch == 0x66 then WordAt(s, j - 1, FALSE_TEXT, Bool(false))
        else if ch == 0x6E then WordAt(s, j - 1, NULL_TEXT, Null)
        else if ch == QUOTE then
          (match StringAt(s, j)
           case Fail(e) => Fail(e)
           case Ok(t, k) => Ok(String(t), k))
        else if ch == OPEN_BRACE then ObjectAt(s, j, depth)
        else if ch == OPEN_BRACKET then ArrayAt(s, j, depth)
        else Fail(ExpectedValue(ch))
  }

  /** The object branch, after the opening brace. */
  function ObjectAt(s: bytes, i: nat, depth: nat): (r: Scan<Json>)
    requires i <= |s| && depth <= MAX_DEPTH
    ensures r.Ok? ==> i < r.next <= |s|
    decreases DepthLeft(depth), |s| - i, 1
  {
    match NextToken(s, i)
    case Fail(e) => Fail(e)
    case Ok(c, j) => if c == CLOSE_BRACE then Ok(Object([]), j) else MembersFrom(s, j, c, depth, [])
  }

  /** The array branch, after the opening bracket. */
  function ArrayAt(s: bytes, i: nat, depth: nat): (r: Scan<Json>)
    requires i <= |s| && depth <= MAX_DEPTH
    ensures r.Ok? ==> i < r.next <= |s|
    decreases DepthLeft(depth), |s| - i, 1
  {
    match NextToken(s, i)
    case Fail(e) => Fail(e)
    case Ok(c, j) => if c == CLOSE_BRACKET then Ok(Array([]), j) else ElementsFrom(s, j, depth, [])
  }

  /** The object loop, with `ch` the character just read and `data` the members so far. */
  function MembersFrom(s: bytes, i: nat, ch: byte, depth: nat, data: seq<Member>): (r: Scan<Json>)
    requires i <= |s| && depth <= MAX_DEPTH
    ensures r.Ok? ==> i < r.next <= |s|
    decreases DepthLeft(depth), |s| - i, 0
  {
    if ch != QUOTE then Fail(ExpectedKey(ch))
    else
      match StringAt(s, i)
      case Fail(e) => Fail(e)
      case Ok(key, j) => AfterKey(s, j, key, depth, data)
  }

  function AfterKey(s: bytes, j: nat, key: bytes, depth: nat, data: seq<Member>): (r: Scan<Json>)
    requires j <= |s| && depth <= MAX_DEPTH
    ensures r.Ok? ==> j < r.next <= |s|
    decreases DepthLeft(depth), |s| - j, 0
  {
    match NextToken(s, j)
    case Fail(e) => Fail(e)
    case Ok(colon, k) =>
      if colon != COLON then Fail(ExpectedColon(colon))
      else
        match ValueAt(s, k, depth + 1)
        case Fail(e) => Fail(e)
        case Ok(value, l) => AfterMember(s, l, depth, Put(data, key, value))
  }

  function AfterMember(s: bytes, l: nat, depth: nat, data: seq<Member>): (r: Scan<Json>)
    requires l <= |s| && depth <= MAX_DEPTH
    ensures r.Ok? ==> l < r.next <= |s|
    decreases DepthLeft(depth), |s| - l, 0
  {
    match NextToken(s, l)
    case Fail(e) => Fail(e)
    case Ok(c, m) =>
      if c == CLOSE_BRACE then Ok(Object(data), m)
      else if c != COMMA then Fail(ExpectedCommaInObject(c))
      else
        match NextToken(s, m)
        case Fail(e) => Fail(e)
        case Ok(c', n) => MembersFrom(s, n, c', depth, data)
  }

  /** The array loop, with the first character of an element just read. */
  function ElementsFrom(s: bytes, i: nat, depth: nat, data: seq<Json>): (r: Scan<Json>)
    requires 0 < i <= |s| && depth <= MAX_DEPTH
    ensures r.Ok? ==> i < r.next <= |s|
    decreases DepthLeft(depth), |s| - i, 1
  {
    match ValueAt(s, i - 1, depth + 1)
    case Fail(e) => Fail(e)
    case Ok(value, j) => AfterElement(s, j, depth, data + [value])
  }

  function AfterElement(s: bytes, j: nat, depth: nat, data: seq<Json>): (r: Scan<Json>)
    requires j <= |s| && depth <= MAX_DEPTH
    ensures r.Ok? ==> j < r.next <= |s|
    decreases DepthLeft(depth), |s| - j, 0
  {
    match NextToken(s, j)
    case Fail(e) => Fail(e)
    case Ok(c, k) =>
      if c == CLOSE_BRACKET then Ok(Array(data), k)
      else if c != COMMA then Fail(ExpectedCommaInList(c))
      else AfterComma(s, k, depth, data)
  }

  function AfterComma(s: bytes, k: nat, depth: nat, data: seq<Json>): (r: Scan<Json>)
    requires k <= |s| && depth <= MAX_DEPTH
    ensures r.Ok? ==> k < r.next <= |s|
    decreases DepthLeft(depth), |s| - k, 1
  {
    match NextToken(s, k)
    case Fail(e) => Fail(e)
    case Ok(_, l) => ElementsFrom(s, l, depth, data)
  }

  /** What `parse_json` returns when it fails: an empty string if it failed inside a string that is no element or
      member, else null. */
  function Leftover(s: bytes, i: nat, depth: nat): Json
    requires i <= |s|
  {
    if depth <= MAX_DEPTH && NextToken(s, i).Ok? && NextToken(s, i).value == QUOTE then String([]) else Null
  }

  /** What `Json::parse` returns when it fails: null, unless a string fails at the end of the text. */
  function ParseLeftover(s: bytes): Json {
    match NextToken(s, 0)
    case Fail(_) => Null
    case Ok(c, j) =>
      if c == QUOTE && StringAt(s, j).Fail? && SkipSpace(s, StringStop(s, j)) == |s| then String([]) else Null
  }

  /** `Json::parse` on a whole text. */
  function ParseText(s: bytes): Scan<Json> {
    match ValueAt(s, 0, 0)
    case Fail(e) => Fail(e)
    case Ok(v, i) =>
      var j := SkipSpace(s, i);
      if j == |s| then Ok(v, j) else Fail(TrailingInput(s[j]))
  }

  /** `Json::parse_multi` from index `i` on, after reading `values`. */
  function ParseTexts(s: bytes, i: nat, values: seq<Json>): Scan<seq<Json>>
    requires i <= |s|
    decreases |s| - i
  {
    if i == |s| then Ok(values, i)
    else
      match ValueAt(s, i, 0)
      case Fail(e) => Fail(e)
      case Ok(v, j) => ParseTexts(s, SkipSpace(s, j), values + [v])
  }

  /** The values `Json::parse_multi` reads from index `i` on, and the index at which it finds no more. */
  function ReadFrom(s: bytes, i: nat): (r: (seq<Json>, nat))
    requires i <= |s|
    ensures i <= r.1 <= |s|
    decreases |s| - i
  {
    if i == |s| then ([], i)
    else
      match ValueAt(s, i, 0)
      case Fail(e) => ([], i)
      case Ok(v, j) =>
        var (values, stop) := ReadFrom(s, SkipSpace(s, j));
        ([v] + values, stop)
  }

  /** One turn of the loop of `parse_multi`. */
  lemma ReadTurn(s: bytes, i: nat, values: seq<Json>)
    requires i < |s|
    ensures var r := ValueAt(s, i, 0);
      r.Fail? ==> ParseTexts(s, i, values) == Fail(r.error) && ReadFrom(s, i) == ([], i)
    ensures var r := ValueAt(s, i, 0);
      r.Ok? ==>
        var next := SkipSpace(s, r.next);
        && ParseTexts(s, i, values) == ParseTexts(s, next, values + [r.value])
        && values + ReadFrom(s, i).0 == values + [r.value] + ReadFrom(s, next).0
        && ReadFrom(s, i).1 == ReadFrom(s, next).1
  {
    hide ValueAt, SkipSpace;
  }

  lemma ReadDone(s: bytes, values: seq<Json>)
    ensures ParseTexts(s, |s|, values) == Ok(values, |s|) && ReadFrom(s, |s|) == ([], |s|)
    ensures [] + ReadFrom(s, 0).0 == ReadFrom(s, 0).0
  {
  }
}
