/** The parser object of json11: a cursor that only the methods below move, a one-way `failed` flag and
    the first error message. */
module JsonParser {
  import opened Bytes
  import opened Utf8
  import opened JsonValue
  import opened JsonLexemes
  import opened JsonScan
  import opened Wrappers

  class JsonParser {
    const str: bytes
    var i: nat
    var err: Option<Error>
    var failed: bool

    constructor (input: bytes, err0: Option<Error>)
      ensures str == input && i == 0 && err == err0 && !failed
    {
      str, i, err, failed := input, 0, err0, false;
    }

    ghost predicate Valid()
      reads this
    {
      i <= |str|
    }

    /** What every method leaves behind: on success the cursor stands after what was read, a failure is
        recorded once, and after a failure neither the flag nor the message changes again. */
    twostate predicate Follows<T>(new r: Scan<T>)
      reads this
    {
      Valid() &&
      if old(failed) then failed && err == old(err)
      else
        match r
        case Ok(_, next) => !failed && err == old(err) && i == next
        case Fail(e) => failed && err == Some(e)
    }

    method SetFailed(e: Error)
      requires Valid()
      modifies this`err, this`failed
      ensures failed && err == if old(failed) then old(err) else Some(e)
    {
      if !failed {
        err := Some(e);
      }
      failed := true;
    }

    method ConsumeWhitespace()
      requires Valid()
      modifies this`i
      ensures Valid() && i == SkipSpace(str, old(i))
    {
      while IsSpace(CharAt(str, i))
        invariant Valid() && SkipSpace(str, i) == SkipSpace(str, old(i))
        decreases |str| - i
      {
        i := i + 1;
      }
    }

    method GetNextToken() returns (c: byte)
      requires Valid()
      modifies this
      ensures Follows(NextToken(str, old(i)))
      ensures match NextToken(str, old(i))
              case Ok(ch, next) => c == ch && i == next && failed == old(failed) && err == old(err)
              case Fail(e) => c == 0 && failed && i == |str| && err == if old(failed) then old(err) else Some(e)
    {
      ConsumeWhitespace();
      if i == |str| {
        SetFailed(UnexpectedEnd);
        return 0;
      }
      i := i + 1;
      return str[i - 1];
    }

    /** The checks on the four digits of `\uXXXX`. */
    static method CheckHex(esc: bytes) returns (ok: bool)
      requires |esc| <= 4
      ensures ok == IsHex4(esc)
    {
      if |esc| < 4 {
        return false;
      }
      for j := 0 to 4
        invariant forall k | 0 <= k < j :: IsHexDigit(esc[k])
      {
        if !IsHexDigit(esc[j]) {
          return false;
        }
      }
      return true;
    }

    method ParseString() returns (out: bytes)
      requires Valid() && !failed
      modifies this
      ensures Follows(StringAt(str, old(i))) && i == StringStop(str, old(i))
      ensures if failed then out == [] else StringAt(str, old(i)) == Ok(out, i)
    {
      hide EncodeUtf8, PairValue, IsHex4, Hex4, ShortEscapeValue, IsShortEscape, IsHighSurrogate, IsLowSurrogate;
      out := [];
      var last: int := -1;
      while true
        invariant Valid() && !failed && err == old(err) && -1 <= last < 0x10000
        invariant StringFrom(str, i, out, last) == StringAt(str, old(i))
        invariant StringStop(str, i) == StringStop(str, old(i))
        decreases |str| - i
      {
        if i == |str| {
          SetFailed(UnexpectedEndInString);
          return [];
        }
        var ch := str[i];
        i := i + 1;
        if ch == QUOTE {
          return out + EncodeUtf8(last);
        }
        if ch <= 0x1F {
          SetFailed(UnescapedControl(ch));
          return [];
        }
        if ch != BACKSLASH {
          out := out + EncodeUtf8(last);
          last := -1;
          out := out + [ch];
          continue;
        }
        if i == |str| {
          SetFailed(UnexpectedEndInString);
          return [];
        }
        ch := str[i];
        i := i + 1;
        if ch == LOWER_U {
          var esc := Substr(str, i, 4);
          var good := CheckHex(esc);
          if !good {
            SetFailed(BadUnicodeEscape(esc));
            return [];
          }
          var codepoint := Hex4(esc);
          if IsHighSurrogate(last) && IsLowSurrogate(codepoint) {
            out := out + EncodeUtf8(PairValue(last, codepoint));
            last := -1;
          } else {
            out := out + EncodeUtf8(last);
            last := codepoint;
          }
          i := i + 4;
          continue;
        }
        out := out + EncodeUtf8(last);
        last := -1;
        if IsShortEscape(ch) {
          out := out + [ShortEscapeValue(ch)];
        } else {
          SetFailed(InvalidEscape(ch));
          return [];
        }
      }
    }

    /** The loop `while (in_range(str[i], '0', '9')) i++`. */
    method SkipDigits()
      requires Valid()
      modifies this`i
      ensures Valid() && i == DigitsEnd(str, old(i))
    {
      while IsDigit(CharAt(str, i))
        invariant Valid() && DigitsEnd(str, i) == DigitsEnd(str, old(i))
        decreases |str| - i
      {
        i := i + 1;
      }
    }

    method ParseWhole()
      requires Valid() && !failed
      modifies this
      ensures Follows(WholeEnd(str, old(i)))
    {
      if CharAt(str, i) == MINUS {
        i := i + 1;
      }
      if CharAt(str, i) == ZERO {
        i := i + 1;
        if IsDigit(CharAt(str, i)) {
          SetFailed(LeadingZero);
        }
      } else if IsDigit(CharAt(str, i)) {
        i := i + 1;
        SkipDigits();
      } else {
        SetFailed(InvalidInNumber(CharAt(str, i)));
      }
    }

    method ParseFraction()
      requires Valid() && !failed
      modifies this
      ensures Follows(FractionEnd(str, old(i)))
    {
      if CharAt(str, i) == POINT {
        i := i + 1;
        if !IsDigit(CharAt(str, i)) {
          SetFailed(FractionDigitRequired);
          return;
        }
        SkipDigits();
      }
    }

    method ParseExponent()
      requires Valid() && !failed
      modifies this
      ensures Follows(ExponentEnd(str, old(i)))
    {
      if IsExponentMark(CharAt(str, i)) {
        i := i + 1;
        if IsSign(CharAt(str, i)) {
          i := i + 1;
        }
        if !IsDigit(CharAt(str, i)) {
          SetFailed(ExponentDigitRequired);
          return;
        }
        SkipDigits();
      }
    }

    method ParseNumber() returns (v: Json)
      requires Valid() && !failed
      modifies this
      ensures Follows(NumberAt(str, old(i)))
      ensures if failed then v == Null else NumberAt(str, old(i)) == Ok(v, i)
    {
      var start := i;
      v := Null;
      ParseWhole();
      if failed {
        return;
      }
      if IsShortInt(str, start, i) {
        return IntOf(str[start..i]);
      }
      ParseFraction();
      if failed {
        return;
      }
      ParseExponent();
      if failed {
        return;
      }
      return Double(Strtod(str[start..i]));
    }

    method Expect(expected: bytes, res: Json) returns (v: Json)
      requires Valid() && !failed && i != 0
      modifies this
      ensures Follows(WordAt(str, old(i) - 1, expected, res))
      ensures v == if failed then Null else res
    {
      i := i - 1;
      if At(str, i, expected) {
        i := i + |expected|;
        return res;
      }
      SetFailed(ExpectedWord(expected, Substr(str, i, |expected|)));
      return Null;
    }

    method ParseJson(depth: nat) returns (v: Json)
      requires Valid()
      modifies this
      ensures Follows(ValueAt(str, old(i), depth))
      ensures !failed ==> ValueAt(str, old(i), depth) == Ok(v, i)
      ensures failed ==> v == if old(failed) then Null else Leftover(str, old(i), depth)
      ensures failed && v != Null ==> StringAt(str, NextToken(str, old(i)).next).Fail?
      ensures failed && v != Null ==> i == StringStop(str, NextToken(str, old(i)).next)
      decreases DepthLeft(depth), 1
    {
      if depth > MAX_DEPTH {
        SetFailed(TooDeep);
        return Null;
      }
      var ch := GetNextToken();
      if failed {
        return Null;
      }
      if ch == MINUS || IsDigit(ch) {
        i := i - 1;
        v := ParseNumber();
      } else if ch == 0x74 {
        v := Expect(TRUE_TEXT, Bool(true));
      } else if ch == 0x66 {
        v := Expect(FALSE_TEXT, Bool(false));
      } else if ch == 0x6E {
        v := Expect(NULL_TEXT, Null);
      } else if ch == QUOTE {
        var t := ParseString();
        v := String(t);
      } else if ch == OPEN_BRACE {
        v := ParseMembers(depth);
      } else if ch == OPEN_BRACKET {
        v := ParseElements(depth);
      } else {
        SetFailed(ExpectedValue(ch));
        v := Null;
      }
    }

    /** The object branch of `parse_json`, after the opening brace. */
    method ParseMembers(depth: nat) returns (v: Json)
      requires Valid() && !failed && depth <= MAX_DEPTH
      modifies this
      ensures Follows(ObjectAt(str, old(i), depth))
      ensures if failed then v == Null else ObjectAt(str, old(i), depth) == Ok(v, i)
      decreases DepthLeft(depth), 0
    {
      hide ValueAt, NextToken, StringAt, StringStop, Put, Leftover;
      var data: seq<Member> := [];
      ghost var all := ObjectAt(str, i, depth);
      var ch := GetNextToken();
      if ch == CLOSE_BRACE {
        return Object(data);
      }
      while true
        invariant Valid()
        invariant failed ==> ch == 0 && all.Fail? && err == Some(all.error)
        invariant !failed ==> err == old(err) && all == MembersFrom(str, i, ch, depth, data)
        decreases if failed then 0 else 1 + |str| - i
      {
        if ch != QUOTE {
          SetFailed(ExpectedKey(ch));
          return Null;
        }
        var key := ParseString();
        if failed {
          return Null;
        }
        assert all == AfterKey(str, i, key, depth, data);
        ch := GetNextToken();
        if ch != COLON {
          SetFailed(ExpectedColon(ch));
          return Null;
        }
        var value := ParseJson(depth + 1);
        data := Put(data, key, value);
        if failed {
          return Null;
        }
        assert all == AfterMember(str, i, depth, data);
        ch := GetNextToken();
        if ch == CLOSE_BRACE {
          break;
        }
        if ch != COMMA {
          SetFailed(ExpectedCommaInObject(ch));
          return Null;
        }
        ch := GetNextToken();
      }
      return Object(data);
    }

    /** The array branch of `parse_json`, after the opening bracket. Each turn first steps back onto the
        character just read; after a failed read it steps back onto an earlier one. */
    method ParseElements(depth: nat) returns (v: Json)
      requires Valid() && 0 < i && !failed && depth <= MAX_DEPTH
      modifies this
      ensures Follows(ArrayAt(str, old(i), depth))
      ensures if failed then v == Null else ArrayAt(str, old(i), depth) == Ok(v, i)
      decreases DepthLeft(depth), 0
    {
      hide ValueAt, NextToken;
      var data: seq<Json> := [];
      ghost var all := ArrayAt(str, i, depth);
      var ch := GetNextToken();
      if ch == CLOSE_BRACKET {
        return Array(data);
      }
      while true
        invariant Valid() && 0 < i
        invariant failed ==> all.Fail? && err == Some(all.error)
        invariant !failed ==> err == old(err) && all == ElementsFrom(str, i, depth, data)
        decreases if failed then 0 else 1 + |str| - i
      {
        i := i - 1;
        var value := ParseJson(depth + 1);
        data := data + [value];
        if failed {
          return Null;
        }
        assert all == AfterElement(str, i, depth, data);
        ch := GetNextToken();
        if ch == CLOSE_BRACKET {
          break;
        }
        if ch != COMMA {
          SetFailed(ExpectedCommaInList(ch));
          return Null;
        }
        assert all == AfterComma(str, i, depth, data);
        ch := GetNextToken();
      }
      return Array(data);
    }
  }

  /** `Json::parse`. The message passed in is overwritten by a failure and never cleared. */
  method Parse(input: bytes, err0: Option<Error>) returns (result: Json, err: Option<Error>)
    ensures match ParseText(input)
            case Ok(v, _) => result == v && err == err0
            case Fail(e) => err == Some(e) && result == ParseLeftover(input)
  {
    var parser := new JsonParser(input, err0);
    result := parser.ParseJson(0);
    parser.ConsumeWhitespace();
    if parser.i != |input| {
      parser.SetFailed(TrailingInput(input[parser.i]));
      result := Null;
    }
    err := parser.err;
  }

  /** `Json::parse_multi`; the list ends with what the value that failed left, if one did. */
  method ParseMulti(input: bytes, err0: Option<Error>) returns (values: seq<Json>, err: Option<Error>)
    ensures match ParseTexts(input, 0, [])
            case Ok(vs, _) => values == vs && err == err0
            case Fail(e) =>
              var (read, stop) := ReadFrom(input, 0);
              err == Some(e) && values == read + [Leftover(input, stop, 0)]
  {
    var parser := new JsonParser(input, err0);
    hide ValueAt, SkipSpace, Leftover, ParseTexts, ReadFrom;
    ghost var (read, stop) := ReadFrom(input, 0);
    values := [];
    ReadDone(input, values);
    while parser.i != |input| && !parser.failed
      invariant parser.str == input && parser.Valid()
      invariant if parser.failed then
                  && parser.err.Some? && ParseTexts(input, 0, []) == Fail(parser.err.value)
                  && values == read + [Leftover(input, stop, 0)]
                else
                  && parser.err == err0 && ParseTexts(input, 0, []) == ParseTexts(input, parser.i, values)
                  && stop == ReadFrom(input, parser.i).1 && read == values + ReadFrom(input, parser.i).0
      decreases if parser.failed then 0 else 1 + |input| - parser.i
    {
      ReadTurn(input, parser.i, values);
      var value := parser.ParseJson(0);
      values := values + [value];
      parser.ConsumeWhitespace();
    }
    ReadDone(input, values);
    err := parser.err;
  }
}
