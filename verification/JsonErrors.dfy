/** Why `Json::parse` refuses a text: every error it reports is borne out by what stands at some place of the text. */
module JsonErrors {
  import opened Bytes
  import opened Utf8
  import opened JsonLexemes
  import opened JsonScan
  import opened JsonGrammar
  import opened JsonValue
  import opened JsonNumbers
  import opened JsonStrings
  import opened JsonComplete
  import opened JsonSound
  import opened JsonTheorems

  /** How many brackets and braces are opened before `n`. */
  function Opened(s: bytes, n: nat): nat
    requires n <= |s|
  {
    if n == 0 then 0 else Opened(s, n - 1) + (if s[n - 1] == OPEN_BRACKET || s[n - 1] == OPEN_BRACE then 1 else 0)
  }

  /** A byte other than white space. */
  predicate Token(s: bytes, i: nat, c: byte) {
    i < |s| && s[i] == c && !IsSpace(c)
  }

  /** The last byte before `i` that is no white space is `c`. */
  ghost predicate Follows(s: bytes, i: nat, c: byte) {
    i <= |s| && exists j | 0 <= j < i :: s[j] == c && Blank(s[j + 1..i])
  }

  /** A string is open at `i`. */
  ghost predicate InString(s: bytes, i: nat) {
    exists p: nat, its | InStringFrom(s, p, its, i) :: true
  }

  ghost predicate InStringFrom(s: bytes, p: nat, its: seq<Item>, i: nat) {
    0 < p <= i <= |s| && s[p - 1] == QUOTE && GoodItems(its) && s[p..i] == ItemsText(its)
  }

  ghost predicate IsDocument(s: bytes) {
    exists before, t, after :: Derives(s, before, t, after)
  }

  /** A value ends at `i`. */
  ghost predicate ValueEnds(s: bytes, i: nat) {
    exists p: nat, t | Good(t) :: p <= i <= |s| && s[p..i] == Text(t)
  }

  /** More is awaited at `i`: nothing was read, or an opening, a separator, the end of a name or that of a value. */
  ghost predicate Awaits(s: bytes, i: nat) {
    0 < i <= |s| ==>
      || s[i - 1] == OPEN_BRACKET || s[i - 1] == OPEN_BRACE || s[i - 1] == COMMA || s[i - 1] == COLON
      || s[i - 1] == QUOTE || (ValueEnds(s, i) && Opened(s, i) > 0)
  }

  /** What stands at `i` bears out the error. */
  ghost predicate Because(s: bytes, i: nat, e: Error)
    requires i <= |s|
  {
    match e
    case UnexpectedEnd => Awaits(s, i) && Blank(s[i..])
    case UnexpectedEndInString => InString(s, i) && (s[i..] == [] || s[i..] == [BACKSLASH])
    case UnescapedControl(c) => InString(s, i) && CharIs(s, i, c) && c < 0x20
    case BadUnicodeEscape(h) =>
      && InString(s, i) && CharIs(s, i, BACKSLASH) && CharIs(s, i + 1, LOWER_U)
      && h <= s[i + 2..] && !IsHex4(h) && (|h| == 4 || h == s[i + 2..])
    case InvalidEscape(c) => InString(s, i) && CharIs(s, i, BACKSLASH) && CharIs(s, i + 1, c)
                             && !IsShortEscape(c) && c != LOWER_U
    case LeadingZero => CharIs(s, i, ZERO) && IsDigit(CharAt(s, i + 1))
    case InvalidInNumber(c) => CharIs(s, i, MINUS) && CharAt(s, i + 1) == c && !IsDigit(c)
    case FractionDigitRequired => i > 0 && IsDigit(s[i - 1]) && CharIs(s, i, POINT) && !IsDigit(CharAt(s, i + 1))
    case ExponentDigitRequired =>
      && i > 0 && IsDigit(s[i - 1]) && i < |s| && IsExponentMark(s[i]) && !IsDigit(CharAt(s, i + 1))
      && (IsSign(CharAt(s, i + 1)) ==> !IsDigit(CharAt(s, i + 2)))
    case ExpectedWord(word, got) =>
      && (word == TRUE_TEXT || word == FALSE_TEXT || word == NULL_TEXT)
      && got != [] && got[0] == word[0] && got != word && got <= s[i..] && (|got| == |word| || got == s[i..])
    case TooDeep => Opened(s, i) > 200
    case ExpectedKey(c) => Token(s, i, c) && c != QUOTE && (Follows(s, i, OPEN_BRACE) || Follows(s, i, COMMA))
    case ExpectedColon(c) => Token(s, i, c) && c != COLON && Follows(s, i, QUOTE)
    case ExpectedCommaInObject(c) => Token(s, i, c) && c != COMMA && c != CLOSE_BRACE
    case ExpectedCommaInList(c) => Token(s, i, c) && c != COMMA && c != CLOSE_BRACKET
    case ExpectedValue(c) =>
      && Token(s, i, c) && !IsDigit(c) && c != MINUS && c != QUOTE && c != OPEN_BRACE && c != OPEN_BRACKET
      && c != TRUE_TEXT[0] && c != FALSE_TEXT[0] && c != NULL_TEXT[0]
    case TrailingInput(c) => Token(s, i, c) && IsDocument(s[..i])
  }

  ghost predicate BorneOut(s: bytes, e: Error) {
    exists i | 0 <= i <= |s| :: Because(s, i, e)
  }

  lemma {:induction false} OpenedMore(s: bytes, m: nat, n: nat)
    requires m <= n <= |s|
    ensures Opened(s, m) <= Opened(s, n)
    decreases n - m
  {
    if m < n {
      OpenedMore(s, m, n - 1);
    }
  }

  lemma TokenIs(s: bytes, i: nat)
    requires i <= |s| && (Awaits(s, i) || Token(s, i, CharAt(s, i)))
    ensures var r := NextToken(s, i);
      if r.Fail? then BorneOut(s, r.error)
      else Token(s, r.next - 1, r.value) && i <= r.next - 1 && Blank(s[i..r.next - 1])
  {
    SkipSpaceSound(s, i, SkipSpace(s, i));
    if NextToken(s, i).Fail? {
      assert Because(s, i, UnexpectedEnd);
    }
  }

  lemma TokenFollows(s: bytes, j: nat, i: nat)
    requires 0 < j <= i <= |s| && Blank(s[j..i])
    ensures Follows(s, i, s[j - 1])
  {
    assert s[j - 1 + 1..i] == s[j..i];
  }

  lemma {:induction false} ItemsAppend(its: seq<Item>, it: Item)
    ensures ItemsText(its + [it]) == ItemsText(its) + ItemText(it)
  {
    if its != [] {
      assert (its + [it])[1..] == its[1..] + [it];
      ItemsAppend(its[1..], it);
    } else {
      assert ItemsText([it]) == ItemText(it) + [];
    }
  }

  lemma InStringMore(s: bytes, p: nat, its: seq<Item>, i: nat, it: Item)
    requires InStringFrom(s, p, its, i) && GoodItem(it) && At(s, i, ItemText(it))
    ensures InStringFrom(s, p, its + [it], i + |ItemText(it)|)
  {
    hide ItemText, ItemsText, GoodItem;
    ItemsAppend(its, it);
    assert s[p..i + |ItemText(it)|] == s[p..i] + s[i..i + |ItemText(it)|];
  }

  /** Where the error at `q` leaves the cursor. */
  function StopFor(s: bytes, q: nat, e: Error): nat {
    match e
    case UnexpectedEndInString => |s|
    case UnescapedControl(_) => q + 1
    case _ => q + 2
  }

  /** A turn of the loop on four hexadecimal digits. */
  lemma UnicodeTurn(s: bytes, i: nat, out: bytes, last: int) returns (h: bytes, out': bytes, last': int)
    requires i + 2 <= |s| && -1 <= last < 0x10000 && s[i] == BACKSLASH && s[i + 1] == LOWER_U
    requires IsHex4(Substr(s, i + 2, 4))
    ensures h == Substr(s, i + 2, 4) && At(s, i, [BACKSLASH, LOWER_U] + h) && -1 <= last' < 0x10000 && i + 6 <= |s|
    ensures StringFrom(s, i, out, last) == StringFrom(s, i + 6, out', last')
    ensures StringStop(s, i) == StringStop(s, i + 6)
  {
    hide EncodeUtf8, PairValue, Hex4, IsHexDigit;
    h := Substr(s, i + 2, 4);
    assert s[i..i + 6] == [BACKSLASH, LOWER_U] + h;
    out', last' := out + EncodeUtf8(last), Hex4(h);
    if IsHighSurrogate(last) && IsLowSurrogate(Hex4(h)) {
      out', last' := out + EncodeUtf8(PairValue(last, Hex4(h))), -1;
    }
  }

  /** The item at `i` if the loop gets past it, else why it does not. */
  lemma StringTurn(s: bytes, i: nat, out: bytes, last: int) returns (it: Item, out': bytes, last': int)
    requires i <= |s| && -1 <= last < 0x10000 && StringFrom(s, i, out, last).Fail?
    ensures -1 <= last' < 0x10000
    ensures var e := StringFrom(s, i, out, last).error;
      ((InString(s, i) ==> Because(s, i, e)) && StringStop(s, i) == StopFor(s, i, e)) ||
      (GoodItem(it) && At(s, i, ItemText(it)) && StringStop(s, i) == StringStop(s, i + |ItemText(it)|)
       && StringFrom(s, i, out, last) == StringFrom(s, i + |ItemText(it)|, out', last'))
  {
    hide EncodeUtf8, PairValue, Hex4, HexValue, IsHex4, IsHexDigit, IsDigit, InString, Awaits, Follows, IsDocument,
         Opened, Token, IsSpace, Blank;
    it, out', last' := Plain(0), [], -1;
    if i == |s| || s[i] <= 0x1F {
    } else if s[i] != BACKSLASH {
      assert s[i..i + 1] == [s[i]];
      it, out', last' := Plain(s[i]), out + EncodeUtf8(last) + [s[i]], -1;
    } else if i + 1 == |s| {
      assert s[i..] == [BACKSLASH];
    } else if s[i + 1] == LOWER_U {
      if IsHex4(Substr(s, i + 2, 4)) {
        var h;
        h, out', last' := UnicodeTurn(s, i, out, last);
        it := Unicode(h);
        assert ItemText(it) == [BACKSLASH, LOWER_U] + h;
      }
    } else if IsShortEscape(s[i + 1]) {
      assert s[i..i + 2] == [s[i], s[i + 1]];
      it, out', last' := Short(s[i + 1]), out + EncodeUtf8(last) + [ShortEscapeValue(s[i + 1])], -1;
    }
  }

  lemma {:induction false} StringReason(s: bytes, p: nat, its: seq<Item>, i: nat, out: bytes, last: int)
    requires InStringFrom(s, p, its, i) && -1 <= last < 0x10000 && StringFrom(s, i, out, last).Fail?
    ensures var e := StringFrom(s, i, out, last).error;
      exists q: nat | i <= q <= |s| :: Because(s, q, e) && StringStop(s, i) == StopFor(s, q, e)
    decreases |s| - i
  {
    hide StringFrom, StringStop, StopFor, Because, At, ItemText, InStringFrom, GoodItem;
    assert i <= |s| by {
      InStringBound(s, p, its, i);
    }
    var it, out', last' := StringTurn(s, i, out, last);
    var e := StringFrom(s, i, out, last).error;
    if !(Because(s, i, e) && StringStop(s, i) == StopFor(s, i, e)) {
      assert InString(s, i);
      InStringMore(s, p, its, i, it);
      ItemNotEmpty(it);
      InStringBound(s, p, its + [it], i + |ItemText(it)|);
      StringReason(s, p, its + [it], i + |ItemText(it)|, out', last');
    }
  }

  lemma InStringBound(s: bytes, p: nat, its: seq<Item>, i: nat)
    requires InStringFrom(s, p, its, i)
    ensures i <= |s|
  {
  }

  /** A string that is refused, and where the cursor is left. */
  lemma StringFails(s: bytes, p: nat)
    requires 0 < p <= |s| && s[p - 1] == QUOTE && StringAt(s, p).Fail?
    ensures BorneOut(s, StringAt(s, p).error)
    ensures var e := StringAt(s, p).error;
      exists q: nat | p <= q <= |s| :: Because(s, q, e) && StringStop(s, p) == StopFor(s, q, e)
  {
    hide StringFrom, StringStop, Because, StopFor;
    assert InStringFrom(s, p, [], p);
    StringReason(s, p, [], p, [], -1);
  }

  lemma {:induction false} StringCloses(s: bytes, i: nat, out: bytes, last: int)
    requires i <= |s| && -1 <= last < 0x10000 && StringFrom(s, i, out, last).Ok?
    ensures s[StringFrom(s, i, out, last).next - 1] == QUOTE
    decreases |s| - i
  {
    hide At, EncodeUtf8, StringFrom;
    if s[i..] != [] && s[i] != QUOTE {
      var it, out', last' := ItemSound(s, i, out, last);
      ItemNotEmpty(it);
      ItemLonger(s, i, it);
      StringCloses(s, i + |ItemText(it)|, out', last');
    } else {
      StringQuote(s, i, out, last);
    }
  }

  lemma StringQuote(s: bytes, i: nat, out: bytes, last: int)
    requires i <= |s| && -1 <= last < 0x10000 && StringFrom(s, i, out, last).Ok? && (i == |s| || s[i] == QUOTE)
    ensures s[StringFrom(s, i, out, last).next - 1] == QUOTE
  {
  }

  lemma ItemLonger(s: bytes, i: nat, it: Item)
    requires At(s, i, ItemText(it))
    ensures i + |ItemText(it)| <= |s|
  {
  }

  // Numbers and words.

  lemma {:induction false} DigitsBefore(s: bytes, i: nat)
    requires 0 < i <= |s| && IsDigit(s[i - 1])
    ensures IsDigit(s[DigitsEnd(s, i) - 1])
    decreases |s| - i
  {
    if IsDigit(CharAt(s, i)) {
      DigitsBefore(s, i + 1);
    }
  }

  lemma WholeReason(s: bytes, i: nat)
    requires i < |s| && (s[i] == MINUS || IsDigit(s[i]))
    ensures var r := WholeEnd(s, i);
      if r.Fail? then BorneOut(s, r.error) else i < r.next <= |s| && IsDigit(s[r.next - 1])
  {
    var a := if s[i] == MINUS then i + 1 else i;
    if WholeEnd(s, i).Fail? {
      assert Because(s, if IsDigit(CharAt(s, a)) then a else i, WholeEnd(s, i).error);
    } else {
      DigitsBefore(s, a + 1);
    }
  }

  lemma FractionReason(s: bytes, b: nat)
    requires 0 < b <= |s| && IsDigit(s[b - 1])
    ensures var r := FractionEnd(s, b);
      if r.Fail? then BorneOut(s, r.error) else b <= r.next <= |s| && IsDigit(s[r.next - 1])
  {
    if FractionEnd(s, b).Fail? {
      assert Because(s, b, FractionDigitRequired);
    } else if FractionEnd(s, b).next > b {
      DigitsBefore(s, b + 2);
    }
  }

  lemma ExponentReason(s: bytes, c: nat)
    requires 0 < c <= |s| && IsDigit(s[c - 1]) && ExponentEnd(s, c).Fail?
    ensures BorneOut(s, ExponentEnd(s, c).error)
  {
    assert Because(s, c, ExponentDigitRequired);
  }

  lemma NumberReason(s: bytes, i: nat)
    requires i < |s| && (s[i] == MINUS || IsDigit(s[i])) && NumberAt(s, i).Fail?
    ensures BorneOut(s, NumberAt(s, i).error)
  {
    hide BorneOut, WholeEnd, FractionEnd, ExponentEnd, IsShortInt, Strtod, IntOf;
    WholeReason(s, i);
    if WholeEnd(s, i).Ok? {
      var b := WholeEnd(s, i).next;
      FractionReason(s, b);
      if FractionEnd(s, b).Ok? {
        ExponentReason(s, FractionEnd(s, b).next);
      }
    }
  }

  lemma WordReason(s: bytes, i: nat, word: bytes, res: Json)
    requires i < |s| && (word == TRUE_TEXT || word == FALSE_TEXT || word == NULL_TEXT) && s[i] == word[0]
    requires WordAt(s, i, word, res).Fail?
    ensures BorneOut(s, WordAt(s, i, word, res).error)
  {
    assert Because(s, i, WordAt(s, i, word, res).error);
  }

  // Values.

  lemma {:induction false} ValueReason(s: bytes, i: nat, depth: nat)
    requires i <= |s| && depth <= Opened(s, i) && ValueAt(s, i, depth).Fail?
    requires Awaits(s, i) || Token(s, i, CharAt(s, i))
    ensures BorneOut(s, ValueAt(s, i, depth).error)
    decreases DepthLeft(depth), |s| + 1
  {
    hide BorneOut, NextToken, Opened, ObjectAt, ArrayAt, StringFrom, NumberAt, WordAt, ItemsText;
    TokenIs(s, i);
    if depth > MAX_DEPTH {
      DeepReason(s, i);
    } else if NextToken(s, i).Ok? {
      var c, j := NextToken(s, i).value, NextToken(s, i).next;
      BracketReason(s, i, j);
      if c == MINUS || IsDigit(c) {
        NumberReason(s, j - 1);
      } else if c == TRUE_TEXT[0] {
        WordReason(s, j - 1, TRUE_TEXT, Bool(true));
      } else if c == FALSE_TEXT[0] {
        WordReason(s, j - 1, FALSE_TEXT, Bool(false));
      } else if c == NULL_TEXT[0] {
        WordReason(s, j - 1, NULL_TEXT, Null);
      } else if c == QUOTE {
        StringFails(s, j);
      } else if c == OPEN_BRACE {
        ObjectReason(s, j, depth);
      } else if c == OPEN_BRACKET {
        ArrayReason(s, j, depth);
      } else {
        ValueExpected(s, j - 1, c);
      }
    }
  }

  lemma ValueRead(s: bytes, i: nat, depth: nat)
    requires i <= |s| && ValueAt(s, i, depth).Ok?
    ensures ValueEnds(s, ValueAt(s, i, depth).next)
  {
    hide ValueAt, Text, Good, At;
    var w, t := ValueSound(s, i, depth);
    var p := i + |w|;
    SpaceBefore(s, i, w, t, ValueAt(s, i, depth).next);
    SliceAt(s, p, Text(t), p + |Text(t)|);
  }

  lemma DeepReason(s: bytes, i: nat)
    requires i <= |s| && Opened(s, i) > 200
    ensures BorneOut(s, TooDeep)
  {
    assert Because(s, i, TooDeep);
  }

  lemma BracketReason(s: bytes, i: nat, j: nat)
    requires i < j <= |s|
    ensures Opened(s, j) >= Opened(s, i) + (if s[j - 1] == OPEN_BRACE || s[j - 1] == OPEN_BRACKET then 1 else 0)
  {
    OpenedMore(s, i, j - 1);
  }

  lemma ValueExpected(s: bytes, i: nat, c: byte)
    requires i < |s| && Because(s, i, ExpectedValue(c))
    ensures BorneOut(s, ExpectedValue(c))
  {
  }

  lemma {:induction false} ObjectReason(s: bytes, i: nat, depth: nat)
    requires 0 < i <= |s| && s[i - 1] == OPEN_BRACE && depth <= MAX_DEPTH && depth + 1 <= Opened(s, i)
    requires ObjectAt(s, i, depth).Fail?
    ensures BorneOut(s, ObjectAt(s, i, depth).error)
    decreases DepthLeft(depth), |s| - i, 1
  {
    hide BorneOut, NextToken, Opened, MembersFrom, Follows;
    TokenIs(s, i);
    if NextToken(s, i).Ok? {
      TokenFollows(s, i, NextToken(s, i).next - 1);
      OpenedMore(s, i, NextToken(s, i).next);
      MembersReason(s, NextToken(s, i).next, depth, []);
    }
  }

  lemma {:induction false} MembersReason(s: bytes, i: nat, depth: nat, data: seq<Member>)
    requires 0 < i <= |s| && depth <= MAX_DEPTH && depth + 1 <= Opened(s, i) && !IsSpace(s[i - 1])
    requires Follows(s, i - 1, OPEN_BRACE) || Follows(s, i - 1, COMMA)
    requires MembersFrom(s, i, s[i - 1], depth, data).Fail?
    ensures BorneOut(s, MembersFrom(s, i, s[i - 1], depth, data).error)
    decreases DepthLeft(depth), |s| - i, 0
  {
    hide BorneOut, Opened, AfterKey, Follows, StringFrom;
    if s[i - 1] != QUOTE {
      KeyExpected(s, i - 1, s[i - 1]);
    } else if StringAt(s, i).Fail? {
      StringFails(s, i);
    } else {
      var j := StringAt(s, i).next;
      StringCloses(s, i, [], -1);
      OpenedMore(s, i, j);
      KeyReason(s, j, StringAt(s, i).value, depth, data);
    }
  }

  lemma KeyExpected(s: bytes, i: nat, c: byte)
    requires i < |s| && Because(s, i, ExpectedKey(c))
    ensures BorneOut(s, ExpectedKey(c))
  {
  }

  lemma {:induction false} KeyReason(s: bytes, j: nat, key: bytes, depth: nat, data: seq<Member>)
    requires 0 < j <= |s| && s[j - 1] == QUOTE && depth <= MAX_DEPTH && depth + 1 <= Opened(s, j)
    requires AfterKey(s, j, key, depth, data).Fail?
    ensures BorneOut(s, AfterKey(s, j, key, depth, data).error)
    decreases DepthLeft(depth), |s| - j, 0
  {
    hide BorneOut, Opened, NextToken, ValueAt, AfterMember, Follows, Put;
    TokenIs(s, j);
    if NextToken(s, j).Ok? {
      var colon, k := NextToken(s, j).value, NextToken(s, j).next;
      if colon != COLON {
        TokenFollows(s, j, k - 1);
        ColonExpected(s, k - 1, colon);
      } else {
        OpenedMore(s, j, k);
        if ValueAt(s, k, depth + 1).Fail? {
          ValueReason(s, k, depth + 1);
        } else {
          var l := ValueAt(s, k, depth + 1).next;
          ValueRead(s, k, depth + 1);
          OpenedMore(s, k, l);
          MemberReason(s, l, depth, Put(data, key, ValueAt(s, k, depth + 1).value));
        }
      }
    }
  }

  lemma ColonExpected(s: bytes, i: nat, c: byte)
    requires i < |s| && Because(s, i, ExpectedColon(c))
    ensures BorneOut(s, ExpectedColon(c))
  {
  }

  lemma {:induction false} MemberReason(s: bytes, l: nat, depth: nat, data: seq<Member>)
    requires l <= |s| && depth <= MAX_DEPTH && depth + 1 <= Opened(s, l) && AfterMember(s, l, depth, data).Fail?
    requires ValueEnds(s, l)
    ensures BorneOut(s, AfterMember(s, l, depth, data).error)
    decreases DepthLeft(depth), |s| - l, 0
  {
    hide BorneOut, Opened, NextToken, MembersFrom, Follows;
    TokenIs(s, l);
    if NextToken(s, l).Ok? {
      var c, m := NextToken(s, l).value, NextToken(s, l).next;
      if c == COMMA {
        TokenIs(s, m);
        if NextToken(s, m).Ok? {
          var n := NextToken(s, m).next;
          TokenFollows(s, m, n - 1);
          OpenedMore(s, l, n);
          MembersReason(s, n, depth, data);
        }
      } else if c != CLOSE_BRACE {
        CommaExpected(s, m - 1, c);
      }
    }
  }

  lemma CommaExpected(s: bytes, i: nat, c: byte)
    requires i < |s| && Token(s, i, c) && c != COMMA
    ensures c != CLOSE_BRACE ==> BorneOut(s, ExpectedCommaInObject(c))
    ensures c != CLOSE_BRACKET ==> BorneOut(s, ExpectedCommaInList(c))
  {
    assert c != CLOSE_BRACE ==> Because(s, i, ExpectedCommaInObject(c));
    assert c != CLOSE_BRACKET ==> Because(s, i, ExpectedCommaInList(c));
  }

  lemma {:induction false} ArrayReason(s: bytes, i: nat, depth: nat)
    requires 0 < i <= |s| && s[i - 1] == OPEN_BRACKET && depth <= MAX_DEPTH && depth + 1 <= Opened(s, i)
    requires ArrayAt(s, i, depth).Fail?
    ensures BorneOut(s, ArrayAt(s, i, depth).error)
    decreases DepthLeft(depth), |s| - i, 1
  {
    hide BorneOut, NextToken, Opened, ElementsFrom;
    TokenIs(s, i);
    if NextToken(s, i).Ok? {
      OpenedMore(s, i, NextToken(s, i).next - 1);
      ElementsReason(s, NextToken(s, i).next, depth, []);
    }
  }

  lemma {:induction false} ElementsReason(s: bytes, i: nat, depth: nat, data: seq<Json>)
    requires 0 < i <= |s| && depth <= MAX_DEPTH && depth + 1 <= Opened(s, i - 1) && !IsSpace(s[i - 1])
    requires ElementsFrom(s, i, depth, data).Fail?
    ensures BorneOut(s, ElementsFrom(s, i, depth, data).error)
    decreases DepthLeft(depth), |s| - i, 1
  {
    hide BorneOut, ValueAt, Opened, AfterElement;
    if ValueAt(s, i - 1, depth + 1).Fail? {
      ValueReason(s, i - 1, depth + 1);
    } else {
      var r := ValueAt(s, i - 1, depth + 1);
      ValueRead(s, i - 1, depth + 1);
      OpenedMore(s, i - 1, r.next);
      ElementReason(s, r.next, depth, data + [r.value]);
    }
  }

  lemma {:induction false} ElementReason(s: bytes, j: nat, depth: nat, data: seq<Json>)
    requires j <= |s| && depth <= MAX_DEPTH && depth + 1 <= Opened(s, j) && AfterElement(s, j, depth, data).Fail?
    requires ValueEnds(s, j)
    ensures BorneOut(s, AfterElement(s, j, depth, data).error)
    decreases DepthLeft(depth), |s| - j, 0
  {
    hide BorneOut, NextToken, Opened, ElementsFrom;
    TokenIs(s, j);
    if NextToken(s, j).Ok? {
      var c, k := NextToken(s, j).value, NextToken(s, j).next;
      if c == COMMA {
        TokenIs(s, k);
        if NextToken(s, k).Ok? {
          OpenedMore(s, j, NextToken(s, k).next - 1);
          ElementsReason(s, NextToken(s, k).next, depth, data);
        }
      } else if c != CLOSE_BRACKET {
        CommaExpected(s, k - 1, c);
      }
    }
  }

  /** Every error the parser reports is borne out by the text. */
  lemma ErrorsMean(s: bytes)
    requires ParseText(s).Fail?
    ensures BorneOut(s, ParseText(s).error)
  {
    hide BorneOut, ValueAt, SkipSpace;
    if ValueAt(s, 0, 0).Fail? {
      ValueReason(s, 0, 0);
    } else {
      var i := ValueAt(s, 0, 0).next;
      SkipSpaceSound(s, i, SkipSpace(s, i));
      var w, t := ValueSound(s, 0, 0);
      Trailing(s, w, t, i, SkipSpace(s, i));
    }
  }

  lemma Trailing(s: bytes, w: bytes, t: Syntax, i: nat, j: nat)
    requires ReadsAs(s, 0, w, t, i) && i <= j < |s| && Blank(s[i..j]) && !IsSpace(s[j])
    ensures BorneOut(s, TrailingInput(s[j]))
  {
    hide Text, Good, Ends, BorneOut;
    assert s[..j] == w + (Text(t) + s[i..j]) by {
      assert s[..j] == s[0..i] + s[i..j] && s[0..i] == w + Text(t);
    }
    assert Derives(s[..j], w, t, s[i..j]);
    TrailingBecause(s, j);
  }

  lemma TrailingBecause(s: bytes, j: nat)
    requires j < |s| && Because(s, j, TrailingInput(s[j]))
    ensures BorneOut(s, TrailingInput(s[j]))
  {
  }

  lemma {:induction false} StopAfterString(s: bytes, i: nat, out: bytes, last: int)
    requires i <= |s| && -1 <= last < 0x10000 && StringFrom(s, i, out, last).Ok?
    ensures StringStop(s, i) == StringFrom(s, i, out, last).next
    decreases |s| - i
  {
    hide EncodeUtf8, PairValue, Hex4, HexValue;
    if s[i] == QUOTE {
    } else if s[i] != BACKSLASH {
      StopAfterString(s, i + 1, out + EncodeUtf8(last) + [s[i]], -1);
    } else if s[i + 1] != LOWER_U {
      StopAfterString(s, i + 2, out + EncodeUtf8(last) + [ShortEscapeValue(s[i + 1])], -1);
    } else if IsHighSurrogate(last) && IsLowSurrogate(Hex4(Substr(s, i + 2, 4))) {
      StopAfterString(s, i + 6, out + EncodeUtf8(PairValue(last, Hex4(Substr(s, i + 2, 4)))), -1);
    } else {
      StopAfterString(s, i + 6, out + EncodeUtf8(last), Hex4(Substr(s, i + 2, 4)));
    }
  }

  /** White space and a quotation mark at `i`. */
  ghost predicate StringAhead(s: bytes, i: nat, w: bytes) {
    Blank(w) && At(s, i, w + [QUOTE])
  }

  lemma QuoteToken(s: bytes, i: nat, w: bytes)
    requires StringAhead(s, i, w)
    ensures NextToken(s, i) == Ok(QUOTE, i + |w| + 1)
  {
    AtConcat(s, i, w, [QUOTE]);
    AtHead(s, i + |w|, [QUOTE]);
    NextTokenAt(s, i, w, i + |w|);
  }

  lemma QuoteAhead(s: bytes, i: nat)
    requires i <= |s| && NextToken(s, i).Ok? && NextToken(s, i).value == QUOTE
    ensures StringAhead(s, i, s[i..NextToken(s, i).next - 1])
  {
    SkipSpaceSound(s, i, SkipSpace(s, i));
    var j := NextToken(s, i).next;
    assert s[i..j] == s[i..j - 1] + [QUOTE];
  }

  /** A value that is refused leaves null behind, or the empty string if it was to be a string. */
  lemma LeftoverIs(s: bytes, i: nat, depth: nat)
    requires i <= |s|
    ensures Leftover(s, i, depth) ==
            if depth <= 200 && exists w :: StringAhead(s, i, w) then String([]) else Null
  {
    hide NextToken, StringAhead;
    if NextToken(s, i).Ok? && NextToken(s, i).value == QUOTE {
      QuoteAhead(s, i);
    }
    forall w | StringAhead(s, i, w) ensures NextToken(s, i) == Ok(QUOTE, i + |w| + 1) {
      QuoteToken(s, i, w);
    }
  }

  /** A text that is refused gives null, unless it is a string, refused with nothing but white space behind the
      cursor. */
  lemma ParseLeftoverIs(s: bytes)
    ensures ParseLeftover(s) ==
      if exists w :: StringAhead(s, 0, w) && StringAt(s, |w| + 1).Fail? && Blank(s[StringStop(s, |w| + 1)..])
      then String([]) else Null
  {
    hide NextToken, StringAhead, StringFrom, StringStop;
    if NextToken(s, 0).Ok? && NextToken(s, 0).value == QUOTE {
      QuoteAhead(s, 0);
      var w := s[0..NextToken(s, 0).next - 1];
      BlankToEnd(s, StringStop(s, |w| + 1));
    }
    forall w | StringAhead(s, 0, w) ensures NextToken(s, 0) == Ok(QUOTE, |w| + 1) {
      QuoteToken(s, 0, w);
    }
  }

  lemma BlankToEnd(s: bytes, i: nat)
    requires i <= |s|
    ensures SkipSpace(s, i) == |s| <==> Blank(s[i..])
  {
    SkipSpaceSound(s, i, SkipSpace(s, i));
    if Blank(s[i..]) {
      assert s[i..i + |s[i..]|] == s[i..];
      SkipSpaceAt(s, i, s[i..], |s|);
    } else {
      assert s[i..|s|] == s[i..];
    }
  }
}
