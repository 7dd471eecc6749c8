/** The characters of JSON as json11 reads and prints them, said with the characters themselves, and the printed text of
    every value. */
module JsonText {
  import opened Bytes
  import opened JsonLexemes
  import opened JsonValue
  import opened JsonScan
  import opened JsonGrammar
  import opened JsonPrinter
  import opened JsonTheorems

  // Characters.

  lemma Characters()
    ensures Ascii("\"\\{}[],:-.0u") ==
      [QUOTE, BACKSLASH, OPEN_BRACE, CLOSE_BRACE, OPEN_BRACKET, CLOSE_BRACKET, COMMA, COLON, MINUS, POINT, ZERO,
       LOWER_U]
    ensures TRUE_TEXT == Ascii("true") && FALSE_TEXT == Ascii("false") && NULL_TEXT == Ascii("null")
    ensures MAX_DEPTH == 200 && DIGITS10 == 9
  {
  }

  lemma Classes(c: byte)
    ensures IsSpace(c) <==> c in Ascii(" \t\n\r")
    ensures IsExponentMark(c) <==> c in Ascii("eE")
    ensures IsSign(c) <==> c in Ascii("+-")
    ensures IsShortEscape(c) <==> c in Ascii("\"\\/bfnrt")
  {
    assert Ascii(" \t\n\r") == [0x20, 0x09, 0x0A, 0x0D] && Ascii("eE") == [0x65, 0x45] && Ascii("+-") == [0x2B, 0x2D];
    assert Ascii("\"\\/bfnrt") == [0x22, 0x5C, 0x2F, 0x62, 0x66, 0x6E, 0x72, 0x74];
  }

  /** The byte that each two-character escape stands for. */
  lemma ShortEscapes(k: nat)
    requires k < 8
    ensures ShortEscapeValue(Ascii("\"\\/bfnrt")[k]) == [0x22, 0x5C, 0x2F, 0x08, 0x0C, 0x0A, 0x0D, 0x09][k]
  {
  }

  /** Hexadecimal digits of either case. */
  lemma HexDigits(v: nat, c: byte)
    requires v < 16
    ensures IsHexDigit(Ascii("0123456789abcdef")[v]) && HexValue(Ascii("0123456789abcdef")[v]) == v
    ensures IsHexDigit(Ascii("0123456789ABCDEF")[v]) && HexValue(Ascii("0123456789ABCDEF")[v]) == v
    ensures HexDigit(v) == Ascii("0123456789abcdef")[v]
    ensures IsHexDigit(c) <==> c in Ascii("0123456789abcdefABCDEF")
  {
    var digits := Ascii("0123456789abcdefABCDEF");
    assert forall k | 0 <= k < 22 ::
      digits[k] == if k < 10 then 0x30 + k else if k < 16 then 0x61 + (k - 10) else 0x41 + (k - 16);
    assert Ascii("0123456789abcdef")[v] == if v < 10 then 0x30 + v else 0x61 + (v - 10);
    assert Ascii("0123456789ABCDEF")[v] == if v < 10 then 0x30 + v else 0x41 + (v - 10);
    if IsHexDigit(c) {
      assert c == digits[if IsDigit(c) then c - 0x30 else if c >= 0x61 then c - 0x61 + 10 else c - 0x41 + 16];
    }
  }

  /** Four digits from the most significant one. */
  lemma HexNumber(a: nat, b: nat, c: nat, d: nat)
    requires a < 16 && b < 16 && c < 16 && d < 16
    ensures var digits := Ascii("0123456789abcdef");
      var h := [digits[a], digits[b], digits[c], digits[d]];
      IsHex4(h) && Hex4(h) == 4096 * a + 256 * b + 16 * c + d
  {
    HexDigits(a, 0);
    HexDigits(b, 0);
    HexDigits(c, 0);
    HexDigits(d, 0);
    hide Ascii, HexValue, IsHexDigit;
  }

  /** The words, with white space around them, and what they are read as. */
  lemma Words(before: bytes, after: bytes)
    requires Blank(before) && Blank(after)
    ensures var s := before + (Ascii("null") + after); ParseText(s) == Ok(Null, |s|)
    ensures var s := before + (Ascii("true") + after); ParseText(s) == Ok(Bool(true), |s|)
    ensures var s := before + (Ascii("false") + after); ParseText(s) == Ok(Bool(false), |s|)
  {
    Characters();
    hide ParseText, Ascii;
    ParseExact(before + (Ascii("null") + after), before, NullWord, after);
    ParseExact(before + (Ascii("true") + after), before, TrueWord, after);
    ParseExact(before + (Ascii("false") + after), before, FalseWord, after);
  }

  // The printed text.

  lemma DumpScalars(n: int32, b: bool, x: real, fmt: Format)
    ensures Dump(Null, fmt) == Ascii("null")
    ensures Dump(Bool(b), fmt) == if b then Ascii("true") else Ascii("false")
    ensures Dump(Int(n), fmt) == if n >= 0 then Decimal(n as int) else Ascii("-") + Decimal(-(n as int))
    ensures Dump(Double(x), fmt) == fmt(x)
  {
    Characters();
    assert Ascii("-") == [0x2D];
  }

  /** An array is printed as its elements between brackets, with a comma and a space between them. */
  lemma DumpArray(xs: seq<Json>, fmt: Format)
    ensures Dump(Array(xs), fmt) ==
      Ascii("[") + Joined(seq(|xs|, k requires 0 <= k < |xs| => Dump(xs[k], fmt)), Ascii(", ")) + Ascii("]")
  {
    DumpElements(xs, true, fmt);
    assert Ascii("[") == [OPEN_BRACKET] && Ascii("]") == [CLOSE_BRACKET];
  }

  lemma {:induction false} DumpElements(xs: seq<Json>, first: bool, fmt: Format)
    ensures DumpItems(xs, first, fmt) ==
      (if first || xs == [] then [] else Ascii(", ")) +
      Joined(seq(|xs|, k requires 0 <= k < |xs| => Dump(xs[k], fmt)), Ascii(", "))
    decreases |xs|
  {
    hide Dump;
    assert Ascii(", ") == SEPARATOR;
    if xs != [] {
      DumpElements(xs[1..], false, fmt);
      var parts := seq(|xs|, k requires 0 <= k < |xs| => Dump(xs[k], fmt));
      assert parts[1..] == seq(|xs[1..]|, k requires 0 <= k < |xs[1..]| => Dump(xs[1..][k], fmt));
    }
  }

  /** A member is printed as its name, a colon and a space, and its value. */
  function MemberText(m: Member, fmt: Format): bytes {
    Dump(String(m.key), fmt) + Ascii(": ") + Dump(m.value, fmt)
  }

  /** An object is printed as its members between braces, with a comma and a space between them. */
  lemma DumpObject(ms: seq<Member>, fmt: Format)
    ensures Dump(Object(ms), fmt) ==
      Ascii("{") + Joined(seq(|ms|, k requires 0 <= k < |ms| => MemberText(ms[k], fmt)), Ascii(", ")) + Ascii("}")
  {
    DumpAllMembers(ms, true, fmt);
    assert Ascii("{") == [OPEN_BRACE] && Ascii("}") == [CLOSE_BRACE];
  }

  lemma {:induction false} DumpAllMembers(ms: seq<Member>, first: bool, fmt: Format)
    ensures DumpMembers(ms, first, fmt) ==
      (if first || ms == [] then [] else Ascii(", ")) +
      Joined(seq(|ms|, k requires 0 <= k < |ms| => MemberText(ms[k], fmt)), Ascii(", "))
    decreases |ms|
  {
    hide Dump, DumpMember;
    assert Ascii(", ") == SEPARATOR;
    if ms != [] {
      DumpAllMembers(ms[1..], false, fmt);
      MemberPrinted(ms[0], fmt);
      hide DumpMember, MemberText;
      var parts := seq(|ms|, k requires 0 <= k < |ms| => MemberText(ms[k], fmt));
      assert parts[1..] == seq(|ms[1..]|, k requires 0 <= k < |ms[1..]| => MemberText(ms[1..][k], fmt));
    }
  }

  lemma MemberPrinted(m: Member, fmt: Format)
    ensures DumpMember(m, fmt) == MemberText(m, fmt)
  {
    assert Ascii(": ") == [COLON, 0x20];
  }

  /** What is printed for a byte by itself. */
  function EscapeOf(c: byte): bytes {
    if c == 0x22 then Ascii("\\\"")
    else if c == 0x5C then Ascii("\\\\")
    else if c == 0x08 then Ascii("\\b")
    else if c == 0x0C then Ascii("\\f")
    else if c == 0x0A then Ascii("\\n")
    else if c == 0x0D then Ascii("\\r")
    else if c == 0x09 then Ascii("\\t")
    else if c < 0x20 then Ascii("\\u00") + [Ascii("01")[c / 16], Ascii("0123456789abcdef")[c % 16]]
    else [c]
  }

  /** The three bytes of the line separator U+2028 and of the paragraph separator U+2029. */
  predicate StartsSeparator(s: bytes) {
    |s| >= 3 && s[0] == 0xE2 && s[1] == 0x80 && (s[2] == 0xA8 || s[2] == 0xA9)
  }

  /** How a string that is not empty begins when it is printed, and how many of its bytes that stands for. */
  function FirstEscape(s: bytes): (bytes, nat)
    requires s != []
  {
    if StartsSeparator(s) then (if s[2] == 0xA8 then Ascii("\\u2028") else Ascii("\\u2029"), 3)
    else (EscapeOf(s[0]), 1)
  }

  lemma {:induction false} EscapeShift(h: bytes, t: bytes, i: nat)
    requires i <= |t|
    ensures EscapeFrom(h + t, |h| + i) == EscapeFrom(t, i)
    decreases |t| - i
  {
    hide Escaped;
    if i < |t| {
      SameEscape(h, t, i);
      EscapeShift(h, t, i + Escaped(t, i).1);
    }
  }

  lemma SameEscape(h: bytes, t: bytes, i: nat)
    requires i < |t|
    ensures Escaped(h + t, |h| + i) == Escaped(t, i)
  {
    var s := h + t;
    assert CharAt(s, |h| + i) == CharAt(t, i) && CharAt(s, |h| + i + 1) == CharAt(t, i + 1);
    assert CharAt(s, |h| + i + 2) == CharAt(t, i + 2);
  }

  lemma EscapeHead(s: bytes)
    requires s != []
    ensures Escaped(s, 0) == FirstEscape(s)
  {
    var c := s[0];
    assert Ascii("\\\"") == [0x5C, 0x22] && Ascii("\\\\") == [0x5C, 0x5C] && Ascii("\\b") == [0x5C, 0x62];
    assert Ascii("\\f") == [0x5C, 0x66] && Ascii("\\n") == [0x5C, 0x6E] && Ascii("\\r") == [0x5C, 0x72];
    assert Ascii("\\t") == [0x5C, 0x74];
    assert Ascii("\\u2028") == LINE_SEPARATOR && Ascii("\\u2029") == PARAGRAPH_SEPARATOR;
    if c < 0x20 {
      ControlHead(c);
    }
    hide Ascii, ControlEscape;
  }

  lemma ControlHead(c: byte)
    requires c < 0x20
    ensures ControlEscape(c) == Ascii("\\u00") + [Ascii("01")[c / 16], Ascii("0123456789abcdef")[c % 16]]
  {
    HexDigits(c % 16, 0);
    HexDigits(c / 16, 0);
    assert Ascii("\\u00") == [0x5C, 0x75, 0x30, 0x30];
    assert Ascii("01")[c / 16] == Ascii("0123456789abcdef")[c / 16];
  }

  lemma EscapeTurn(s: bytes)
    requires s != []
    ensures EscapeFrom(s, 0) == Escaped(s, 0).0 + EscapeFrom(s, Escaped(s, 0).1)
  {
    hide Escaped;
  }

  lemma EscapeRest(s: bytes)
    requires s != []
    ensures var (escape, width) := Escaped(s, 0);
      width <= |s| && EscapeFrom(s, 0) == escape + EscapeFrom(s[width..], 0)
  {
    hide *;
    EscapeTurn(s);
    var width: nat := Escaped(s, 0).1;
    assert s == s[..width] + s[width..];
    EscapeShift(s[..width], s[width..], 0);
  }

  lemma StringPrinted(s: bytes, fmt: Format)
    ensures Dump(String(s), fmt) == Ascii("\"") + EscapeFrom(s, 0) + Ascii("\"")
    ensures Dump(String(s), fmt)[1..] == EscapeFrom(s, 0) + Ascii("\"")
  {
    hide EscapeFrom;
    assert Ascii("\"") == [QUOTE];
  }

  lemma EmptyPrinted()
    ensures Ascii("\"") + EscapeFrom([], 0) + Ascii("\"") == Ascii("\"\"")
  {
    assert EscapeFrom([], 0) == [];
  }

  /** A string is printed between quotation marks, byte by byte: quotation marks, backslashes and control
      characters with their escapes, the two separators of Unicode with theirs, and every other byte as it is. */
  lemma DumpText(s: bytes, fmt: Format)
    ensures s == [] ==> Dump(String(s), fmt) == Ascii("\"\"")
    ensures s != [] ==>
      var (escape, width) := FirstEscape(s);
      width <= |s| && Dump(String(s), fmt) == Ascii("\"") + escape + Dump(String(s[width..]), fmt)[1..]
  {
    hide *;
    StringPrinted(s, fmt);
    if s == [] {
      EmptyPrinted();
    } else {
      EscapeHead(s);
      EscapeRest(s);
      var (escape, width) := Escaped(s, 0);
      StringPrinted(s[width..], fmt);
    }
  }
}
