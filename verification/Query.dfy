/** Query strings of cpr: percent-encoding by section 2.1 of RFC 3986, and parameters joined into a query that
    decodes to the parameters again. */
module Query {
  import opened Bytes
  import opened Splits
  import opened Wrappers

  const PERCENT: byte := 0x25
  const AMPERSAND: byte := 0x26
  const EQUALS: byte := 0x3D

  predicate IsAlnum(c: byte) {
    IsDigit(c) || 0x41 <= c <= 0x5A || 0x61 <= c <= 0x7A
  }

  /** The unreserved characters of section 2.3 of RFC 3986. */
  predicate IsUnreserved(c: byte) {
    IsAlnum(c) || c == 0x2D || c == 0x5F || c == 0x2E || c == 0x7E
  }

  function EncodeChar(c: byte): bytes {
    if IsUnreserved(c) then [c] else [PERCENT, HexDigit(c / 16), HexDigit(c % 16)]
  }

  function Encode(value: bytes): bytes {
    if value == [] then [] else Encode(value[..|value| - 1]) + EncodeChar(value[|value| - 1])
  }

  /** `urlEncode`, where a stream prints a byte as two lower-case hexadecimal digits. */
  method UrlEncode(value: bytes) returns (escaped: bytes)
    ensures escaped == Encode(value)
  {
    escaped := [];
    var i := 0;
    while i < |value|
      invariant 0 <= i <= |value|
      invariant escaped == Encode(value[..i])
    {
      var c := value[i];
      assert value[..i + 1][..i] == value[..i];
      i := i + 1;
      if IsAlnum(c) || c == 0x2D || c == 0x5F || c == 0x2E || c == 0x7E {
        escaped := escaped + [c];
        continue;
      }
      escaped := escaped + [PERCENT] + [HexDigit(c / 16), HexDigit(c % 16)];
    }
    assert value[..i] == value;
  }

  /** Percent-decoding; a `%` without two hexadecimal digits is an error. */
  function Decode(s: bytes): Option<bytes> {
    if s == [] then Some([])
    else if s[0] == PERCENT then
      if |s| >= 3 && IsHexDigit(s[1]) && IsHexDigit(s[2]) then
        match Decode(s[3..])
        case None => None
        case Some(rest) => Some([HexValue(s[1]) * 16 + HexValue(s[2])] + rest)
      else None
    else
      match Decode(s[1..])
      case None => None
      case Some(rest) => Some([s[0]] + rest)
  }

  lemma DecodeEncodedChar(c: byte, s: bytes)
    ensures Decode(EncodeChar(c) + s) == match Decode(s) case None => None case Some(rest) => Some([c] + rest)
  {
    var e := EncodeChar(c) + s;
    if IsUnreserved(c) {
      assert e[1..] == s;
    } else {
      assert e[3..] == s;
    }
  }

  lemma {:induction false} DecodeEncodedFrom(value: bytes, s: bytes)
    requires Decode(s).Some?
    ensures Decode(Encode(value) + s) == Some(value + Decode(s).value)
  {
    hide Decode, EncodeChar;
    if value == [] {
      assert Encode(value) + s == s && value + Decode(s).value == Decode(s).value;
    } else {
      var n := |value| - 1;
      var tail := EncodeChar(value[n]) + s;
      DecodeEncodedChar(value[n], s);
      DecodeEncodedFrom(value[..n], tail);
      assert Encode(value) + s == Encode(value[..n]) + tail;
      assert value[..n] + ([value[n]] + Decode(s).value) == value + Decode(s).value;
    }
  }

  /** What is encoded decodes back. */
  lemma DecodeEncoded(value: bytes)
    ensures Decode(Encode(value)) == Some(value)
  {
    DecodeEncodedFrom(value, []);
    assert Encode(value) + [] == Encode(value) && value + [] == value;
  }

  predicate IsMark(c: byte) {
    c in Ascii("ABCDEFGHIJKLMNOPQRSTUVWXYZ") || c in Ascii("abcdefghijklmnopqrstuvwxyz") || c in Ascii("0123456789-_.~")
  }

  /** How a byte is encoded: letters, digits and four marks as they are, every other one as a percent sign and two
      lower-case hexadecimal digits. */
  lemma EncodedByte(c: byte)
    ensures Encode([c]) ==
      if IsMark(c) then [c] else Ascii("%") + [Ascii("0123456789abcdef")[c / 16], Ascii("0123456789abcdef")[c % 16]]
  {
    assert [c][..0] == [];
    assert Encode([c]) == [] + EncodeChar(c);
    Unreserved(c);
    assert Ascii("%") == [PERCENT];
    assert forall v | 0 <= v < 16 :: HexDigit(v) == Ascii("0123456789abcdef")[v];
    hide IsMark, IsUnreserved;
  }

  lemma Unreserved(c: byte)
    ensures IsUnreserved(c) <==> IsMark(c)
  {
    UpperCase(c);
    LowerCase(c);
    Others(c);
    hide Ascii;
  }

  lemma UpperCase(c: byte)
    ensures c in Ascii("ABCDEFGHIJKLMNOPQRSTUVWXYZ") <==> 0x41 <= c <= 0x5A
  {
    var letters := Ascii("ABCDEFGHIJKLMNOPQRSTUVWXYZ");
    assert forall k | 0 <= k < 26 :: letters[k] == 0x41 + k;
    if 0x41 <= c <= 0x5A {
      assert letters[c - 0x41] == c;
    }
  }

  lemma LowerCase(c: byte)
    ensures c in Ascii("abcdefghijklmnopqrstuvwxyz") <==> 0x61 <= c <= 0x7A
  {
    var letters := Ascii("abcdefghijklmnopqrstuvwxyz");
    assert forall k | 0 <= k < 26 :: letters[k] == 0x61 + k;
    if 0x61 <= c <= 0x7A {
      assert letters[c - 0x61] == c;
    }
  }

  lemma Others(c: byte)
    ensures c in Ascii("0123456789-_.~") <==> 0x30 <= c <= 0x39 || c == 0x2D || c == 0x5F || c == 0x2E || c == 0x7E
  {
    var others := Ascii("0123456789-_.~");
    assert forall k | 0 <= k < 10 :: others[k] == 0x30 + k;
    assert others[10] == 0x2D && others[11] == 0x5F && others[12] == 0x2E && others[13] == 0x7E;
    if 0x30 <= c <= 0x39 {
      assert others[c - 0x30] == c;
    }
  }

  /** A text is encoded byte by byte. */
  lemma {:induction false} EncodedConcat(a: bytes, b: bytes)
    ensures Encode(a + b) == Encode(a) + Encode(b)
    decreases |b|
  {
    if b == [] {
      assert a + b == a;
    } else {
      var n := |b| - 1;
      assert (a + b)[..|a + b| - 1] == a + b[..n] && (a + b)[|a + b| - 1] == b[n];
      EncodedConcat(a, b[..n]);
    }
  }

  /** Encoding leaves only unreserved characters and `%`. */
  lemma {:induction false} EncodedCharacters(value: bytes)
    ensures forall i | 0 <= i < |Encode(value)| :: IsUnreserved(Encode(value)[i]) || Encode(value)[i] == PERCENT
    ensures Encode(value) == [] <==> value == []
  {
    if value != [] {
      EncodedCharacters(value[..|value| - 1]);
    }
  }

  // Parameters.

  datatype Parameter = Parameter(key: bytes, value: bytes)

  const EMPTY := Parameter([], [])

  function Item(p: Parameter): bytes {
    if p.value == [] then Encode(p.key) else Encode(p.key) + ([EQUALS] + Encode(p.value))
  }

  function Append(content: bytes, p: Parameter): bytes {
    if content == [] then Item(p) else content + ([AMPERSAND] + Item(p))
  }

  /** What adding the parameters one by one to an empty query makes of it. */
  function Content(list: seq<Parameter>): bytes {
    if list == [] then [] else Append(Content(list[..|list| - 1]), list[|list| - 1])
  }

  /** The query is the parameters with ampersands between them, each its encoded key, and an equals sign and its encoded
      value if it has one; empty parameters at the beginning are lost. */
  lemma {:induction false} ContentJoined(list: seq<Parameter>, items: seq<bytes>)
    requires list == [] || list[0] != EMPTY
    requires |items| == |list|
    requires forall k | 0 <= k < |list| ::
      items[k] == if list[k].value == [] then Encode(list[k].key)
                  else Encode(list[k].key) + Ascii("=") + Encode(list[k].value)
    ensures Content(list) == Joined(items, Ascii("&"))
    ensures Content(list) == [] <==> list == []
    decreases |list|
  {
    hide Encode, Item, Append, Joined, Ascii, Content;
    ContentStep(list);
    NothingJoined(Ascii("&"));
    if list != [] {
      var n := |list| - 1;
      ItemText(list[n], items[n]);
      ContentJoined(list[..n], items[..n]);
      assert items == items[..n] + [items[n]];
      AppendText(Content(list[..n]), list[n]);
      JoinedLast(items[..n], items[n], Ascii("&"));
    }
  }

  lemma ContentStep(list: seq<Parameter>)
    ensures Content(list) == if list == [] then [] else Append(Content(list[..|list| - 1]), list[|list| - 1])
  {
    hide Append;
  }

  lemma NothingJoined(separator: bytes)
    ensures Joined([], separator) == []
  {
  }

  lemma ItemText(p: Parameter, item: bytes)
    requires item == if p.value == [] then Encode(p.key) else Encode(p.key) + Ascii("=") + Encode(p.value)
    ensures Item(p) == item && (item == [] <==> p == EMPTY)
  {
    hide Encode;
    assert Ascii("=") == [EQUALS];
    EncodedCharacters(p.key);
  }

  lemma AppendText(content: bytes, p: Parameter)
    ensures Append(content, p) == if content == [] then Item(p) else content + Ascii("&") + Item(p)
  {
    hide Item;
    assert Ascii("&") == [AMPERSAND];
  }

  class Parameters {
    var content: bytes

    constructor ()
      ensures content == []
    {
      content := [];
    }

    method AddParameter(p: Parameter)
      modifies this
      ensures content == Append(old(content), p)
    {
      if content != [] {
        content := content + [AMPERSAND];
      }
      var escapedKey := UrlEncode(p.key);
      if p.value == [] {
        content := content + escapedKey;
      } else {
        var escapedValue := UrlEncode(p.value);
        content := content + (escapedKey + [EQUALS] + escapedValue);
      }
      assert content == Append(old(content), p) by {
        var item := Item(p);
        assert old(content) + [AMPERSAND] + item == old(content) + ([AMPERSAND] + item);
        assert Encode(p.key) + [EQUALS] + Encode(p.value) == Encode(p.key) + ([EQUALS] + Encode(p.value));
        assert [] + item == item;
      }
    }

    /** The constructor from a list. */
    constructor FromList(parameters: seq<Parameter>)
      ensures content == Content(parameters)
    {
      content := [];
      new;
      var i := 0;
      while i < |parameters|
        invariant 0 <= i <= |parameters|
        invariant content == Content(parameters[..i])
      {
        assert parameters[..i + 1][..i] == parameters[..i];
        AddParameter(parameters[i]);
        i := i + 1;
      }
      assert parameters[..i] == parameters;
    }
  }

  // Reading a query.

  /** Key and value of one piece, divided at its first `=`. */
  function ReadItem(piece: bytes): Option<Parameter> {
    var at := FirstEquals(piece, 0);
    var value := if at < |piece| then piece[at + 1..] else [];
    if Decode(piece[..at]).Some? && Decode(value).Some?
    then Some(Parameter(Decode(piece[..at]).value, Decode(value).value)) else None
  }

  function FirstEquals(s: bytes, i: nat): (at: nat)
    requires i <= |s|
    ensures i <= at <= |s| && (at < |s| ==> s[at] == EQUALS) && forall j | i <= j < at :: s[j] != EQUALS
    decreases |s| - i
  {
    if i < |s| && s[i] != EQUALS then FirstEquals(s, i + 1) else i
  }

  function ReadItems(pieces: seq<bytes>): Option<seq<Parameter>> {
    if pieces == [] then Some([])
    else
      match (ReadItems(pieces[..|pieces| - 1]), ReadItem(pieces[|pieces| - 1]))
      case (Some(list), Some(p)) => Some(list + [p])
      case _ => None
  }

  /** The parameters of a query; an empty one has none. */
  function Read(s: bytes): Option<seq<Parameter>> {
    if s == [] then Some([]) else ReadItems(Split(s, AMPERSAND))
  }

  lemma ReadEncodedItem(p: Parameter)
    ensures ReadItem(Item(p)) == Some(p)
    ensures AMPERSAND !in Item(p) && (Item(p) == [] <==> p == EMPTY)
  {
    EncodedCharacters(p.key);
    EncodedCharacters(p.value);
    DecodeEncoded(p.key);
    DecodeEncoded(p.value);
    hide Decode, Encode;
    var item := Item(p);
    var at := FirstEquals(item, 0);
    if p.value == [] {
      assert at == |item| && item[..at] == item;
    } else {
      assert item[|Encode(p.key)|] == EQUALS;
      assert forall j | 0 <= j < |Encode(p.key)| :: item[j] == Encode(p.key)[j];
      assert at == |Encode(p.key)|;
      assert item[..at] == Encode(p.key) && item[at + 1..] == Encode(p.value);
    }
  }

  /** The list without the empty parameters it starts with. */
  function DropEmpty(list: seq<Parameter>): seq<Parameter> {
    if list != [] && list[0] == EMPTY then DropEmpty(list[1..]) else list
  }

  lemma {:induction false} DropEmptyLast(list: seq<Parameter>, p: Parameter)
    ensures DropEmpty(list + [p]) ==
      if DropEmpty(list) != [] then DropEmpty(list) + [p] else if p == EMPTY then [] else [p]
  {
    if list == [] {
      assert list + [p] == [p];
    } else {
      assert (list + [p])[1..] == list[1..] + [p];
      DropEmptyLast(list[1..], p);
    }
  }

  /** The query of any list of parameters reads back as the list, but for empty parameters at its start. */
  lemma {:induction false} ReadContent(list: seq<Parameter>)
    ensures Read(Content(list)) == Some(DropEmpty(list))
    ensures Content(list) == [] <==> DropEmpty(list) == []
  {
    if list != [] {
      var before, p := list[..|list| - 1], list[|list| - 1];
      assert list == before + [p];
      ReadContent(before);
      DropEmptyLast(before, p);
      ReadEncodedItem(p);
      hide ReadItem, Item, Split, DropEmpty, Content;
      var content := Content(before);
      ContentLast(before, p);
      if content == [] {
        SplitNone(Item(p), AMPERSAND);
        ReadOne(Item(p));
      } else {
        SplitLast(content, AMPERSAND, Item(p));
        ReadLast(Split(content, AMPERSAND), Item(p));
      }
    }
  }

  lemma ContentLast(before: seq<Parameter>, p: Parameter)
    ensures Content(before + [p]) == Append(Content(before), p)
  {
    assert (before + [p])[..|before|] == before;
  }

  lemma ReadOne(piece: bytes)
    requires ReadItem(piece).Some?
    ensures ReadItems([piece]) == Some([ReadItem(piece).value])
  {
    assert [piece][..0] == [];
    assert [] + [ReadItem(piece).value] == [ReadItem(piece).value];
  }

  lemma ReadLast(pieces: seq<bytes>, piece: bytes)
    requires ReadItems(pieces).Some? && ReadItem(piece).Some?
    ensures ReadItems(pieces + [piece]) == Some(ReadItems(pieces).value + [ReadItem(piece).value])
  {
    assert (pieces + [piece])[..|pieces|] == pieces;
  }

  lemma DropEmptySame(list: seq<Parameter>)
    ensures |DropEmpty(list)| <= |list|
    ensures DropEmpty(list) == list <==> list == [] || list[0] != EMPTY
  {
  }

  /** It reads back exactly when the list does not start with the empty parameter. */
  lemma ReadExact(list: seq<Parameter>)
    ensures Read(Content(list)) == Some(list) <==> list == [] || list[0] != EMPTY
  {
    hide Read, Content, DropEmpty;
    ReadContent(list);
    DropEmptySame(list);
  }
}
