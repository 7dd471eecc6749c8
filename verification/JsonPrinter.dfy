/** `Json::dump`: the text of a value, and the methods that append it to a string. */
module JsonPrinter {
  import opened Bytes
  import opened JsonLexemes
  import opened JsonValue

  /** What `snprintf("%.17g")` prints for a finite double. */
  type Format = real -> bytes

  /** `%d`. */
  function DumpInt(n: int): bytes {
    if n < 0 then [MINUS] + Decimal(-n) else Decimal(n)
  }

  /** `\u%04x` for a control character. */
  function ControlEscape(c: byte): bytes
    requires c <= 0x1F
  {
    [BACKSLASH, LOWER_U, 0x30, 0x30, HexDigit(c / 16), HexDigit(c % 16)]
  }

  /** The three bytes of U+2028 or U+2029 start at `i`. */
  predicate IsSeparator(value: bytes, i: nat, last: byte) {
    CharAt(value, i) == 0xE2 && CharAt(value, i + 1) == 0x80 && CharAt(value, i + 2) == last
  }

  /** What is printed for the byte at `i`, and how many bytes that covers. */
  function Escaped(value: bytes, i: nat): (r: (bytes, nat))
    requires i < |value|
    ensures 1 <= r.1 && i + r.1 <= |value|
  {
    var c := value[i];
    if c == BACKSLASH then ([BACKSLASH, BACKSLASH], 1)
    else if c == QUOTE then ([BACKSLASH, QUOTE], 1)
    else if c == 0x08 then ([BACKSLASH, 0x62], 1)
    else if c == 0x0C then ([BACKSLASH, 0x66], 1)
    else if c == 0x0A then ([BACKSLASH, 0x6E], 1)
    else if c == 0x0D then ([BACKSLASH, 0x72], 1)
    else if c == 0x09 then ([BACKSLASH, 0x74], 1)
    else if c <= 0x1F then (ControlEscape(c), 1)
    else if IsSeparator(value, i, 0xA8) then (LINE_SEPARATOR, 3)
    else if IsSeparator(value, i, 0xA9) then (PARAGRAPH_SEPARATOR, 3)
    else ([c], 1)
  }

  /** The characters of a string from index `i` on, escaped. */
  function EscapeFrom(value: bytes, i: nat): bytes
    requires i <= |value|
    decreases |value| - i
  {
    if i == |value| then [] else Escaped(value, i).0 + EscapeFrom(value, i + Escaped(value, i).1)
  }

  const LINE_SEPARATOR: bytes := [BACKSLASH, LOWER_U, 0x32, 0x30, 0x32, 0x38]
  const PARAGRAPH_SEPARATOR: bytes := [BACKSLASH, LOWER_U, 0x32, 0x30, 0x32, 0x39]

  function DumpString(value: bytes): bytes {
    [QUOTE] + EscapeFrom(value, 0) + [QUOTE]
  }

  const SEPARATOR: bytes := [COMMA, 0x20]

  function Dump(v: Json, fmt: Format): bytes
    decreases v, 1
  {
    match v
    case Null => NULL_TEXT
    case Int(n) => DumpInt(n as int)
    case Double(x) => fmt(x)
    case Bool(b) => if b then TRUE_TEXT else FALSE_TEXT
    case String(s) => DumpString(s)
    case Array(xs) => [OPEN_BRACKET] + DumpItems(xs, true, fmt) + [CLOSE_BRACKET]
    case Object(ms) => [OPEN_BRACE] + DumpMembers(ms, true, fmt) + [CLOSE_BRACE]
  }

  function DumpItems(xs: seq<Json>, first: bool, fmt: Format): bytes
    decreases xs, 0
  {
    if xs == [] then []
    else (if first then [] else SEPARATOR) + Dump(xs[0], fmt) + DumpItems(xs[1..], false, fmt)
  }

  function DumpMember(m: Member, fmt: Format): bytes
    decreases m
  {
    DumpString(m.key) + [COLON, 0x20] + Dump(m.value, fmt)
  }

  function DumpMembers(ms: seq<Member>, first: bool, fmt: Format): bytes
    decreases ms, 0
  {
    if ms == [] then []
    else (if first then [] else SEPARATOR) + DumpMember(ms[0], fmt) + DumpMembers(ms[1..], false, fmt)
  }

  /** A `std::string` that text is appended to. */
  class Buffer {
    var text: bytes

    constructor ()
      ensures text == []
    {
      text := [];
    }

    method Append(t: bytes)
      modifies this
      ensures text == old(text) + t
    {
      text := text + t;
    }
  }

  /** One turn of the loop over the characters of a string. */
  method WriteChar(value: bytes, i: nat, out: Buffer) returns (next: nat)
    requires i < |value|
    modifies out
    ensures out.text == old(out.text) + Escaped(value, i).0 && next == i + Escaped(value, i).1
  {
    var ch := value[i];
    next := i + 1;
    if ch == BACKSLASH {
      out.Append([BACKSLASH, BACKSLASH]);
    } else if ch == QUOTE {
      out.Append([BACKSLASH, QUOTE]);
    } else if ch == 0x08 {
      out.Append([BACKSLASH, 0x62]);
    } else if ch == 0x0C {
      out.Append([BACKSLASH, 0x66]);
    } else if ch == 0x0A {
      out.Append([BACKSLASH, 0x6E]);
    } else if ch == 0x0D {
      out.Append([BACKSLASH, 0x72]);
    } else if ch == 0x09 {
      out.Append([BACKSLASH, 0x74]);
    } else if ch <= 0x1F {
      out.Append(ControlEscape(ch));
    } else if IsSeparator(value, i, 0xA8) {
      out.Append(LINE_SEPARATOR);
      next := i + 3;
    } else if IsSeparator(value, i, 0xA9) {
      out.Append(PARAGRAPH_SEPARATOR);
      next := i + 3;
    } else {
      out.Append([ch]);
    }
  }

  method WriteString(value: bytes, out: Buffer)
    modifies out
    ensures out.text == old(out.text) + DumpString(value)
  {
    hide Escaped;
    out.Append([QUOTE]);
    var i := 0;
    ghost var start := old(out.text) + [QUOTE];
    while i < |value|
      invariant i <= |value|
      invariant out.text + EscapeFrom(value, i) == start + EscapeFrom(value, 0)
    {
      ghost var at, before := i, out.text;
      i := WriteChar(value, i, out);
      assert before + EscapeFrom(value, at) == out.text + EscapeFrom(value, i);
    }
    assert out.text + [] == out.text;
    assert start + EscapeFrom(value, 0) + [QUOTE] == old(out.text) + DumpString(value);
    out.Append([QUOTE]);
  }

  method WriteItems(values: seq<Json>, fmt: Format, out: Buffer)
    modifies out
    ensures out.text == old(out.text) + [OPEN_BRACKET] + DumpItems(values, true, fmt) + [CLOSE_BRACKET]
    decreases values, 0
  {
    hide Dump;
    var first := true;
    out.Append([OPEN_BRACKET]);
    var k := 0;
    while k < |values|
      invariant k <= |values| && (first <==> k == 0)
      invariant out.text + DumpItems(values[k..], first, fmt) ==
                old(out.text) + [OPEN_BRACKET] + DumpItems(values, true, fmt)
    {
      ghost var before := out.text;
      if !first {
        out.Append(SEPARATOR);
      }
      Write(values[k], fmt, out);
      assert values[k..][1..] == values[k + 1..];
      assert out.text == before + ((if first then [] else SEPARATOR) + Dump(values[k], fmt));
      first := false;
      k := k + 1;
    }
    out.Append([CLOSE_BRACKET]);
  }

  method WriteMember(m: Member, fmt: Format, out: Buffer)
    modifies out
    ensures out.text == old(out.text) + DumpMember(m, fmt)
    decreases m
  {
    hide Dump, DumpString;
    WriteString(m.key, out);
    out.Append([COLON, 0x20]);
    Write(m.value, fmt, out);
  }

  method WriteMembers(values: seq<Member>, fmt: Format, out: Buffer)
    modifies out
    ensures out.text == old(out.text) + [OPEN_BRACE] + DumpMembers(values, true, fmt) + [CLOSE_BRACE]
    decreases values, 0
  {
    hide DumpMember;
    var first := true;
    out.Append([OPEN_BRACE]);
    var k := 0;
    while k < |values|
      invariant k <= |values| && (first <==> k == 0)
      invariant out.text + DumpMembers(values[k..], first, fmt) ==
                old(out.text) + [OPEN_BRACE] + DumpMembers(values, true, fmt)
    {
      ghost var before := out.text;
      if !first {
        out.Append(SEPARATOR);
      }
      WriteMember(values[k], fmt, out);
      assert values[k..][1..] == values[k + 1..];
      assert out.text == before + ((if first then [] else SEPARATOR) + DumpMember(values[k], fmt));
      first := false;
      k := k + 1;
    }
    out.Append([CLOSE_BRACE]);
  }

  /** `Json::dump(out)`. */
  method Write(v: Json, fmt: Format, out: Buffer)
    modifies out
    ensures out.text == old(out.text) + Dump(v, fmt)
    decreases v, 1
  {
    match v
    case Null => out.Append(NULL_TEXT);
    case Int(n) => out.Append(DumpInt(n as int));
    case Double(x) => out.Append(fmt(x));
    case Bool(b) => out.Append(if b then TRUE_TEXT else FALSE_TEXT);
    case String(s) => WriteString(s, out);
    case Array(xs) => WriteItems(xs, fmt, out);
    case Object(ms) => WriteMembers(ms, fmt, out);
  }
}
