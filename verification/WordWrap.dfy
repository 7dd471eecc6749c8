/** The word wrapping of TCLAP's help texts. */
module WordWrap {
  import opened Bytes
  import opened Wrappers

  const SPACE: byte := 0x20
  const NEWLINE: byte := 0x0A

  predicate IsBreak(c: byte) {
    c == SPACE || c == 0x2C || c == 0x7C
  }

  lemma Breaks(c: byte)
    ensures IsBreak(c) <==> c in Ascii(" ,|")
    ensures [SPACE, NEWLINE] == Ascii(" \n")
  {
    assert Ascii(" ,|") == [0x20, 0x2C, 0x7C];
  }

  // Where a line from `start` may end, when it is full at `full`.

  predicate NoBreaks(s: bytes, lo: nat, hi: nat) {
    forall p: nat | lo <= p < hi :: !IsBreak(CharAt(s, p))
  }

  predicate NoNewlines(s: bytes, lo: nat, hi: nat) {
    forall p: nat | lo <= p < hi :: CharAt(s, p) != NEWLINE
  }

  /** As far as words go: at the end of the text, when that is before `full`; else before the last break
      character that is not past `full`; else, when there is none after the first character, at `full`. */
  predicate EndsWord(s: bytes, start: nat, end: nat, full: nat) {
    && start < end <= full && end <= |s|
    && if |s| < full then end == |s|
       else if IsBreak(CharAt(s, end)) then NoBreaks(s, end + 1, full + 1)
       else end == full && NoBreaks(s, start + 1, full + 1)
  }

  /** The same, or earlier, after the first newline. */
  predicate EndsLine(s: bytes, start: nat, end: nat, full: nat) {
    exists word | end <= word <= full :: EndsWord(s, start, word, full) && CutAtNewline(s, start, end, word)
  }

  predicate CutAtNewline(s: bytes, start: nat, end: nat, word: nat) {
    && start < end <= word <= |s|
    && NoNewlines(s, start, end - 1)
    && (end == word || CharAt(s, end - 1) == NEWLINE)
  }

  /** A line can end in one place only. */
  lemma EndsLineUnique(s: bytes, start: nat, end: nat, end': nat, full: nat)
    requires EndsLine(s, start, end, full) && EndsLine(s, start, end', full)
    ensures end == end'
  {
    var word: nat :| end <= word <= full && EndsWord(s, start, word, full) && CutAtNewline(s, start, end, word);
    var word': nat :| end' <= word' <= full && EndsWord(s, start, word', full) && CutAtNewline(s, start, end', word');
    EndsWordUnique(s, start, word, word', full);
  }

  lemma EndsWordUnique(s: bytes, start: nat, end: nat, end': nat, full: nat)
    requires EndsWord(s, start, end, full) && EndsWord(s, start, end', full)
    ensures end == end'
  {
  }

  /** Back from `p` to a break character; `start` when there is none after it. */
  function BackToBreak(s: bytes, start: nat, p: nat): (r: nat)
    requires start <= p
    ensures start <= r <= p && NoBreaks(s, r + 1, p + 1) && (r > start ==> IsBreak(CharAt(s, r)))
    decreases p
  {
    if p == start || IsBreak(CharAt(s, p)) then p else BackToBreak(s, start, p - 1)
  }

  function WordEnd(s: bytes, start: nat, full: nat): (end: nat)
    requires start < |s| && start < full
    ensures EndsWord(s, start, end, full)
  {
    if |s| < full then |s|
    else
      var p := BackToBreak(s, start, full);
      if p == start then full else p
  }

  /** After the first newline from `p` on, and no later than `word`. */
  function NewlineEnd(s: bytes, p: nat, word: nat): (end: nat)
    requires p < word <= |s|
    ensures p < end && CutAtNewline(s, p, end, word)
    decreases word - p
  {
    if s[p] == NEWLINE || p + 1 == word then p + 1 else NewlineEnd(s, p + 1, word)
  }

  function LineEnd(s: bytes, start: nat, full: nat): (end: nat)
    requires start < |s| && start < full
    ensures start < end <= full && end <= |s| && EndsLine(s, start, end, full)
  {
    NewlineEnd(s, start, WordEnd(s, start, full))
  }

  /** The next index from `p` on that does not hold a space. */
  function SkipSpaces(s: bytes, p: nat): (q: nat)
    requires p <= |s|
    ensures p <= q <= |s| && CharAt(s, q) != SPACE && forall k | p <= k < q :: s[k] == SPACE
    decreases |s| - p
  {
    if p < |s| && s[p] == SPACE then SkipSpaces(s, p + 1) else p
  }

  // The lines.

  datatype Line = Line(indent: int, text: bytes)

  /** The lines from `start` on, all with the same indentation and width. */
  function Lines(s: bytes, start: nat, indent: int, allowed: nat): seq<Line>
    requires start <= |s| && allowed >= 1
    decreases |s| - start
  {
    if start == |s| then []
    else
      var end := LineEnd(s, start, start + allowed);
      [Line(indent, s[start..end])] + Lines(s, SkipSpaces(s, end), indent, allowed)
  }

  /** There is room for a character on every line that begins with one: what wrapping needs to come to an end, as
      `WrapsExactly` shows. */
  predicate Room(s: bytes, allowed: int, offset: int) {
    s == [] ||
    if allowed >= 1 then offset < allowed || SkipSpaces(s, LineEnd(s, 0, allowed)) == |s|
    else allowed == 0 && (offset < 0 || SkipSpaces(s, 0) == |s|)
  }

  /** All lines; those after the first are indented by `offset` more, or less if it is negative. Without room for a
      character the first line is empty. */
  function AllLines(s: bytes, indent: int, allowed: int, offset: int): seq<Line>
    requires Room(s, allowed, offset)
    decreases allowed == 0
  {
    if s == [] then []
    else
      var end := if allowed == 0 then 0 else LineEnd(s, 0, allowed);
      var next := SkipSpaces(s, end);
      [Line(indent, s[..end])] +
      if next == |s| then []
      else if next == 0 then AllLines(s, indent + offset, allowed - offset, offset)
      else Lines(s, next, indent + offset, allowed - offset)
  }

  /** A negative number of spaces is none. */
  function Spaces(n: int): bytes {
    seq(if n < 0 then 0 else n, i => SPACE)
  }

  function Print(lines: seq<Line>): bytes {
    if lines == [] then [] else Spaces(lines[0].indent) + lines[0].text + [NEWLINE] + Print(lines[1..])
  }

  /** A line is printed with its indentation in spaces and a line break after it; a negative indentation is none. */
  lemma PrintedLine(line: Line, rest: seq<Line>)
    ensures Print([]) == []
    ensures var n := if line.indent < 0 then 0 else line.indent;
      |Spaces(line.indent)| == n && (forall k | 0 <= k < n :: Spaces(line.indent)[k] == Ascii(" ")[0]) &&
      Print([line] + rest) == Spaces(line.indent) + line.text + Ascii("\n") + Print(rest)
  {
    assert Ascii("\n") == [NEWLINE] && ([line] + rest)[1..] == rest;
  }

  /** What is printed of the line, before the line break, is neither empty nor too wide. */
  ghost predicate Fits(line: Line, width: int) {
    line.text != [] && |Spaces(line.indent) + line.text| <= width
  }

  ghost predicate AllFit(lines: seq<Line>, width: int) {
    forall k | 0 <= k < |lines| :: Fits(lines[k], width)
  }

  lemma FitStep(line: Line, rest: seq<Line>, width: int)
    requires Fits(line, width) && AllFit(rest, width)
    ensures AllFit([line] + rest, width)
  {
  }

  lemma {:induction false} LinesFit(s: bytes, start: nat, indent: int, allowed: nat)
    requires start <= |s| && allowed >= 1 && indent >= 0
    ensures AllFit(Lines(s, start, indent, allowed), indent + allowed)
    decreases |s| - start
  {
    hide LineEnd, SkipSpaces, EndsLine;
    if start < |s| {
      var end := LineEnd(s, start, start + allowed);
      LinesFit(s, SkipSpaces(s, end), indent, allowed);
      FitStep(Line(indent, s[start..end]), Lines(s, SkipSpaces(s, end), indent, allowed), indent + allowed);
    }
  }

  /** With indentations that are not negative no line is empty or wider than the width. */
  lemma Width(s: bytes, indent: int, allowed: nat, offset: int)
    requires allowed >= 1 && allowed > offset && indent >= 0 && indent + offset >= 0
    ensures AllFit(AllLines(s, indent, allowed, offset), indent + allowed)
  {
    hide LineEnd, SkipSpaces, EndsLine, Lines;
    if s != [] {
      var end := LineEnd(s, 0, allowed);
      var next := SkipSpaces(s, end);
      var rest := if next == |s| then [] else Lines(s, next, indent + offset, allowed - offset);
      if next < |s| {
        LinesFit(s, next, indent + offset, allowed - offset);
      }
      FitStep(Line(indent, s[..end]), rest, indent + allowed);
    }
  }

  function Letters(n: nat): (s: bytes)
    ensures |s| == n && forall k | 0 <= k < n :: s[k] == 0x41
  {
    seq(n, k => 0x41)
  }

  /** In a run of letters every line is full. */
  lemma LetterLine(n: nat, start: nat, full: nat)
    requires start < full <= n
    ensures LineEnd(Letters(n), start, full) == full && SkipSpaces(Letters(n), full) == full
  {
    var s := Letters(n);
    var end := LineEnd(s, start, full);
    var word :| end <= word <= full && EndsWord(s, start, word, full) && CutAtNewline(s, start, end, word);
    assert word == full;
  }

  /** Two full lines of letters, and one more letter. */
  lemma LetterLines(indent: int, allowed: nat, offset: int)
    requires allowed >= 1 && allowed > offset
    ensures var second := allowed - offset;
      var s := Letters(allowed + second + 1);
      var lines := AllLines(s, indent, allowed, offset);
      |lines| >= 2 && lines[0] == Line(indent, s[..allowed]) &&
      lines[1] == Line(indent + offset, s[allowed..allowed + second])
  {
    hide LineEnd, SkipSpaces, EndsLine, EndsWord;
    var n := allowed + (allowed - offset) + 1;
    LetterLine(n, 0, allowed);
    LetterLine(n, allowed, allowed + (allowed - offset));
  }

  /** Every text is printed within the width if and only if neither the first line nor the others have a negative
      indentation: the code makes the lines as much longer as it then does not print. */
  lemma WidthExact(indent: int, allowed: nat, offset: int)
    requires allowed >= 1 && allowed > offset
    ensures (forall s :: AllFit(AllLines(s, indent, allowed, offset), indent + allowed)) <==>
            indent >= 0 && indent + offset >= 0
  {
    hide AllLines;
    if indent >= 0 && indent + offset >= 0 {
      forall s ensures AllFit(AllLines(s, indent, allowed, offset), indent + allowed) {
        Width(s, indent, allowed, offset);
      }
    } else {
      LetterLines(indent, allowed, offset);
      var lines := AllLines(Letters(allowed + (allowed - offset) + 1), indent, allowed, offset);
      assert !Fits(lines[if indent < 0 then 0 else 1], indent + allowed);
    }
  }

  /** The texts of the lines, each followed by a number of spaces. */
  function Rejoin(lines: seq<Line>, gaps: seq<nat>): bytes
    requires |lines| == |gaps|
  {
    if lines == [] then [] else lines[0].text + Spaces(gaps[0]) + Rejoin(lines[1..], gaps[1..])
  }

  /** The line is the piece of `s` at `p` that ends where a line of the width must end, and `gap` spaces and no more
      follow it. */
  ghost predicate Placed(s: bytes, line: Line, p: nat, gap: nat, width: int) {
    var end := p + |line.text|;
    && end + gap <= |s| && line.text == s[p..end]
    && p + width - line.indent >= 0 && EndsLine(s, p, end, p + width - line.indent)
    && s[end..end + gap] == Spaces(gap) && CharAt(s, end + gap) != SPACE
  }

  /** The lines and the gaps after them are consecutive pieces of `s`, which begin at `starts` and reach its end. */
  ghost predicate Tiles(s: bytes, start: nat, lines: seq<Line>, starts: seq<nat>, gaps: seq<nat>, width: int) {
    && |starts| == |lines| + 1 && |gaps| == |lines| && starts[0] == start && starts[|lines|] == |s|
    && forall k | 0 <= k < |lines| ::
         Placed(s, lines[k], starts[k], gaps[k], width) && starts[k + 1] == starts[k] + |lines[k].text| + gaps[k]
  }

  lemma TilesStep(s: bytes, line: Line, p: nat, gap: nat, rest: seq<Line>, starts: seq<nat>, gaps: seq<nat>, width: int)
    requires Placed(s, line, p, gap, width) && Tiles(s, p + |line.text| + gap, rest, starts, gaps, width)
    ensures Tiles(s, p, [line] + rest, [p] + starts, [gap] + gaps, width)
  {
    hide Placed;
    var lines, starts', gaps' := [line] + rest, [p] + starts, [gap] + gaps;
    forall k | 0 <= k < |lines|
      ensures Placed(s, lines[k], starts'[k], gaps'[k], width)
      ensures starts'[k + 1] == starts'[k] + |lines[k].text| + gaps'[k]
    {
      if k > 0 {
        assert lines[k] == rest[k - 1] && starts'[k] == starts[k - 1] && gaps'[k] == gaps[k - 1];
        assert starts'[k + 1] == starts[k];
      }
    }
  }

  lemma PlacedAt(s: bytes, p: nat, indent: int, allowed: nat) returns (gap: nat)
    requires p < |s| && allowed >= 1
    ensures var end := LineEnd(s, p, p + allowed);
      Placed(s, Line(indent, s[p..end]), p, gap, indent + allowed) && SkipSpaces(s, end) == end + gap
  {
    hide LineEnd, SkipSpaces, EndsLine;
    var end := LineEnd(s, p, p + allowed);
    gap := SkipSpaces(s, end) - end;
    assert s[end..end + gap] == Spaces(gap);
  }

  lemma {:induction false} LinesTile(s: bytes, start: nat, indent: int, allowed: nat)
    returns (starts: seq<nat>, gaps: seq<nat>)
    requires start <= |s| && allowed >= 1
    ensures Tiles(s, start, Lines(s, start, indent, allowed), starts, gaps, indent + allowed)
    decreases |s| - start
  {
    hide LineEnd, SkipSpaces, EndsLine, Placed;
    if start == |s| {
      starts, gaps := [start], [];
    } else {
      var end := LineEnd(s, start, start + allowed);
      var gap := PlacedAt(s, start, indent, allowed);
      starts, gaps := LinesTile(s, end + gap, indent, allowed);
      hide Tiles;
      TilesStep(s, Line(indent, s[start..end]), start, gap, Lines(s, end + gap, indent, allowed), starts, gaps,
                indent + allowed);
      starts, gaps := [start] + starts, [gap] + gaps;
    }
  }

  lemma TilesTail(s: bytes, start: nat, lines: seq<Line>, starts: seq<nat>, gaps: seq<nat>, width: int)
    requires Tiles(s, start, lines, starts, gaps, width) && lines != []
    ensures Placed(s, lines[0], start, gaps[0], width)
    ensures Tiles(s, start + |lines[0].text| + gaps[0], lines[1..], starts[1..], gaps[1..], width)
  {
    hide Placed;
    assert Placed(s, lines[0], starts[0], gaps[0], width);
    forall k | 0 <= k < |lines| - 1
      ensures Placed(s, lines[1..][k], starts[1..][k], gaps[1..][k], width)
    {
      assert Placed(s, lines[k + 1], starts[k + 1], gaps[k + 1], width);
    }
  }

  lemma PlacedSlice(s: bytes, line: Line, p: nat, gap: nat, width: int)
    requires Placed(s, line, p, gap, width)
    ensures p + |line.text| + gap <= |s| && s[p..] == line.text + Spaces(gap) + s[p + |line.text| + gap..]
  {
    hide EndsLine;
    var end := p + |line.text|;
    assert s[p..] == s[p..end] + s[end..end + gap] + s[end + gap..];
  }

  /** Consecutive pieces put together are the text. */
  lemma {:induction false} TilesRejoin(s: bytes, start: nat, lines: seq<Line>, starts: seq<nat>, gaps: seq<nat>,
                                       width: int)
    requires Tiles(s, start, lines, starts, gaps, width)
    ensures start <= |s| && Rejoin(lines, gaps) == s[start..]
    decreases |lines|
  {
    hide Placed, Spaces;
    if lines != [] {
      TilesTail(s, start, lines, starts, gaps, width);
      PlacedSlice(s, lines[0], start, gaps[0], width);
      TilesRejoin(s, start + |lines[0].text| + gaps[0], lines[1..], starts[1..], gaps[1..], width);
    }
  }

  /** No line but the first begins with a space. */
  lemma AfterGaps(s: bytes, start: nat, lines: seq<Line>, starts: seq<nat>, gaps: seq<nat>, width: int)
    requires Tiles(s, start, lines, starts, gaps, width)
    ensures |starts| == |lines| + 1 && forall k | 1 <= k < |lines| :: CharAt(s, starts[k]) != SPACE
  {
    hide EndsLine;
    forall k | 1 <= k < |lines| ensures CharAt(s, starts[k]) != SPACE {
      assert Placed(s, lines[k - 1], starts[k - 1], gaps[k - 1], width);
    }
  }

  lemma NoTiles(s: bytes, width: int)
    ensures Tiles(s, |s|, [], [|s|], [], width)
  {
  }

  /** The lines are consecutive pieces of the text with runs of spaces between them, which alone are lost; each ends at
      the one place where it may, and none but the first begins with a space. */
  lemma Wrapping(s: bytes, indent: int, allowed: int, offset: int) returns (starts: seq<nat>, gaps: seq<nat>)
    requires allowed >= 1 && Room(s, allowed, offset)
    ensures var lines := AllLines(s, indent, allowed, offset);
      && Tiles(s, 0, lines, starts, gaps, indent + allowed) && Rejoin(lines, gaps) == s
      && forall k | 1 <= k < |lines| :: CharAt(s, starts[k]) != SPACE
  {
    hide LineEnd, SkipSpaces, EndsLine, Lines, Rejoin, Tiles, Placed;
    ghost var lines := AllLines(s, indent, allowed, offset);
    NoTiles(s, indent + allowed);
    if s == [] {
      starts, gaps := [0], [];
    } else {
      var end := LineEnd(s, 0, allowed);
      var gap := PlacedAt(s, 0, indent, allowed);
      var rest: seq<Line> := [];
      if end + gap == |s| {
        starts, gaps := [|s|], [];
      } else {
        rest := Lines(s, end + gap, indent + offset, allowed - offset);
        starts, gaps := LinesTile(s, end + gap, indent + offset, allowed - offset);
      }
      TilesStep(s, Line(indent, s[..end]), 0, gap, rest, starts, gaps, indent + allowed);
      starts, gaps := [0] + starts, [gap] + gaps;
    }
    TilesRejoin(s, 0, lines, starts, gaps, indent + allowed);
    AfterGaps(s, 0, lines, starts, gaps, indent + allowed);
  }

  // The printer.

  lemma PrintConcat(lines: seq<Line>, line: Line)
    ensures Print(lines + [line]) == Print(lines) + (Spaces(line.indent) + line.text + [NEWLINE])
  {
    if lines == [] {
      assert lines + [line] == [line];
    } else {
      assert (lines + [line])[1..] == lines[1..] + [line];
      PrintConcat(lines[1..], line);
    }
  }

  method PrintSpaces(os: bytes, n: int) returns (os': bytes)
    ensures os' == os + Spaces(n)
  {
    os' := os;
    var i := 0;
    while i < n
      invariant 0 <= i && (n >= 0 ==> i <= n) && (n < 0 ==> i == 0)
      invariant os' == os + Spaces(i)
    {
      os' := os' + [SPACE];
      i := i + 1;
    }
  }

  /** The length of the line that starts at `start`, as far as words go. */
  method WordLength(s: bytes, start: nat, allowedLen: nat) returns (stringLen: nat)
    requires start < |s|
    ensures if allowedLen == 0 then stringLen == 0 else start + stringLen == WordEnd(s, start, start + allowedLen)
  {
    hide EndsWord, NoBreaks;
    var length: int := if |s| - start < allowedLen then |s| - start else allowedLen;
    if length == allowedLen {
      while length >= 0 && !IsBreak(CharAt(s, length + start))
        invariant -1 <= length <= allowedLen
        invariant BackToBreak(s, start, start + if length < 0 then 0 else length)
          == BackToBreak(s, start, start + allowedLen)
      {
        length := length - 1;
      }
    }
    if length <= 0 {
      length := allowedLen;
    }
    stringLen := length;
  }

  /** Where the line that starts at `start` ends; where there is no room, it is empty. */
  ghost function EndAt(s: bytes, start: nat, allowed: nat): (end: nat)
    requires start < |s|
    ensures start <= end <= |s|
  {
    if allowed == 0 then start else LineEnd(s, start, start + allowed)
  }

  /** The length of the line that starts at `start`. */
  method LineLength(s: bytes, start: nat, allowedLen: nat) returns (stringLen: nat)
    requires start < |s|
    ensures start + stringLen == EndAt(s, start, allowedLen)
  {
    hide EndsWord, EndsLine, CutAtNewline, WordEnd;
    stringLen := WordLength(s, start, allowedLen);
    if allowedLen == 0 {
      return;
    }
    ghost var word := start + stringLen;
    WordEndFits(s, start, start + allowedLen);
    var i := 0;
    while i < stringLen
      invariant 0 <= i <= stringLen && start + stringLen <= word
      invariant i < stringLen ==> start + stringLen == word
      invariant i < stringLen ==> NewlineEnd(s, start + i, word) == NewlineEnd(s, start, word)
      invariant i == stringLen ==> start + stringLen == NewlineEnd(s, start, word)
    {
      if s[start + i] == NEWLINE {
        stringLen := i + 1;
      }
      i := i + 1;
    }
  }

  lemma WordEndFits(s: bytes, start: nat, full: nat)
    requires start < |s| && start < full
    ensures start < WordEnd(s, start, full) <= |s|
  {
  }

  /** One line, and where the next begins. */
  method PrintLine(os: bytes, s: bytes, start: nat, indent: int, allowedLen: nat) returns (os': bytes, next: nat)
    requires start < |s|
    ensures var end := EndAt(s, start, allowedLen);
      os' == os + (Spaces(indent) + s[start..end] + [NEWLINE]) && next == SkipSpaces(s, end)
  {
    hide EndAt;
    var stringLen := LineLength(s, start, allowedLen);
    ghost var end := start + stringLen;
    os' := PrintSpaces(os, indent);
    os' := os' + s[start..start + stringLen] + [NEWLINE];
    next := start;
    while CharAt(s, stringLen + next) == SPACE && next < |s|
      invariant end <= stringLen + next <= |s|
      invariant SkipSpaces(s, stringLen + next) == SkipSpaces(s, end)
      decreases |s| - next
    {
      next := next + 1;
    }
    next := next + stringLen;
  }

  /** The lines still to be printed. */
  ghost function Remaining(s: bytes, start: nat, indent: int, allowed: int, offset: int): seq<Line>
    requires start <= |s| && Going(s, start, allowed, offset)
  {
    if start == |s| then []
    else if start == 0 then AllLines(s, indent, allowed, offset)
    else Lines(s, start, indent, allowed)
  }

  ghost predicate Going(s: bytes, start: nat, allowed: int, offset: int) {
    if start == 0 then Room(s, allowed, offset) else start < |s| ==> allowed >= 1
  }

  /** The wrapping branch of `spacePrint`. */
  method PrintLines(os: bytes, s: bytes, width: int, indentSpaces: int, secondLineOffset: int) returns (os': bytes)
    requires Room(s, width, secondLineOffset)
    ensures os' == os + Print(AllLines(s, indentSpaces, width, secondLineOffset))
  {
    hide LineEnd, SkipSpaces, EndAt, Print, Lines, AllLines, Room, Remaining, Going, Spaces;
    ghost var all := AllLines(s, indentSpaces, width, secondLineOffset);
    ghost var printed: seq<Line> := [];
    var start: nat, indent, allowedLen := 0, indentSpaces, width;
    PrintNone(os);
    FirstRemaining(s, indent, allowedLen, secondLineOffset);
    os' := os;
    while start < |s|
      invariant start <= |s| && Going(s, start, allowedLen, secondLineOffset)
      invariant all == printed + Remaining(s, start, indent, allowedLen, secondLineOffset)
      invariant os' == os + Print(printed)
      decreases |s| - start, allowedLen == 0
    {
      RemainingStep(s, start, indent, allowedLen, secondLineOffset, printed);
      ghost var line := Line(indent, s[start..EndAt(s, start, allowedLen)]);
      var next;
      os', next := PrintLine(os', s, start, indent, allowedLen);
      if start == 0 {
        indent := indent + secondLineOffset;
        allowedLen := allowedLen - secondLineOffset;
      }
      PrintConcat(printed, line);
      printed := printed + [line];
      start := next;
    }
    NoneRemaining(s, indent, allowedLen, secondLineOffset, printed);
  }

  lemma FirstRemaining(s: bytes, indent: int, allowed: int, offset: int)
    requires Room(s, allowed, offset)
    ensures Going(s, 0, allowed, offset)
    ensures AllLines(s, indent, allowed, offset) == [] + Remaining(s, 0, indent, allowed, offset)
  {
    hide Lines, LineEnd, SkipSpaces;
  }

  lemma NoneRemaining(s: bytes, indent: int, allowed: int, offset: int, printed: seq<Line>)
    requires Going(s, |s|, allowed, offset)
    ensures printed + Remaining(s, |s|, indent, allowed, offset) == printed
  {
  }

  /** The indentation and width after the line that starts at `start`. */
  function After(start: nat, indent: int, allowed: int, offset: int): (int, int) {
    if start == 0 then (indent + offset, allowed - offset) else (indent, allowed)
  }

  /** A line that is printed makes progress. */
  lemma GoingStep(s: bytes, start: nat, indent: int, allowed: int, offset: int)
    requires start < |s| && Going(s, start, allowed, offset)
    ensures allowed >= 0
    ensures var next := SkipSpaces(s, EndAt(s, start, allowed));
      var allowed' := After(start, indent, allowed, offset).1;
      Going(s, next, allowed', offset) && (next > start || (allowed == 0 && allowed' != 0))
  {
    hide LineEnd, SkipSpaces, EndsLine;
  }

  lemma RemainingFirst(s: bytes, indent: int, allowed: int, offset: int)
    requires s != [] && Room(s, allowed, offset) && allowed >= 0
    requires Going(s, SkipSpaces(s, EndAt(s, 0, allowed)), allowed - offset, offset)
    ensures var end := EndAt(s, 0, allowed);
      AllLines(s, indent, allowed, offset) ==
      [Line(indent, s[0..end])] + Remaining(s, SkipSpaces(s, end), indent + offset, allowed - offset, offset)
  {
    hide LineEnd, SkipSpaces, EndsLine, Lines, Room;
    assert s[..EndAt(s, 0, allowed)] == s[0..EndAt(s, 0, allowed)];
  }

  lemma RemainingLater(s: bytes, start: nat, indent: int, allowed: int, offset: int)
    requires 0 < start < |s| && allowed >= 1
    ensures var end := EndAt(s, start, allowed);
      && Going(s, SkipSpaces(s, end), allowed, offset)
      && Lines(s, start, indent, allowed) ==
         [Line(indent, s[start..end])] + Remaining(s, SkipSpaces(s, end), indent, allowed, offset)
  {
    hide LineEnd, SkipSpaces, EndsLine;
    LinesEnd(s, indent, allowed);
  }

  lemma LinesEnd(s: bytes, indent: int, allowed: nat)
    requires allowed >= 1
    ensures Lines(s, |s|, indent, allowed) == []
  {
  }

  lemma StepCases(s: bytes, start: nat, indent: int, allowed: int, offset: int)
    requires start < |s| && Going(s, start, allowed, offset) && allowed >= 0
    requires Going(s, SkipSpaces(s, EndAt(s, start, allowed)), After(start, indent, allowed, offset).1, offset)
    ensures var end := EndAt(s, start, allowed);
      var (indent', allowed') := After(start, indent, allowed, offset);
      Remaining(s, start, indent, allowed, offset) ==
      [Line(indent, s[start..end])] + Remaining(s, SkipSpaces(s, end), indent', allowed', offset)
  {
    hide EndAt, SkipSpaces, AllLines, Lines, Room;
    if start == 0 {
      RemainingFirst(s, indent, allowed, offset);
    } else {
      RemainingLater(s, start, indent, allowed, offset);
    }
  }

  /** One line is printed: what remains is the rest. */
  lemma RemainingStep(s: bytes, start: nat, indent: int, allowed: int, offset: int, printed: seq<Line>)
    requires start < |s| && Going(s, start, allowed, offset)
    ensures allowed >= 0
    ensures var end := EndAt(s, start, allowed);
      var next := SkipSpaces(s, end);
      var (indent', allowed') := After(start, indent, allowed, offset);
      && Going(s, next, allowed', offset)
      && (next > start || (allowed == 0 && allowed' != 0))
      && printed + Remaining(s, start, indent, allowed, offset) ==
           printed + [Line(indent, s[start..end])] + Remaining(s, next, indent', allowed', offset)
  {
    hide EndAt, SkipSpaces, Remaining, Going, After;
    GoingStep(s, start, indent, allowed, offset);
    StepCases(s, start, indent, allowed, offset);
  }

  /** `spacePrint`: the text as it is, when it fits or there is no width, and else its lines, if wrapping comes to an
      end at all. */
  method SpacePrint(os: bytes, s: bytes, maxWidth: int, indentSpaces: int, secondLineOffset: int)
    returns (os': bytes)
    requires |s| + indentSpaces > maxWidth > 0 ==> Room(s, maxWidth - indentSpaces, secondLineOffset)
    ensures os' == os + Print(
      if |s| + indentSpaces > maxWidth > 0 then AllLines(s, indentSpaces, maxWidth - indentSpaces, secondLineOffset)
      else [Line(indentSpaces, s)])
  {
    hide Print, AllLines, Spaces, Room;
    if |s| + indentSpaces > maxWidth && maxWidth > 0 {
      os' := PrintLines(os, s, maxWidth - indentSpaces, indentSpaces, secondLineOffset);
    } else {
      os' := PrintSpaces(os, indentSpaces);
      os' := os' + s + [NEWLINE];
      PrintOne(os, Line(indentSpaces, s));
    }
  }

  lemma PrintOne(os: bytes, line: Line)
    ensures os + Spaces(line.indent) + line.text + [NEWLINE] == os + Print([line])
  {
    PrintConcat([], line);
    assert [] + [line] == [line];
  }

  lemma PrintNone(os: bytes)
    ensures os + Print([]) == os
  {
  }

  // When wrapping comes to an end.

  /** The variables of the wrapping loop, with the lines printed so far. */
  datatype Printer = Printer(start: nat, indent: int, allowed: int, lines: seq<Line>)

  /** The next index from `p` on that does not hold a space, and `stop` at the latest. */
  function SkipUntil(s: bytes, p: nat, stop: nat): (q: nat)
    requires p <= stop
    ensures p <= q <= stop
    decreases stop - p
  {
    if p < stop && CharAt(s, p) == SPACE then SkipUntil(s, p + 1, stop) else p
  }

  /** One turn of the loop, for any values of its variables; None when it reads before the text. With a negative
      length the rest of the text is printed and the loop goes back. */
  function Turn(s: bytes, p: Printer, offset: int): (r: Option<Printer>)
    requires p.start < |s|
    ensures r.Some? ==> r.value.start <= |s|
  {
    var (indent, allowed) := After(p.start, p.indent, p.allowed, offset);
    if p.allowed >= 0 then
      var end := if p.allowed == 0 then p.start else LineEnd(s, p.start, p.start + p.allowed);
      Some(Printer(SkipSpaces(s, end), indent, allowed, p.lines + [Line(p.indent, s[p.start..end])]))
    else if p.start + p.allowed < 0 then None
    else
      var next := SkipUntil(s, p.start + p.allowed, |s| + p.allowed);
      Some(Printer(next, indent, allowed, p.lines + [Line(p.indent, s[p.start..])]))
  }

  /** `k` turns, or as many as there are before the end of the text. */
  function Turns(s: bytes, p: Printer, offset: int, k: nat): (r: Option<Printer>)
    requires p.start <= |s|
    ensures r.Some? ==> r.value.start <= |s|
    decreases k
  {
    if k == 0 || p.start == |s| then Some(p)
    else
      match Turn(s, p, offset)
      case None => None
      case Some(q) => Turns(s, q, offset, k - 1)
  }

  ghost predicate Stops(s: bytes, p: Printer, offset: int)
    requires p.start <= |s|
  {
    exists k: nat :: Turns(s, p, offset, k).Some? && Turns(s, p, offset, k).value.start == |s|
  }

  lemma TurnGoing(s: bytes, p: Printer, offset: int)
    requires p.start < |s| && p.allowed >= 0
    ensures var end := EndAt(s, p.start, p.allowed);
      var (indent, allowed) := After(p.start, p.indent, p.allowed, offset);
      Turn(s, p, offset) ==
      Some(Printer(SkipSpaces(s, end), indent, allowed, p.lines + [Line(p.indent, s[p.start..end])]))
  {
    hide LineEnd, SkipSpaces, EndsLine, After, SkipUntil, CharAt;
    if p.allowed == 0 {
      assert EndAt(s, p.start, p.allowed) == p.start;
    }
  }

  /** While lines have room the loop prints what remains, and ends. */
  lemma {:induction false} GoingStops(s: bytes, p: Printer, offset: int) returns (k: nat)
    requires p.start <= |s| && Going(s, p.start, p.allowed, offset)
    ensures var r := Turns(s, p, offset, k);
      r.Some? && r.value.start == |s| &&
      r.value.lines == p.lines + Remaining(s, p.start, p.indent, p.allowed, offset)
    decreases |s| - p.start, p.allowed == 0
  {
    hide EndAt, SkipSpaces, Remaining, Going, After, Turn;
    if p.start == |s| {
      k := 0;
      NoneRemaining(s, p.indent, p.allowed, offset, p.lines);
    } else {
      RemainingStep(s, p.start, p.indent, p.allowed, offset, p.lines);
      TurnGoing(s, p, offset);
      k := GoingStops(s, Turn(s, p, offset).value, offset);
      k := k + 1;
    }
  }

  /** Without room, in front of a character that is no space. */
  ghost predicate Stuck(s: bytes, p: Printer, offset: int) {
    && p.start < |s| && p.allowed <= 0
    && (p.allowed == 0 ==> s[p.start] != SPACE)
    && (p.allowed == 0 && p.start == 0 ==> offset >= 0)
  }

  lemma {:induction false} StuckTurns(s: bytes, p: Printer, offset: int, k: nat)
    requires Stuck(s, p, offset)
    ensures var r := Turns(s, p, offset, k); r.None? || r.value.start < |s|
    decreases k
  {
    if k > 0 && Turn(s, p, offset).Some? {
      StuckTurns(s, Turn(s, p, offset).value, offset, k - 1);
    }
  }

  /** The loop comes to an end, without reading before the text, if and only if there is room; and then it has printed
      the lines. */
  lemma WrapsExactly(s: bytes, indent: int, allowed: int, offset: int)
    ensures var p := Printer(0, indent, allowed, []);
      && (Stops(s, p, offset) <==> Room(s, allowed, offset))
      && (Room(s, allowed, offset) ==>
            exists k: nat ::
              && Turns(s, p, offset, k).Some? && Turns(s, p, offset, k).value.start == |s|
              && Turns(s, p, offset, k).value.lines == AllLines(s, indent, allowed, offset))
  {
    hide LineEnd, AllLines, Remaining;
    var p := Printer(0, indent, allowed, []);
    if Room(s, allowed, offset) {
      FirstRemaining(s, indent, allowed, offset);
      var k := GoingStops(s, p, offset);
    } else {
      forall k: nat ensures Turns(s, p, offset, k).Some? ==> Turns(s, p, offset, k).value.start < |s| {
        if Stuck(s, p, offset) {
          StuckTurns(s, p, offset, k);
        } else if k > 0 {
          StuckTurns(s, Turn(s, p, offset).value, offset, k - 1);
        }
      }
    }
  }
}
