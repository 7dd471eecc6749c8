/** Command-line arguments of TCLAP: how one argument looks at one word of the command line, and how the
    parser counts what is required. The classes of module TclapCmdLine are proved against this. */
module Tclap {
  import opened Wrappers

  datatype Kind = ValueArg | MultiArg | SwitchArg

  /** What the visitor of an argument does when the argument is matched. */
  datatype Visitor = NoVisitor | IgnoreRestVisitor | ExitVisitor

  datatype Exception =
    | AlreadySet
    | MutuallyExclusive
    | NoDelimiter
    | MissingValue
    | BadValue
    | Exit
    | NoMatch
    | MissingArgs
    | TooManyArgs

  /** An argument; `default` is what a switch starts from. `accepts` tells whether a text can be read as a value of the
      argument's type and meets its constraint. */
  datatype Arg = Arg(
    kind: Kind,
    flag: string,
    name: string,
    visitor: Visitor,
    accepts: string -> bool,
    required: bool,
    alreadySet: bool,
    xorSet: bool,
    allowMore: bool,
    values: seq<string>,
    on: bool,
    default: bool)

  const BLANK: char := '\U{0007}'

  predicate IsSet(a: Arg) {
    a.alreadySet && !a.xorSet
  }

  /** `isRequired`, which a MultiArg answers differently once it has values. */
  predicate IsRequired(a: Arg) {
    a.required && (a.kind.MultiArg? ==> |a.values| <= 1)
  }

  /** `Arg::operator==`. */
  predicate SameArg(a: Arg, b: Arg) {
    (a.flag != "" && a.flag == b.flag) || a.name == b.name
  }

  predicate ArgMatches(a: Arg, s: string) {
    (s == "-" + a.flag && a.flag != "") || s == "--" + a.name
  }

  /** Index of the first `c` in `s` from `i` on, or the length of `s`. */
  function IndexOf(s: string, c: char, i: nat): (j: nat)
    requires i <= |s|
    ensures i <= j <= |s| && (j < |s| ==> s[j] == c)
    decreases |s| - i
  {
    if i < |s| && s[i] != c then IndexOf(s, c, i + 1) else i
  }

  /** `trimFlag`: the flag and the value after the delimiter, which is only looked for past index 1. */
  function TrimFlag(s: string, delimiter: char): (string, string) {
    var stop := IndexOf(s, delimiter, 0);
    if 1 < stop < |s| then (s[..stop], s[stop + 1..]) else (s, "")
  }

  predicate HasBlanks(s: string) {
    exists i | 1 <= i < |s| :: s[i] == BLANK
  }

  /** `lastCombined` and the loop of `_emptyCombined`. */
  predicate AllBlank(s: string) {
    forall i | 1 <= i < |s| :: s[i] == BLANK
  }

  predicate EmptyCombined(s: string) {
    (s == "" || s[0] == '-') && AllBlank(s)
  }

  /** `combinedSwitchesMatch`: the word with the matching character blanked. */
  function CombinedMatch(a: Arg, s: string, delimiter: char): Option<string> {
    if s == "" || s[0] != '-' || "--" <= s || delimiter in s || a.flag == "" || a.flag[0] == '-' then None
    else
      var i := IndexOf(s, a.flag[0], 1);
      if i < |s| then Some(s[i := BLANK]) else None
  }

  /** What a call leaves behind: an exception, or the result and the new state. */
  datatype Outcome =
    | Threw(e: Exception)
    | Done(matched: bool, arg: Arg, i: nat, words: seq<string>, ignoreRest: bool)

  function Visit(a: Arg, i: nat, words: seq<string>, matched: bool): Outcome {
    match a.visitor
    case NoVisitor => Done(matched, a, i, words, false)
    case IgnoreRestVisitor => Done(matched, a, i, words, true)
    case ExitVisitor => Threw(Exit)
  }

  /** `_extractValue`. */
  function Extract(a: Arg, value: string, i: nat, words: seq<string>): Outcome {
    if !a.accepts(value) then Threw(BadValue)
    else
      var values := if a.kind.MultiArg? then a.values + [value] else [value];
      Visit(a.(values := values, alreadySet := true), i, words, true)
  }

  /** `ValueArg::processArg` and `MultiArg::processArg`; only the former refuses to be set twice. */
  function ProcessValue(a: Arg, i: nat, words: seq<string>, delimiter: char): Outcome
    requires i < |words|
  {
    if HasBlanks(words[i]) then Done(false, a, i, words, false)
    else
      var (flag, value) := TrimFlag(words[i], delimiter);
      if !ArgMatches(a, flag) then Done(false, a, i, words, false)
      else if a.kind.ValueArg? && a.alreadySet then Threw(if a.xorSet then MutuallyExclusive else AlreadySet)
      else if delimiter != ' ' && value == "" then Threw(NoDelimiter)
      else if value != "" then Extract(a, value, i, words)
      else if i + 1 < |words| then Extract(a, words[i + 1], i + 1, words)
      else Threw(MissingValue)
  }

  /** `commonProcessing`. */
  function SetSwitch(a: Arg, i: nat, words: seq<string>, matched: bool): Outcome {
    if a.xorSet then Threw(MutuallyExclusive)
    else if a.alreadySet then Threw(AlreadySet)
    else Visit(a.(alreadySet := true, on := !a.on), i, words, matched)
  }

  /** `SwitchArg::processArg`: in a word of several switches only the last one to match reports it. */
  function ProcessSwitch(a: Arg, i: nat, words: seq<string>, delimiter: char): Outcome
    requires i < |words|
  {
    if ArgMatches(a, words[i]) then SetSwitch(a, i, words, true)
    else
      match CombinedMatch(a, words[i], delimiter)
      case None => Done(false, a, i, words, false)
      case Some(word) =>
        if CombinedMatch(a, word, delimiter).Some? then Threw(AlreadySet)
        else SetSwitch(a, i, words[i := word], AllBlank(word))
  }

  function Process(a: Arg, i: nat, words: seq<string>, delimiter: char, ignoreRest: bool): (r: Outcome)
    requires i < |words|
    ensures r.Done? ==> i <= r.i < |words| == |r.words|
  {
    if ignoreRest then Done(false, a, i, words, true)
    else if a.kind.SwitchArg? then ProcessSwitch(a, i, words, delimiter)
    else ProcessValue(a, i, words, delimiter)
  }

  /** The virtual `reset`, which leaves `allowMore` as it is. */
  function Reset(a: Arg): Arg {
    a.(alreadySet := false, xorSet := false, values := [], on := if a.kind.SwitchArg? then a.default else a.on)
  }

  // Groups of exclusive arguments, as lists of positions in the argument list.

  type Groups = seq<seq<nat>>

  /** The first group that contains `k`, or the number of groups. */
  function GroupOf(groups: Groups, k: nat): (g: nat)
    ensures g <= |groups| && (g < |groups| ==> k in groups[g])
    ensures forall h | 0 <= h < g :: k !in groups[h]
  {
    if groups == [] || k in groups[0] then 0 else 1 + GroupOf(groups[1..], k)
  }

  /** Members of the group other than `k` marked as set by exclusion. */
  function ExcludeOthers(args: seq<Arg>, group: seq<nat>, k: nat): (r: seq<Arg>)
    ensures |r| == |args|
  {
    seq(|args|, j requires 0 <= j < |args| =>
      if j in group && j != k then args[j].(alreadySet := true, xorSet := true) else args[j])
  }

  predicate OtherIsSet(args: seq<Arg>, group: seq<nat>, k: nat) {
    exists j | 0 <= j < |args| :: j in group && j != k && IsSet(args[j])
  }

  datatype Checked = CheckThrew(e: Exception) | Count(n: nat, args: seq<Arg>)

  /** A match of member `k` of the group. A MultiArg counts only the first time. */
  function CheckGroup(args: seq<Arg>, group: seq<nat>, k: nat): Checked
    requires k < |args|
  {
    if OtherIsSet(args, group, k) then CheckThrew(MutuallyExclusive)
    else
      var args' := ExcludeOthers(args, group, k);
      if !args[k].kind.MultiArg? then Count(|group|, args')
      else Count(if args[k].allowMore then 0 else |group|, args'[k := args'[k].(allowMore := true)])
  }

  /** `XorHandler::check`: what a match of argument `k` adds to the count. */
  function Check(args: seq<Arg>, groups: Groups, k: nat): Checked
    requires k < |args|
  {
    var g := GroupOf(groups, k);
    if g == |groups| then Count(if IsRequired(args[k]) then 1 else 0, args) else CheckGroup(args, groups[g], k)
  }

  // The parser.

  /** The definition of a command line that parsing does not change. */
  datatype Line = Line(groups: Groups, delimiter: char, ignoreUnmatched: bool, numRequired: nat)

  datatype State = State(args: seq<Arg>, words: seq<string>, i: nat, count: nat, ignoreRest: bool)

  datatype Tried = TryThrew(e: Exception) | Tried(matched: bool, state: State)

  /** The inner loop of `CmdLine::parse`: offer the current word to the arguments from `k` on. */
  function TryFrom(line: Line, s: State, k: nat): (r: Tried)
    requires k <= |s.args| && s.i < |s.words|
    ensures r.Tried? ==> s.i <= r.state.i < |r.state.words| == |s.words| && |r.state.args| == |s.args|
    decreases |s.args| - k
  {
    if k == |s.args| then Tried(false, s)
    else
      match Process(s.args[k], s.i, s.words, line.delimiter, s.ignoreRest)
      case Threw(e) => TryThrew(e)
      case Done(matched, arg, i, words, ignoreRest) =>
        var s' := State(s.args[k := arg], words, i, s.count, ignoreRest);
        if !matched then TryFrom(line, s', k + 1)
        else
          match Check(s'.args, line.groups, k)
          case CheckThrew(e) => TryThrew(e)
          case Count(n, args) => Tried(true, s'.(args := args, count := s'.count + n))
  }

  datatype Result = Fails(e: Exception) | Finishes(state: State)

  /** The outer loop, from the current word on. */
  function LoopFrom(line: Line, s: State): (r: Result)
    requires s.i <= |s.words|
    decreases |s.words| - s.i
  {
    if s.i == |s.words| then Finishes(s)
    else
      match TryFrom(line, s, 0)
      case TryThrew(e) => Fails(e)
      case Tried(matched, s') =>
        if !matched && !EmptyCombined(s'.words[s'.i]) && !s'.ignoreRest && !line.ignoreUnmatched then Fails(NoMatch)
        else LoopFrom(line, s'.(i := s'.i + 1))
  }

  /** `CmdLine::parse` on the words after the program name. */
  function Parse(line: Line, args: seq<Arg>, words: seq<string>, ignoreRest: bool): Result {
    match LoopFrom(line, State(args, words, 0, 0, ignoreRest))
    case Fails(e) => Fails(e)
    case Finishes(s) =>
      if s.count < line.numRequired then Fails(MissingArgs)
      else if s.count > line.numRequired then Fails(TooManyArgs)
      else Finishes(s)
  }
}
