/** The objects of TCLAP that parsing changes: arguments, the handler of exclusive groups and the command
    line, each method proved against module Tclap. */
module TclapCmdLine {
  import opened Tclap
  import opened TclapDefine
  import opened TclapExact
  import opened TclapRequired

  /** The static members of the argument class. */
  class Statics {
    const delimiter: char
    var ignoreRest: bool

    constructor (delimiter: char)
      ensures this.delimiter == delimiter && !ignoreRest
    {
      this.delimiter := delimiter;
      ignoreRest := false;
    }
  }

  datatype Reply<+T> = Throws(e: Exception) | Returns(value: T)

  /** Two arguments with the same flag or name, which are fixed at construction. */
  predicate Alike(a: Argument, b: Argument) {
    (a.flag != "" && a.flag == b.flag) || a.name == b.name
  }

  ghost predicate NoneLike(a: Argument, list: seq<Argument>) {
    forall j | 0 <= j < |list| :: !Alike(a, list[j])
  }

  /** Each of `ors` from `j` on is unlike those before it and those of the list. */
  ghost predicate AllNew(ors: seq<Argument>, j: nat, list: seq<Argument>)
    requires j <= |ors|
    decreases |ors| - j
  {
    j == |ors| || (NoneLike(ors[j], list) && AllNew(ors, j + 1, [ors[j]] + list))
  }

  /** The first `n` arguments, the last of them in front. */
  ghost function Reversed(s: seq<Argument>, n: nat): (r: seq<Argument>)
    requires n <= |s|
    ensures |r| == n
  {
    if n == 0 then [] else [s[n - 1]] + Reversed(s, n - 1)
  }

  /** `trimFlag`. */
  method SplitFlag(s: string, delimiter: char) returns (flag: string, value: string)
    ensures (flag, value) == TrimFlag(s, delimiter)
  {
    var stop, i := 0, 0;
    while i < |s|
      invariant 0 <= i <= |s| && stop == 0
      invariant IndexOf(s, delimiter, i) == IndexOf(s, delimiter, 0)
    {
      if s[i] == delimiter {
        stop := i;
        break;
      }
      i := i + 1;
    }
    flag, value := s, "";
    if stop > 1 {
      flag, value := s[..stop], s[stop + 1..];
    }
  }

  /** `_hasBlanks`. */
  method FindBlank(s: string) returns (found: bool)
    ensures found == HasBlanks(s)
  {
    var i := 1;
    while i < |s|
      invariant 1 <= i
      invariant forall j | 1 <= j < i && j < |s| :: s[j] != BLANK
    {
      if s[i] == BLANK {
        return true;
      }
      i := i + 1;
    }
    return false;
  }

  /** `lastCombined`. */
  method LastCombined(s: string) returns (last: bool)
    ensures last == AllBlank(s)
  {
    var i := 1;
    while i < |s|
      invariant 1 <= i
      invariant forall j | 1 <= j < i && j < |s| :: s[j] == BLANK
    {
      if s[i] != BLANK {
        return false;
      }
      i := i + 1;
    }
    return true;
  }

  /** `_emptyCombined`. */
  method IsEmptyCombined(s: string) returns (empty: bool)
    ensures empty == EmptyCombined(s)
  {
    if |s| > 0 && s[0] != '-' {
      return false;
    }
    empty := LastCombined(s);
  }

  class Argument {
    const kind: Kind
    const flag: string
    const name: string
    const visitor: Visitor
    const accepts: string -> bool
    var required: bool
    var alreadySet: bool
    var xorSet: bool
    var allowMore: bool
    const default: bool
    var values: seq<string>
    var on: bool

    /** A SwitchArg is constructed optional. */
    constructor (kind: Kind, flag: string, name: string, required: bool, accepts: string -> bool, visitor: Visitor,
        default: bool)
      ensures View() == Arg(kind, flag, name, visitor, accepts, required && !kind.SwitchArg?, false, false, false, [],
                            default, default)
    {
      this.kind, this.flag, this.name, this.visitor, this.accepts := kind, flag, name, visitor, accepts;
      this.required := required && !kind.SwitchArg?;
      this.on, this.default := default, default;
      alreadySet, xorSet, allowMore, values := false, false, false, [];
    }

    ghost function View(): Arg
      reads this
    {
      Arg(kind, flag, name, visitor, accepts, required, alreadySet, xorSet, allowMore, values, on, default)
    }

    /** This argument, the words, the position and the statics are as `out` says, and so is the reply. */
    ghost predicate Shows(out: Outcome, r: Reply<bool>, i: nat, words: array<string>, statics: Statics)
      reads this, words, statics
    {
      match out
      case Threw(e) => r == Throws(e)
      case Done(matched, arg, at, ws, ignoreRest) =>
        r == Returns(matched) && View() == arg && i == at && words[..] == ws && statics.ignoreRest == ignoreRest
    }

    /** `argMatches`. */
    predicate Matches(s: string): (r: bool)
      reads this
      ensures r == ArgMatches(View(), s)
    {
      (s == "-" + flag && flag != "") || s == "--" + name
    }

    predicate IsSet(): (r: bool)
      reads this
      ensures r == Tclap.IsSet(View())
    {
      alreadySet && !xorSet
    }

    /** The virtual `isRequired`. */
    predicate IsRequired(): (r: bool)
      reads this
      ensures r == Tclap.IsRequired(View())
    {
      if kind.MultiArg? then required && |values| <= 1 else required
    }

    /** `operator==`. */
    predicate Same(other: Argument): (r: bool)
      reads this, other
      ensures r == SameArg(View(), other.View()) == Alike(this, other)
    {
      (flag != "" && flag == other.flag) || name == other.name
    }

    /** `_checkWithVisitor`. */
    method CheckWithVisitor(statics: Statics) returns (exit: bool)
      modifies statics
      ensures exit == visitor.ExitVisitor?
      ensures statics.ignoreRest == (old(statics.ignoreRest) || visitor.IgnoreRestVisitor?)
    {
      exit := visitor.ExitVisitor?;
      if visitor.IgnoreRestVisitor? {
        statics.ignoreRest := true;
      }
    }

    /** `combinedSwitchesMatch` blanks the first match in place. */
    method CombinedSwitchesMatch(words: array<string>, at: nat, delimiter: char) returns (found: bool)
      requires at < words.Length
      modifies words
      ensures var m := CombinedMatch(View(), old(words[at]), delimiter);
        && found == m.Some?
        && words[..] == if found then old(words[..])[at := m.value] else old(words[..])
    {
      var s := words[at];
      if |s| > 0 && s[0] != '-' {
        return false;
      }
      if "--" <= s {
        return false;
      }
      if delimiter in s {
        return false;
      }
      var i := 1;
      while i < |s|
        invariant 1 <= i && (|s| > 0 ==> i <= |s|)
        invariant |s| > 0 && flag != "" && flag[0] != '-' ==> IndexOf(s, flag[0], i) == IndexOf(s, flag[0], 1)
        invariant words[..] == old(words[..])
      {
        if |flag| > 0 && s[i] == flag[0] && flag[0] != '-' {
          words[at] := s[i := BLANK];
          return true;
        }
        i := i + 1;
      }
      return false;
    }

    /** `commonProcessing`, for the word at `i`. */
    method CommonProcessing(statics: Statics, words: array<string>, i: nat, matched: bool) returns (r: Reply<bool>)
      requires !statics.ignoreRest
      modifies this`alreadySet, this`on, this`values, statics
      ensures Shows(SetSwitch(old(View()), i, words[..], matched), r, i, words, statics)
    {
      if xorSet {
        return Throws(MutuallyExclusive);
      }
      if alreadySet {
        return Throws(AlreadySet);
      }
      alreadySet := true;
      on := !on;
      var exit := CheckWithVisitor(statics);
      r := if exit then Throws(Exit) else Returns(matched);
    }

    method ProcessSwitchArg(i: nat, words: array<string>, statics: Statics) returns (r: Reply<bool>, at: nat)
      requires kind.SwitchArg? && i < words.Length
      modifies this`alreadySet, this`on, this`values, words, statics
      ensures Shows(Process(old(View()), i, old(words[..]), statics.delimiter, old(statics.ignoreRest)), r, at, words,
                    statics)
    {
      at := i;
      if statics.ignoreRest {
        return Returns(false), at;
      }
      ghost var before := words[..];
      if Matches(words[i]) {
        r := CommonProcessing(statics, words, i, true);
        return;
      }
      var first := CombinedSwitchesMatch(words, i, statics.delimiter);
      if !first {
        return Returns(false), at;
      }
      ghost var blanked := words[i];
      var second := CombinedSwitchesMatch(words, i, statics.delimiter);
      if second {
        return Throws(AlreadySet), at;
      }
      assert words[..] == before[i := blanked];
      var last := LastCombined(words[i]);
      r := CommonProcessing(statics, words, i, last);
    }

    /** `_extractValue`: a ValueArg keeps one value, a MultiArg all of them. */
    method ExtractValue(value: string) returns (ok: bool)
      requires !kind.SwitchArg?
      modifies this`values
      ensures ok == accepts(value)
      ensures View() == old(View()).(values := if kind.MultiArg? then old(values) + [value] else [value])
    {
      if kind.MultiArg? {
        values := values + [value];
      } else {
        values := [value];
      }
      ok := accepts(value);
    }

    /** The end of `processArg` of ValueArg and MultiArg, with the value found. */
    method Store(value: string, words: array<string>, at: nat, statics: Statics) returns (r: Reply<bool>)
      requires !kind.SwitchArg? && !statics.ignoreRest
      modifies this`alreadySet, this`on, this`values, statics
      ensures Shows(Extract(old(View()), value, at, words[..]), r, at, words, statics)
    {
      var ok := ExtractValue(value);
      if !ok {
        return Throws(BadValue);
      }
      alreadySet := true;
      var exit := CheckWithVisitor(statics);
      r := if exit then Throws(Exit) else Returns(true);
    }

    /** `processArg` of ValueArg and MultiArg. */
    method ProcessValueArg(i: nat, words: array<string>, statics: Statics) returns (r: Reply<bool>, at: nat)
      requires !kind.SwitchArg? && i < words.Length
      modifies this`alreadySet, this`on, this`values, statics
      ensures Shows(Process(old(View()), i, old(words[..]), statics.delimiter, old(statics.ignoreRest)), r, at, words,
                    statics)
    {
      hide ArgMatches, HasBlanks, TrimFlag, Extract;
      at := i;
      if statics.ignoreRest {
        return Returns(false), at;
      }
      var blank := FindBlank(words[i]);
      if blank {
        return Returns(false), at;
      }
      var flag, value := SplitFlag(words[i], statics.delimiter);
      if !Matches(flag) {
        return Returns(false), at;
      }
      if kind.ValueArg? && alreadySet {
        return Throws(if xorSet then MutuallyExclusive else AlreadySet), at;
      }
      if statics.delimiter != ' ' && value == "" {
        return Throws(NoDelimiter), at;
      }
      if value == "" {
        at := at + 1;
        if at >= words.Length {
          return Throws(MissingValue), at;
        }
        value := words[at];
      }
      r := Store(value, words, at, statics);
    }

    /** The virtual `processArg`. */
    method ProcessArg(i: nat, words: array<string>, statics: Statics) returns (r: Reply<bool>, at: nat)
      requires i < words.Length
      modifies this`alreadySet, this`on, this`values, words, statics
      ensures Shows(Process(old(View()), i, old(words[..]), statics.delimiter, old(statics.ignoreRest)), r, at, words,
                    statics)
    {
      if kind.SwitchArg? {
        r, at := ProcessSwitchArg(i, words, statics);
      } else {
        r, at := ProcessValueArg(i, words, statics);
      }
    }

    /** The virtual `allowMore`, which a MultiArg answers with true after the first time. */
    method AllowMore() returns (more: bool)
      modifies this`allowMore
      ensures more == (kind.MultiArg? && old(allowMore))
      ensures View() == old(View()).(allowMore := kind.MultiArg? || old(allowMore))
    {
      more := kind.MultiArg? && allowMore;
      if kind.MultiArg? {
        allowMore := true;
      }
    }

    /** `xorSet`. */
    method XorSet()
      modifies this`alreadySet, this`xorSet
      ensures View() == old(View()).(alreadySet := true, xorSet := true)
    {
      alreadySet := true;
      xorSet := true;
    }

    /** The virtual `reset`, which leaves `allowMore` as it is. */
    method Reset()
      modifies this`alreadySet, this`xorSet, this`values, this`on
      ensures View() == Tclap.Reset(old(View()))
    {
      xorSet := false;
      alreadySet := false;
      values := [];
      if kind.SwitchArg? {
        on := default;
      }
    }

    /** `forceRequired`. */
    method ForceRequired()
      modifies this`required
      ensures View() == old(View()).(required := true)
    {
      required := true;
    }
  }

  lemma AllNewStep(s: seq<Argument>, j: nat, list: seq<Argument>)
    requires j <= |s|
    ensures AllNew(s, j, list) <==> j == |s| || (NoneLike(s[j], list) && AllNew(s, j + 1, [s[j]] + list))
  {
    hide NoneLike;
  }

  lemma ReversedStep(s: seq<Argument>, j: nat, rest: seq<Argument>)
    requires j < |s|
    ensures Reversed(s, j + 1) + rest == [s[j]] + (Reversed(s, j) + rest)
  {
  }

  /** A MultiArg with two values, which is not required any more. */
  ghost predicate Filled(kind: Kind, values: seq<string>) {
    kind.MultiArg? && |values| > 1
  }

  /** How many of the first `n` arguments a group adds to the count. */
  ghost function Unfilled(args: seq<Arg>, n: nat): nat
    requires n <= |args|
  {
    if n == 0 then 0 else Unfilled(args, n - 1) + if Filled(args[n - 1].kind, args[n - 1].values) then 0 else 1
  }

  lemma UnfilledStep(args: seq<Arg>, n: nat)
    requires n < |args|
    ensures Unfilled(args, n + 1) == Unfilled(args, n) + if Filled(args[n].kind, args[n].values) then 0 else 1
  {
  }

  lemma NoneUnfilled(args: seq<Arg>)
    ensures Unfilled(args, 0) == 0
  {
  }

  lemma {:induction false} AllUnfilled(args: seq<Arg>, n: nat)
    requires n <= |args| && forall k | 0 <= k < |args| :: !Filled(args[k].kind, args[k].values)
    ensures Unfilled(args, n) == n
  {
    if n > 0 {
      AllUnfilled(args, n - 1);
    }
  }

  // Positions in the argument list stand for the objects.

  ghost predicate NoRepeats(list: seq<Argument>) {
    forall j, k | 0 <= j < k < |list| :: list[j] != list[k]
  }

  ghost function Position(list: seq<Argument>, a: Argument): (k: nat)
    ensures k <= |list| && (k < |list| ==> list[k] == a) && (a in list ==> k < |list|)
  {
    if list == [] || list[0] == a then 0 else 1 + Position(list[1..], a)
  }

  ghost function Positions(list: seq<Argument>, group: seq<Argument>): (r: seq<nat>)
    ensures |r| == |group|
  {
    seq(|group|, j requires 0 <= j < |group| => Position(list, group[j]))
  }

  ghost function GroupPositions(list: seq<Argument>, groups: seq<seq<Argument>>): (r: Groups)
    ensures |r| == |groups|
  {
    seq(|groups|, g requires 0 <= g < |groups| => Positions(list, groups[g]))
  }

  ghost function Views(list: seq<Argument>): (r: seq<Arg>)
    reads list
    ensures |r| == |list|
  {
    seq(|list|, k requires 0 <= k < |list| reads list => list[k].View())
  }

  ghost function Excluded(a: Arg): Arg {
    a.(alreadySet := true, xorSet := true)
  }

  ghost predicate Among(group: seq<Argument>, list: seq<Argument>) {
    forall x | x in group :: x in list
  }

  lemma PositionAt(list: seq<Argument>, k: nat)
    requires NoRepeats(list) && k < |list|
    ensures Position(list, list[k]) == k
  {
  }

  lemma MemberPosition(list: seq<Argument>, group: seq<Argument>, x: Argument)
    requires x in list && Among(group, list)
    ensures x in group <==> Position(list, x) in Positions(list, group)
  {
    var p := Positions(list, group);
    if x in group {
      var j :| 0 <= j < |group| && group[j] == x;
      assert p[j] == Position(list, x);
    }
    if Position(list, x) in p {
      var j :| 0 <= j < |p| && p[j] == Position(list, x);
      assert group[j] in list;
    }
  }

  lemma MembersPositions(list: seq<Argument>, group: seq<Argument>)
    requires NoRepeats(list) && Among(group, list)
    ensures forall j | 0 <= j < |list| :: list[j] in group <==> j in Positions(list, group)
  {
    forall j | 0 <= j < |list| ensures list[j] in group <==> j in Positions(list, group) {
      PositionAt(list, j);
      MemberPosition(list, group, list[j]);
    }
  }

  lemma OtherPositions(list: seq<Argument>, group: seq<Argument>, a: Argument)
    requires NoRepeats(list) && Among(group, list) && a in list
    ensures OtherIsSet(Views(list), Positions(list, group), Position(list, a)) <==>
      exists j | 0 <= j < |group| :: group[j] != a && group[j].IsSet()
  {
    MembersPositions(list, group);
    if j :| 0 <= j < |group| && group[j] != a && group[j].IsSet() {
      assert IsSet(Views(list)[Position(list, group[j])]);
    }
  }

  lemma {:induction false} FirstGroup(list: seq<Argument>, groups: seq<seq<Argument>>, a: Argument, i: nat)
    requires a in list && forall g | 0 <= g < |groups| :: Among(groups[g], list)
    requires i <= |groups| && (i < |groups| ==> a in groups[i])
    requires forall h | 0 <= h < i :: a !in groups[h]
    ensures GroupOf(GroupPositions(list, groups), Position(list, a)) == i
  {
    var p := GroupPositions(list, groups);
    forall g | 0 <= g < |groups| ensures a in groups[g] <==> Position(list, a) in p[g] {
      MemberPosition(list, groups[g], a);
    }
  }

  class XorHandler {
    var orList: seq<seq<Argument>>

    constructor ()
      ensures orList == []
    {
      orList := [];
    }

    method Add(ors: seq<Argument>)
      modifies this
      ensures orList == old(orList) + [ors]
    {
      orList := orList + [ors];
    }

    /** Whether a member of the group other than `a` is set. */
    method AnotherIsSet(a: Argument, group: seq<Argument>) returns (found: bool)
      ensures found <==> exists j | 0 <= j < |group| :: group[j] != a && group[j].IsSet()
    {
      var j := 0;
      while j < |group|
        invariant 0 <= j <= |group|
        invariant forall k | 0 <= k < j :: !(group[k] != a && group[k].IsSet())
      {
        if group[j] != a && group[j].IsSet() {
          return true;
        }
        j := j + 1;
      }
      return false;
    }

    method XorSetOthers(a: Argument, group: seq<Argument>, ghost list: seq<Argument>)
      requires Among(group, list)
      modifies set x | x in list
      ensures forall x | x in list ::
        x.View() == if x in group && x != a then Excluded(old(x.View())) else old(x.View())
    {
      var j := 0;
      while j < |group|
        invariant 0 <= j <= |group|
        invariant forall x | x in list ::
          x.View() == if x in group[..j] && x != a then Excluded(old(x.View())) else old(x.View())
      {
        assert group[..j + 1] == group[..j] + [group[j]];
        if group[j] != a {
          group[j].XorSet();
        }
        j := j + 1;
      }
      assert group[..j] == group;
    }

    /** The loop over the other members, in terms of positions. */
    method Exclude(a: Argument, group: seq<Argument>, ghost list: seq<Argument>)
      requires NoRepeats(list) && a in list && Among(group, list)
      modifies set x | x in list
      ensures Views(list) == ExcludeOthers(old(Views(list)), Positions(list, group), Position(list, a))
      ensures forall x | x in list :: x.required == old(x.required)
    {
      ghost var before := Views(list);
      MembersPositions(list, group);
      XorSetOthers(a, group, list);
      hide NoRepeats, Positions;
      assert Views(list) == ExcludeOthers(before, Positions(list, group), Position(list, a)) by {
        forall j | 0 <= j < |list| ensures list[j] == a <==> j == Position(list, a) {
          PositionAt(list, j);
        }
      }
    }

    /** What a match of a member adds to the count. */
    method CountMatch(a: Argument, group: seq<Argument>, ghost list: seq<Argument>) returns (n: nat)
      requires NoRepeats(list) && a in list
      modifies a`allowMore
      ensures n == if a.kind.MultiArg? && old(a.allowMore) then 0 else |group|
      ensures Views(list)
        == old(Views(list))[Position(list, a) := old(a.View()).(allowMore := a.kind.MultiArg? || old(a.allowMore))]
    {
      ghost var before := Views(list);
      var more := a.AllowMore();
      n := if more then 0 else |group|;
      assert Views(list) == before[Position(list, a) := a.View()];
    }

    method CheckGroup(a: Argument, group: seq<Argument>, ghost list: seq<Argument>) returns (r: Reply<nat>)
      requires NoRepeats(list) && a in list && Among(group, list) && a in group
      modifies set x | x in list
      ensures match Tclap.CheckGroup(old(Views(list)), Positions(list, group), Position(list, a))
        case CheckThrew(e) => r == Throws(e)
        case Count(n, args) => r == Returns(n) && Views(list) == args
      ensures forall x | x in list :: x.required == old(x.required)
    {
      hide OtherIsSet, NoRepeats, Among;
      ghost var before := Views(list);
      var another := AnotherIsSet(a, group);
      OtherPositions(list, group, a);
      if another {
        return Throws(MutuallyExclusive);
      }
      Exclude(a, group, list);
      ghost var excluded := Views(list);
      var n := CountMatch(a, group, list);
      assert excluded[Position(list, a)] == before[Position(list, a)];
      r := Returns(n);
    }

    method Check(a: Argument, ghost list: seq<Argument>) returns (r: Reply<nat>)
      requires NoRepeats(list) && a in list && forall g | 0 <= g < |orList| :: Among(orList[g], list)
      modifies set x | x in list
      ensures match Tclap.Check(old(Views(list)), GroupPositions(list, orList), Position(list, a))
        case CheckThrew(e) => r == Throws(e)
        case Count(n, args) => r == Returns(n) && Views(list) == args
      ensures forall x | x in list :: x.required == old(x.required)
    {
      var i := 0;
      while i < |orList|
        invariant 0 <= i <= |orList|
        invariant forall h | 0 <= h < i :: a !in orList[h]
      {
        if a in orList[i] {
          FirstGroup(list, orList, a, i);
          r := CheckGroup(a, orList[i], list);
          return;
        }
        i := i + 1;
      }
      FirstGroup(list, orList, a, i);
      r := Returns(if a.IsRequired() then 1 else 0);
    }
  }

  class CmdLine {
    var argList: seq<Argument>
    var numRequired: nat
    const xorHandler: XorHandler
    const ignoreUnmatched: bool
    const statics: Statics

    constructor (statics: Statics, ignoreUnmatched: bool)
      ensures argList == [] && numRequired == 0 && xorHandler.orList == [] && fresh(xorHandler) && Ready()
      ensures this.statics == statics && this.ignoreUnmatched == ignoreUnmatched
    {
      argList, numRequired := [], 0;
      xorHandler := new XorHandler();
      this.statics, this.ignoreUnmatched := statics, ignoreUnmatched;
      new;
      assert Required(Views(argList)) == {};
    }

    /** Each argument is listed once, and the groups hold listed ones. */
    ghost predicate Valid()
      reads this, xorHandler
    {
      NoRepeats(argList) && forall g | 0 <= g < |xorHandler.orList| :: Among(xorHandler.orList[g], argList)
    }

    ghost function Definition(): Line
      reads this, xorHandler
    {
      Line(GroupPositions(argList, xorHandler.orList), statics.delimiter, ignoreUnmatched, numRequired)
    }

    /** Built by `add` and `xorAdd`, and parsed and reset any number of times. */
    ghost predicate Built()
      reads this, xorHandler, argList
    {
      Valid() && Defined(Definition(), Views(argList))
    }

    /** Fit for a parse: new, or reset after the last one. */
    ghost predicate Ready()
      reads this, xorHandler, argList
    {
      Valid() && Initial(Definition(), Views(argList))
    }

    /** `add` puts the argument in front, unless one of the same flag or name is there already. */
    method Add(a: Argument) returns (ok: bool)
      modifies this`argList, this`numRequired
      ensures ok <==> NoneLike(a, old(argList))
      ensures argList == if ok then [a] + old(argList) else old(argList)
      ensures numRequired == old(numRequired) + if ok && a.IsRequired() then 1 else 0
      ensures old(NoRepeats(argList)) ==> NoRepeats(argList)
      ensures old(Built()) && ok && (a.required ==> !a.kind.SwitchArg? && !Filled(a.kind, a.values)) ==> Built()
      ensures old(Ready()) && ok && Unused(a.View()) && (a.kind.SwitchArg? ==> !a.required) ==> Ready()
    {
      var j := 0;
      while j < |argList|
        invariant 0 <= j <= |argList|
        invariant forall k | 0 <= k < j :: !Alike(a, argList[k])
      {
        if a.Same(argList[j]) {
          return false;
        }
        j := j + 1;
      }
      ghost var line, list := Definition(), argList;
      argList := [a] + argList;
      if a.IsRequired() {
        numRequired := numRequired + 1;
      }
      if old(Built()) && (a.required ==> !a.kind.SwitchArg? && !Filled(a.kind, a.values)) {
        BuiltAfterAdd(this, line, list, a);
      }
      return true;
    }

    method AddRequired(a: Argument) returns (ok: bool)
      modifies this`argList, this`numRequired, a`required
      ensures ok <==> NoneLike(a, old(argList))
      ensures argList == if ok then [a] + old(argList) else old(argList)
      ensures numRequired == old(numRequired) + if ok && !Filled(a.kind, a.values) then 1 else 0
      ensures old(NoRepeats(argList)) ==> NoRepeats(argList)
      ensures a.required
    {
      a.ForceRequired();
      ok := Add(a);
    }

    /** The loop of `xorAdd`. */
    method AddMembers(ors: seq<Argument>) returns (ok: bool)
      modifies this`argList, this`numRequired, ors`required
      ensures ok <==> AllNew(ors, 0, old(argList))
      ensures ok ==> argList == Reversed(ors, |ors|) + old(argList)
      ensures ok ==> numRequired == old(numRequired) + Unfilled(old(Views(ors)), |ors|)
      ensures ok ==> forall x | x in ors :: x.required
      ensures old(NoRepeats(argList)) ==> NoRepeats(argList)
    {
      hide NoneLike, Alike, NoRepeats, Reversed, AllNew, Unfilled, Filled;
      ghost var views := Views(ors);
      NoneUnfilled(views);
      var j := 0;
      while j < |ors|
        invariant 0 <= j <= |ors|
        invariant old(NoRepeats(argList)) ==> NoRepeats(argList)
        invariant argList == Reversed(ors, j) + old(argList)
        invariant numRequired == old(numRequired) + Unfilled(views, j)
        invariant AllNew(ors, 0, old(argList)) <==> AllNew(ors, j, argList)
        invariant forall k | 0 <= k < j :: ors[k].required
      {
        ReversedStep(ors, j, old(argList));
        AllNewStep(ors, j, argList);
        UnfilledStep(views, j);
        var added := AddRequired(ors[j]);
        if !added {
          return false;
        }
        j := j + 1;
      }
      AllNewStep(ors, j, argList);
      return true;
    }

    /** `xorAdd` registers the group, then requires and adds its members one by one. */
    method XorAdd(ors: seq<Argument>) returns (ok: bool)
      modifies this`argList, this`numRequired, xorHandler, ors`required
      ensures ok <==> AllNew(ors, 0, old(argList))
      ensures ok ==> argList == Reversed(ors, |ors|) + old(argList)
      ensures ok ==> numRequired == old(numRequired) + Unfilled(old(Views(ors)), |ors|)
      ensures ok ==> forall x | x in ors :: x.required
      ensures xorHandler.orList == old(xorHandler.orList) + [ors]
      ensures old(Built()) && ok && (forall x | x in ors :: !Filled(x.kind, old(x.values))) ==> Built()
      ensures old(Ready()) && ok && (forall x | x in ors :: old(Unused(x.View()))) ==> Ready()
    {
      hide AllNew, Reversed, NoRepeats, Defined, GroupPositions, Unfilled;
      ghost var line, list, groups := Definition(), argList, xorHandler.orList;
      if forall x | x in ors :: !Filled(x.kind, x.values) {
        AllUnfilled(Views(ors), |ors|);
      }
      xorHandler.Add(ors);
      ok := AddMembers(ors);
      if old(Built()) && ok && (forall x | x in ors :: !Filled(x.kind, old(x.values))) {
        NotAmong(ors, list);
        forall k | 0 <= k < |list| ensures list[k].View() == old(list[k].View()) {
          assert list[k] in list;
          assert list[k] !in ors;
        }
        assert Views(list) == old(Views(list));
        forall x | x in Reversed(ors, |ors|) ensures x.required && (old(Unused(x.View())) ==> Unused(x.View())) {
          assert x in ors;
        }
        FrontPositions(ors, list);
        BuiltAfterXorAdd(this, line, list, groups, ors, Reversed(ors, |ors|));
      }
    }

    /** The word at `i` is offered to the argument `k`. */
    method Offer(k: nat, i: nat, words: array<string>) returns (r: Reply<bool>, at: nat)
      requires NoRepeats(argList) && k < |argList| && i < words.Length
      modifies (set x | x in argList), statics, words
      ensures
        match Process(old(Views(argList))[k], i, old(words[..]), statics.delimiter, old(statics.ignoreRest))
        case Threw(e) => r == Throws(e)
        case Done(matched, arg, next, ws, ignoreRest) =>
          r == Returns(matched) && at == next && Views(argList) == old(Views(argList))[k := arg]
          && words[..] == ws && statics.ignoreRest == ignoreRest
      ensures forall x | x in argList :: x.required == old(x.required)
    {
      hide Process;
      r, at := argList[k].ProcessArg(i, words, statics);
      assert Views(argList) == old(Views(argList))[k := argList[k].View()];
    }

    /** The inner loop of `parse`: `more` is what the counter grows by. */
    method TryArguments(words: array<string>, i: nat, ghost count: nat)
      returns (r: Reply<bool>, more: nat, at: nat)
      requires Valid() && i < words.Length
      modifies (set x | x in argList), statics, words
      ensures
        match TryFrom(Definition(), State(old(Views(argList)), old(words[..]), i, count, old(statics.ignoreRest)), 0)
        case TryThrew(e) => r == Throws(e)
        case Tried(matched, s) =>
          r == Returns(matched) && Views(argList) == s.args && words[..] == s.words && at == s.i
          && count + more == s.count && statics.ignoreRest == s.ignoreRest
      ensures forall x | x in argList :: x.required == old(x.required)
    {
      hide Tclap.Process, Tclap.Check, Position, GroupPositions, NoRepeats, Among;
      more, at := 0, i;
      ghost var line := Definition();
      ghost var first := State(Views(argList), words[..], i, count, statics.ignoreRest);
      var k := 0;
      while k < |argList|
        invariant 0 <= k <= |argList| && at < words.Length && more == 0
        invariant forall x | x in argList :: x.required == old(x.required)
        invariant TryFrom(line, first, 0)
          == TryFrom(line, State(Views(argList), words[..], at, count, statics.ignoreRest), k)
      {
        r, at := Offer(k, at, words);
        if r.Throws? {
          return;
        }
        if r.value {
          PositionAt(argList, k);
          var counted := xorHandler.Check(argList[k], argList);
          if counted.Throws? {
            r := Throws(counted.e);
          } else {
            more := counted.value;
          }
          return;
        }
        k := k + 1;
      }
      r := Returns(false);
    }

    /** What a look at a word changes, a command line stays built. */
    twostate lemma BuiltStays()
      requires argList == old(argList) && numRequired == old(numRequired)
      requires xorHandler.orList == old(xorHandler.orList)
      requires forall x | x in argList :: x.required == old(x.required)
      ensures old(Built()) ==> Built()
    {
      hide WellDefined, Required, GroupPositions;
      if old(Built()) {
        assert SameDefinitions(old(Views(argList)), Views(argList));
        WellDefinedKept(Definition().groups, old(Views(argList)), Views(argList));
      }
    }

    /** `reset` of every argument makes a command line fit for a parse again. */
    method Reset()
      requires Valid()
      modifies set x | x in argList
      ensures forall k | 0 <= k < |argList| :: argList[k].View() == Tclap.Reset(old(argList[k].View()))
      ensures old(Built()) ==> Ready()
    {
      hide WellDefined, Required, Initial, GroupPositions;
      var j := 0;
      while j < |argList|
        invariant 0 <= j <= |argList|
        invariant forall k | 0 <= k < |argList| ::
          argList[k].View() == if k < j then Tclap.Reset(old(argList[k].View())) else old(argList[k].View())
      {
        argList[j].Reset();
        j := j + 1;
      }
      if old(Built()) {
        ResetInitial(Definition(), old(Views(argList)), Views(argList));
      }
    }

    /** The outer loop of `parse` with the check of the count, on the words after the program name, which is
        taken off a copy. Started on a command line fit for a first parse, it answers normally only when all
        requirements are met, and never that there are too many arguments. */
    method Parse(argv: seq<string>) returns (r: Reply<()>)
      requires Valid() && argv != []
      modifies (set x | x in argList), statics
      ensures
        match Tclap.Parse(Definition(), old(Views(argList)), argv[1..], old(statics.ignoreRest))
        case Fails(e) => r == Throws(e)
        case Finishes(s) => r == Returns(()) && Views(argList) == s.args && statics.ignoreRest == s.ignoreRest
      ensures old(Ready()) ==> r != Throws(TooManyArgs)
      ensures old(Ready()) && r.Returns? ==> Met(Definition().groups, Views(argList))
      ensures old(Built()) ==> Built()
    {
      hide TryFrom, Initial, Met, RunReported, Valid, GroupPositions, WellDefined, Required;
      var words := new string[|argv| - 1](k requires 0 <= k < |argv| - 1 => argv[k + 1]);
      assert words[..] == argv[1..];
      ghost var line := Definition();
      ghost var first := State(Views(argList), argv[1..], 0, 0, statics.ignoreRest);
      ParseConsequences(line, first.args, argv[1..], first.ignoreRest);
      var requiredCount: nat, i: nat := 0, 0;
      while i < words.Length
        invariant i <= words.Length
        invariant forall x | x in argList :: x.required == old(x.required)
        invariant old(Built()) ==> Built()
        invariant LoopFrom(line, first)
          == LoopFrom(line, State(Views(argList), words[..], i, requiredCount, statics.ignoreRest))
      {
        label Before:
        var matched, more, at := TryArguments(words, i, requiredCount);
        BuiltStays@Before();
        if matched.Throws? {
          return Throws(matched.e);
        }
        i := at;
        requiredCount := requiredCount + more;
        var found := matched.value;
        if !found {
          found := IsEmptyCombined(words[i]);
        }
        if !found && !statics.ignoreRest && !ignoreUnmatched {
          return Throws(NoMatch);
        }
        i := i + 1;
      }
      if requiredCount < numRequired {
        return Throws(MissingArgs);
      }
      if requiredCount > numRequired {
        return Throws(TooManyArgs);
      }
      r := Returns(());
    }
  }

  lemma ParseConsequences(line: Line, args: seq<Arg>, words: seq<string>, ignoreRest: bool)
    ensures Initial(line, args) ==> Tclap.Parse(line, args, words, ignoreRest) != Fails(TooManyArgs)
    ensures var r := Tclap.Parse(line, args, words, ignoreRest);
      Initial(line, args) && r.Finishes? ==> Met(line.groups, r.state.args)
  {
    hide Initial, Met, RunReported, LoopFrom, Tclap.Parse;
    if Initial(line, args) {
      ParseExact(line, args, words, ignoreRest);
      if Tclap.Parse(line, args, words, ignoreRest).Finishes? {
        ParseMeets(line, args, words, ignoreRest);
      }
    }
  }

  // What adding does to positions.

  lemma PositionsInFront(front: seq<Argument>, list: seq<Argument>, groups: seq<seq<Argument>>)
    requires NoRepeats(front + list)
    requires forall g | 0 <= g < |groups| :: Among(groups[g], list)
    ensures GroupPositions(front + list, groups) == Shift(GroupPositions(list, groups), |front|)
  {
    forall g | 0 <= g < |groups|
      ensures Positions(front + list, groups[g]) == ShiftGroup(Positions(list, groups[g]), |front|)
    {
      forall j | 0 <= j < |groups[g]|
        ensures Position(front + list, groups[g][j]) == Position(list, groups[g][j]) + |front|
      {
        assert groups[g][j] in list;
        PositionInFront(front, list, groups[g][j]);
      }
    }
  }

  lemma PositionInFront(front: seq<Argument>, list: seq<Argument>, x: Argument)
    requires NoRepeats(front + list) && x in list
    ensures Position(front + list, x) == Position(list, x) + |front|
  {
    var k := Position(list, x);
    assert (front + list)[|front| + k] == x;
    PositionAt(front + list, |front| + k);
  }

  lemma {:induction false} ReversedAt(s: seq<Argument>, n: nat, j: nat)
    requires j < n <= |s|
    ensures Reversed(s, n)[n - 1 - j] == s[j]
  {
    if j < n - 1 {
      ReversedAt(s, n - 1, j);
    }
  }

  lemma FrontPosition(front: seq<Argument>, list: seq<Argument>, x: Argument, k: nat)
    requires NoRepeats(front + list) && k < |front| && front[k] == x
    ensures Position(front + list, x) == k
  {
    assert (front + list)[k] == x;
    PositionAt(front + list, k);
  }

  lemma FrontPositions(ors: seq<Argument>, list: seq<Argument>)
    requires NoRepeats(Reversed(ors, |ors|) + list)
    ensures Positions(Reversed(ors, |ors|) + list, ors) == FrontGroup(|ors|)
  {
    hide Reversed, Position, NoRepeats;
    var front := Reversed(ors, |ors|);
    forall j | 0 <= j < |ors| ensures Position(front + list, ors[j]) == |ors| - 1 - j {
      ReversedAt(ors, |ors|, j);
      FrontPosition(front, list, ors[j], |ors| - 1 - j);
    }
  }

  lemma NotBoth(front: seq<Argument>, list: seq<Argument>, j: nat, k: nat)
    requires NoRepeats(front + list) && j < |front| && k < |list|
    ensures front[j] != list[k]
  {
    var all := front + list;
    assert all[j] == front[j] && all[|front| + k] == list[k];
  }

  lemma FrontAmong(ors: seq<Argument>)
    ensures Among(Reversed(ors, |ors|), ors) && Among(ors, Reversed(ors, |ors|))
  {
    hide Reversed;
    var front := Reversed(ors, |ors|);
    forall x | x in front ensures x in ors {
      var i :| 0 <= i < |front| && front[i] == x;
      ReversedAt(ors, |ors|, |ors| - 1 - i);
    }
    forall x | x in ors ensures x in front {
      var j :| 0 <= j < |ors| && ors[j] == x;
      ReversedAt(ors, |ors|, j);
    }
  }

  lemma NotAmong(ors: seq<Argument>, list: seq<Argument>)
    requires NoRepeats(Reversed(ors, |ors|) + list)
    ensures forall x | x in list :: x !in ors
    ensures Among(Reversed(ors, |ors|), ors) && Among(ors, Reversed(ors, |ors|))
  {
    hide Reversed, NoRepeats;
    var front := Reversed(ors, |ors|);
    FrontAmong(ors);
    forall x | x in list ensures x !in ors {
      var k :| 0 <= k < |list| && list[k] == x;
      forall j | 0 <= j < |front| ensures front[j] != x {
        NotBoth(front, list, j, k);
      }
    }
  }

  lemma BuiltAfterAdd(c: CmdLine, line: Line, list: seq<Argument>, a: Argument)
    requires Defined(line, Views(list)) && line.groups == GroupPositions(list, c.xorHandler.orList)
    requires forall g | 0 <= g < |c.xorHandler.orList| :: Among(c.xorHandler.orList[g], list)
    requires NoRepeats(c.argList) && c.argList == [a] + list
    requires c.Definition() == line.(groups := c.Definition().groups,
                                     numRequired := line.numRequired + if a.required then 1 else 0)
    requires a.kind.SwitchArg? ==> !a.required
    ensures c.Built() && (Initial(line, Views(list)) && Unused(a.View()) ==> c.Ready())
  {
    hide Defined, NoRepeats, GroupPositions;
    PositionsInFront([a], list, c.xorHandler.orList);
    AddDefined(line, Views(list), a.View());
    assert Views(c.argList) == [a.View()] + Views(list);
  }

  lemma BuiltAfterXorAdd(c: CmdLine, line: Line, list: seq<Argument>, groups: seq<seq<Argument>>, ors: seq<Argument>,
      front: seq<Argument>)
    requires Defined(line, Views(list)) && line.groups == GroupPositions(list, groups)
    requires forall g | 0 <= g < |groups| :: Among(groups[g], list)
    requires c.xorHandler.orList == groups + [ors]
    requires NoRepeats(c.argList) && c.argList == front + list && |front| == |ors|
    requires Positions(c.argList, ors) == FrontGroup(|ors|) && Among(ors, front)
    requires c.Definition() == line.(groups := c.Definition().groups, numRequired := line.numRequired + |ors|)
    requires forall x | x in front :: x.required
    ensures c.Built() && (Initial(line, Views(list)) && (forall x | x in front :: Unused(x.View())) ==> c.Ready())
  {
    hide Defined, NoRepeats, Unused, Positions;
    PositionsInFront(front, list, groups);
    assert GroupPositions(c.argList, groups + [ors])
        == GroupPositions(c.argList, groups) + [Positions(c.argList, ors)];
    XorAddDefined(line, Views(list), Views(front));
    assert Views(c.argList) == Views(front) + Views(list);
  }
}
