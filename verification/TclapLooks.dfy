/** What words do to switches, from the definitions of the arguments alone: which words are looked at, and which of
    them set a switch of a group without the parser being told. */
module TclapLooks {
  import opened Tclap
  import opened TclapRequired
  import opened Wrappers

  /** The word takes the next one as a value, for want of a text of its own; after it the rest is ignored; it
      sets a required switch unreported; it is matched by the argument at a position, unless there is none; it
      sets the switches at some positions; `text` is its own text; and it names a switch twice. */
  datatype Look =
    Look(takes: bool, ignores: bool, loses: bool, taker: Option<nat>, sets: set<nat>, text: string, twice: bool)

  const NOTHING := Look(false, false, false, None, {}, "", false)

  predicate Ignores(a: Arg) {
    a.visitor.IgnoreRestVisitor?
  }

  /** The arguments from `k` on look at a word of which the switches before `k` have blanked their characters. */
  function Looked(args: seq<Arg>, k: nat, word: string, delimiter: char): Look
    requires k <= |args|
    decreases |args| - k
  {
    if k == |args| then NOTHING
    else if args[k].kind.SwitchArg? then
      if ArgMatches(args[k], word) then Look(false, Ignores(args[k]), false, Some(k), {k}, "", false)
      else
        match CombinedMatch(args[k], word, delimiter)
        case None => Looked(args, k + 1, word, delimiter)
        case Some(rest) =>
          var again := CombinedMatch(args[k], rest, delimiter).Some?;
          if AllBlank(rest) then Look(false, Ignores(args[k]), false, Some(k), {k}, "", again)
          else if Ignores(args[k]) then Look(false, true, args[k].required, None, {k}, "", again)
          else
            var later := Looked(args, k + 1, rest, delimiter);
            later.(loses := args[k].required || later.loses, sets := {k} + later.sets, twice := again || later.twice)
    else
      var (flag, value) := TrimFlag(word, delimiter);
      if HasBlanks(word) || !ArgMatches(args[k], flag) then Looked(args, k + 1, word, delimiter)
      else Look(value == "", Ignores(args[k]), false, Some(k), {}, value, false)
  }

  /** No word that is looked at, from `i` on, sets a required switch unreported. */
  predicate NoneLost(args: seq<Arg>, words: seq<string>, i: nat, delimiter: char, ignoreRest: bool)
    decreases |words| - i
  {
    ignoreRest || i >= |words| ||
    var look := Looked(args, 0, words[i], delimiter);
    !look.loses && NoneLost(args, words, i + 1 + (if look.takes then 1 else 0), delimiter, look.ignores)
  }

  // Only definitions matter, and only words not yet looked at.

  lemma {:induction false} LookedSame(args: seq<Arg>, args': seq<Arg>, k: nat, word: string, delimiter: char)
    requires k <= |args| == |args'| && forall j | k <= j < |args| :: SameDefinition(args[j], args'[j])
    ensures Looked(args, k, word, delimiter) == Looked(args', k, word, delimiter)
    decreases |args| - k
  {
    hide AllBlank, HasBlanks, TrimFlag, IndexOf;
    if k < |args| {
      assert SameDefinition(args[k], args'[k]);
      LookedSame(args, args', k + 1, word, delimiter);
      var rest := CombinedMatch(args[k], word, delimiter);
      assert rest == CombinedMatch(args'[k], word, delimiter);
      if rest.Some? {
        LookedSame(args, args', k + 1, rest.value, delimiter);
      }
    }
  }

  lemma {:induction false} NoneLostSame(args: seq<Arg>, args': seq<Arg>, words: seq<string>, words': seq<string>,
                                        i: nat, delimiter: char, ignoreRest: bool)
    requires SameDefinitions(args, args') && |words| == |words'|
    requires forall j | i <= j < |words| :: words[j] == words'[j]
    ensures NoneLost(args, words, i, delimiter, ignoreRest) <==> NoneLost(args', words', i, delimiter, ignoreRest)
    decreases |words| - i
  {
    hide Looked;
    if i < |words| {
      LookedSame(args, args', 0, words[i], delimiter);
      var look := Looked(args, 0, words[i], delimiter);
      NoneLostSame(args, args', words, words', i + 1 + (if look.takes then 1 else 0), delimiter, look.ignores);
    }
  }

  // The parser looks as the definitions say.

  /** A word that is ignored. */
  lemma {:induction false} IgnoredTry(line: Line, s: State, k: nat)
    requires k <= |s.args| && s.i < |s.words| && s.ignoreRest
    ensures TryFrom(line, s, k) == Tried(false, s) && WordReported(line, s, k)
    decreases |s.args| - k
  {
    if k < |s.args| {
      assert s.args[k := s.args[k]] == s.args;
      IgnoredTry(line, s, k + 1);
    }
  }

  /** How one argument, by its definition, looks at a word; `next` is where the parser stands afterwards. */
  lemma SwitchLook(a: Arg, i: nat, words: seq<string>, delimiter: char)
    requires i < |words| && a.kind.SwitchArg? && ProcessSwitch(a, i, words, delimiter).Done?
    ensures var r := ProcessSwitch(a, i, words, delimiter);
      var m := CombinedMatch(a, words[i], delimiter);
      && r.i == i
      && (ArgMatches(a, words[i]) ==> r.matched && r.words == words && r.ignoreRest == Ignores(a) && Flipped(a, r.arg))
      && (!ArgMatches(a, words[i]) && m.None? ==> r == Done(false, a, i, words, false))
      && (!ArgMatches(a, words[i]) && m.Some? ==>
            && r.words == words[i := m.value] && r.matched == AllBlank(m.value) && r.ignoreRest == Ignores(a)
            && Flipped(a, r.arg))
  {
    hide CombinedMatch, ArgMatches, AllBlank;
  }

  ghost predicate Flipped(a: Arg, a': Arg) {
    !a.alreadySet && !a.xorSet && a' == a.(alreadySet := true, on := !a.on)
  }

  /** The text an argument takes from its word, or else from the next one. */
  function TextFor(own: string, words: seq<string>, i: nat): string {
    if own != "" then own else if i + 1 < |words| then words[i + 1] else ""
  }

  lemma ValueLook(a: Arg, i: nat, words: seq<string>, delimiter: char)
    requires i < |words| && !a.kind.SwitchArg? && ProcessValue(a, i, words, delimiter).Done?
    ensures var r := ProcessValue(a, i, words, delimiter);
      var (flag, value) := TrimFlag(words[i], delimiter);
      && r.words == words
      && if HasBlanks(words[i]) || !ArgMatches(a, flag) then r == Done(false, a, i, words, false)
         else
           && r.matched && r.i == i + (if value == "" then 1 else 0) && r.ignoreRest == Ignores(a)
           && (value == "" ==> i + 1 < |words|) && Took(a, r.arg, TextFor(value, words, i))
  {
    hide TrimFlag, ArgMatches, HasBlanks;
  }

  ghost predicate Took(a: Arg, a': Arg, text: string) {
    && (a.kind.ValueArg? ==> !a.alreadySet)
    && a' == a.(alreadySet := true, values := if a.kind.MultiArg? then a.values + [text] else [text])
  }

  /** The inner loop changes neither definitions nor other words. */
  lemma {:induction false} TryDefinitions(line: Line, s: State, k: nat)
    requires k <= |s.args| && s.i < |s.words| && TryFrom(line, s, k).Tried?
    ensures var s' := TryFrom(line, s, k).state; SameDefinitions(s.args, s'.args) && Elsewhere(s, s')
    decreases |s.args| - k
  {
    hide Process, Meaning, Check;
    if k < |s.args| {
      var r := Process(s.args[k], s.i, s.words, line.delimiter, s.ignoreRest);
      DefinitionKept(s.args[k], s.i, s.words, line.delimiter, s.ignoreRest);
      var s1 := State(s.args[k := r.arg], r.words, r.i, s.count, r.ignoreRest);
      if r.matched {
        CheckKept(s1.args, line.groups, k);
      } else {
        TryDefinitions(line, s1, k + 1);
      }
      SameDefinitionsTransitive(s.args, s1.args, TryFrom(line, s, k).state.args);
    }
  }

  /** What a word leaves of an argument: a switch that it sets is flipped, and an argument that it is for takes
      the text; whether it was set before decides who may. */
  ghost predicate Left(a: Arg, a': Arg, takes: bool, flips: bool, text: string) {
    && SameDefinition(a, a')
    && a'.on == (a.on != flips)
    && a'.values == (if !takes then a.values else if a.kind.MultiArg? then a.values + [text] else [text])
    && (takes || flips ==>
          a'.alreadySet && (a.kind.MultiArg? || (!a.alreadySet && (!a.xorSet ==> IsSet(a')))))
    && (a.alreadySet ==> a'.alreadySet)
    && ((a.xorSet ==> a.alreadySet) ==> (a'.xorSet ==> a'.alreadySet))
    && (IsSet(a) ==> IsSet(a'))
    && (IsSet(a') ==> IsSet(a) || takes || flips)
  }

  ghost predicate Takes(look: Look, a: Arg, k: nat) {
    look.taker == Some(k) && !a.kind.SwitchArg?
  }

  ghost predicate AllLeft(args: seq<Arg>, args': seq<Arg>, look: Look, text: string) {
    |args'| == |args| &&
    forall j | 0 <= j < |args| :: Left(args[j], args'[j], Takes(look, args[j], j), j in look.sets, text)
  }

  lemma NothingLeft(args: seq<Arg>, text: string)
    ensures AllLeft(args, args, NOTHING, text)
  {
  }

  /** One argument has looked. */
  lemma LeftStep(args: seq<Arg>, k: nat, arg: Arg, look: Look, text: string)
    requires k < |args| && (look.taker.Some? ==> look.taker.value == k) && look.sets <= {k}
    requires if k in look.sets then args[k].kind.SwitchArg? && Flipped(args[k], arg)
             else if Takes(look, args[k], k) then Took(args[k], arg, text)
             else arg == args[k]
    ensures AllLeft(args, args[k := arg], look, text)
  {
  }

  /** The look of one argument and that of the others. */
  lemma LeftJoin(args: seq<Arg>, args1: seq<Arg>, args': seq<Arg>, one: Look, look: Look, all: Look, text: string)
    requires AllLeft(args, args1, one, text) && AllLeft(args1, args', look, text)
    requires all.sets == one.sets + look.sets && one.sets !! look.sets
    requires if one.taker.Some? then look.taker.None? && all.taker == one.taker else all.taker == look.taker
    ensures AllLeft(args, args', all, text)
  {
    forall j | 0 <= j < |args|
      ensures Left(args[j], args'[j], Takes(all, args[j], j), j in all.sets, text)
    {
      assert Left(args[j], args1[j], Takes(one, args[j], j), j in one.sets, text);
      assert Left(args1[j], args'[j], Takes(look, args1[j], j), j in look.sets, text);
    }
  }

  lemma {:induction false} LookedLater(args: seq<Arg>, k: nat, word: string, delimiter: char)
    requires k <= |args|
    ensures var look := Looked(args, k, word, delimiter);
      && (look.taker.Some? ==> k <= look.taker.value < |args|)
      && (forall j | j in look.sets :: k <= j < |args| && args[j].kind.SwitchArg?)
      && (look.taker.Some? && !args[look.taker.value].kind.SwitchArg? ==> (look.takes <==> look.text == ""))
    decreases |args| - k
  {
    hide ArgMatches, CombinedMatch, AllBlank, HasBlanks, TrimFlag;
    if k < |args| {
      LookedLater(args, k + 1, word, delimiter);
      var m := CombinedMatch(args[k], word, delimiter);
      if m.Some? {
        LookedLater(args, k + 1, m.value, delimiter);
      }
    }
  }

  /** The look of the argument `k` alone. */
  ghost function Own(args: seq<Arg>, k: nat, word: string, delimiter: char): (one: Look)
    requires k < |args|
  {
    var look := Looked(args, k, word, delimiter);
    look.(sets := look.sets * {k}, taker := if look.taker == Some(k) then Some(k) else None)
  }

  /** How one argument, by its definition, looks at the word, and whether the others look as well. */
  lemma OwnLook(args: seq<Arg>, k: nat, i: nat, words: seq<string>, delimiter: char)
    requires k < |args| && i < |words| && Process(args[k], i, words, delimiter, false).Done?
    ensures var r := Process(args[k], i, words, delimiter, false);
      var look := Looked(args, k, words[i], delimiter);
      var one, text := Own(args, k, words[i], delimiter), TextFor(look.text, words, i);
      && r.matched == one.taker.Some? && one.sets <= {k}
      && (r.matched ==>
            && look.taker == one.taker && look.sets == one.sets && !look.loses && r.ignoreRest == look.ignores
            && r.i == i + (if look.takes then 1 else 0))
      && (!r.matched && r.ignoreRest ==>
            && look.taker == None && look.sets == one.sets && look.ignores && !look.takes
            && (look.loses <==> r.arg != args[k] && args[k].required))
      && (!r.matched && !r.ignoreRest ==>
            var later := Looked(args, k + 1, r.words[i], delimiter);
            && look.taker == later.taker && look.sets == one.sets + later.sets && look.ignores == later.ignores
            && look.takes == later.takes && look.text == later.text
            && (look.loses <==> (r.arg != args[k] && args[k].required) || later.loses))
      && AllLeft(args, args[k := r.arg], one, text)
  {
    hide ProcessSwitch, ProcessValue, CombinedMatch, ArgMatches, AllBlank, HasBlanks, TrimFlag, AllLeft, TextFor;
    var a := args[k];
    var r := Process(a, i, words, delimiter, false);
    DefinitionKept(a, i, words, delimiter, false);
    LookedLater(args, k + 1, words[i], delimiter);
    LookedLater(args, k + 1, r.words[i], delimiter);
    if a.kind.SwitchArg? {
      SwitchLook(a, i, words, delimiter);
    } else {
      ValueLook(a, i, words, delimiter);
    }
    var look := Looked(args, k, words[i], delimiter);
    LeftStep(args, k, r.arg, Own(args, k, words[i], delimiter), TextFor(look.text, words, i));
  }

  /** The inner loop from argument `k` on, against the definitions. */
  lemma {:induction false} LookedExact(line: Line, s: State, k: nat)
    requires k <= |s.args| && s.i < |s.words| && !s.ignoreRest
    requires TryFrom(line, s, k).Tried?
    ensures var s' := TryFrom(line, s, k).state;
      var look := Looked(s.args, k, s.words[s.i], line.delimiter);
      && (WordReported(line, s, k) <==> !look.loses)
      && TryFrom(line, s, k).matched == look.taker.Some?
      && s'.i == s.i + (if look.takes then 1 else 0) && s'.ignoreRest == look.ignores
      && AllLeft(s.args, s'.args, look, TextFor(look.text, s.words, s.i))
    decreases |s.args| - k
  {
    hide AllLeft, TextFor;
    if k == |s.args| {
      NothingLeft(s.args, TextFor("", s.words, s.i));
    } else {
      TryStep(line, s, k);
      hide TryFrom, Process, Check, Looked, Own, SameDefinition, Elsewhere, IsRequired;
      var a := s.args[k];
      var r := Process(a, s.i, s.words, line.delimiter, false);
      OwnLook(s.args, k, s.i, s.words, line.delimiter);
      DefinitionKept(a, s.i, s.words, line.delimiter, false);
      ProcessUnignored(a, s.i, s.words, line.delimiter, s.ignoreRest);
      var s1 := State(s.args[k := r.arg], r.words, r.i, s.count, r.ignoreRest);
      var look := Looked(s.args, k, s.words[s.i], line.delimiter);
      var one := Own(s.args, k, s.words[s.i], line.delimiter);
      var text := TextFor(look.text, s.words, s.i);
      if r.matched {
        CheckLeft(s1.args, line.groups, k, text);
        LeftJoin(s.args, s1.args, TryFrom(line, s, k).state.args, one, NOTHING, look, text);
      } else if r.ignoreRest {
        IgnoredTry(line, s1, k + 1);
        SameLook(s.args, s1.args, one, look, text);
      } else {
        LookedExact(line, s1, k + 1);
        LookedNext(s.args, k, r.arg, r.words[s.i], line.delimiter);
        var later := Looked(s1.args, k + 1, s1.words[s.i], line.delimiter);
        LookedLater(s1.args, k + 1, s1.words[s.i], line.delimiter);
        SameText(later.text, s.words, s1.words, s.i);
        LeftJoin(s.args, s1.args, TryFrom(line, s, k).state.args, one, later, look, text);
      }
    }
  }

  /** The first turn of the inner loop. */
  lemma TryStep(line: Line, s: State, k: nat)
    requires k < |s.args| && s.i < |s.words| && TryFrom(line, s, k).Tried?
    ensures var r := Process(s.args[k], s.i, s.words, line.delimiter, s.ignoreRest);
      && r.Done?
      && var s1 := State(s.args[k := r.arg], r.words, r.i, s.count, r.ignoreRest);
        if r.matched then
          var c := Check(s1.args, line.groups, k);
          c.Count? && TryFrom(line, s, k) == Tried(true, s1.(args := c.args, count := s1.count + c.n))
        else TryFrom(line, s, k) == TryFrom(line, s1, k + 1)
  {
    hide Process, Check;
  }

  lemma ProcessUnignored(a: Arg, i: nat, words: seq<string>, delimiter: char, ignoreRest: bool)
    requires i < |words| && !ignoreRest
    ensures Process(a, i, words, delimiter, ignoreRest) == Process(a, i, words, delimiter, false)
  {
  }

  lemma SameLook(args: seq<Arg>, args': seq<Arg>, one: Look, look: Look, text: string)
    requires AllLeft(args, args', one, text) && one.taker == look.taker && one.sets == look.sets
    ensures AllLeft(args, args', look, text)
  {
    hide Left;
    forall j | 0 <= j < |args| ensures Left(args[j], args'[j], Takes(look, args[j], j), j in look.sets, text) {
      assert Left(args[j], args'[j], Takes(one, args[j], j), j in one.sets, text);
    }
  }

  lemma SameText(own: string, words: seq<string>, words': seq<string>, i: nat)
    requires |words'| == |words| && forall j | 0 <= j < |words| && j != i :: words'[j] == words[j]
    ensures TextFor(own, words', i) == TextFor(own, words, i)
  {
  }

  lemma LookedNext(args: seq<Arg>, k: nat, arg: Arg, word: string, delimiter: char)
    requires k < |args|
    ensures Looked(args[k := arg], k + 1, word, delimiter) == Looked(args, k + 1, word, delimiter)
  {
    LookedSame(args, args[k := arg], k + 1, word, delimiter);
  }

  /** Only the word at the position of `s` differs. */
  ghost predicate Elsewhere(s: State, s': State) {
    |s'.words| == |s.words| && forall j | 0 <= j < |s.words| && j != s.i :: s'.words[j] == s.words[j]
  }

  lemma DefinitionKept(a: Arg, i: nat, words: seq<string>, delimiter: char, ignoreRest: bool)
    requires i < |words| && Process(a, i, words, delimiter, ignoreRest).Done?
    ensures var r := Process(a, i, words, delimiter, ignoreRest);
      && SameDefinition(a, r.arg) && (!r.matched ==> r.i == i)
      && |r.words| == |words| && forall j | 0 <= j < |words| && j != i :: r.words[j] == words[j]
  {
    hide ProcessSwitch, ProcessValue, Process;
    ProcessMeaning(a, i, words, delimiter, ignoreRest);
    WordsKept(a, i, words, delimiter, ignoreRest);
  }

  lemma WordsKept(a: Arg, i: nat, words: seq<string>, delimiter: char, ignoreRest: bool)
    requires i < |words| && Process(a, i, words, delimiter, ignoreRest).Done?
    ensures var r := Process(a, i, words, delimiter, ignoreRest);
      && (!r.matched ==> r.i == i)
      && |r.words| == |words| && forall j | 0 <= j < |words| && j != i :: r.words[j] == words[j]
  {
    hide ProcessSwitch, ProcessValue, CombinedMatch, ArgMatches, HasBlanks, TrimFlag, AllBlank;
    if !ignoreRest {
      if a.kind.SwitchArg? {
        SwitchLook(a, i, words, delimiter);
      } else {
        ValueLook(a, i, words, delimiter);
      }
    }
  }

  lemma CheckKept(args: seq<Arg>, groups: Groups, k: nat)
    requires k < |args| && Check(args, groups, k).Count?
    ensures SameDefinitions(args, Check(args, groups, k).args)
  {
  }

  /** Counting a match excludes arguments that were not set, and changes no value. */
  lemma CheckLeft(args: seq<Arg>, groups: Groups, k: nat, text: string)
    requires k < |args| && Check(args, groups, k).Count?
    ensures AllLeft(args, Check(args, groups, k).args, NOTHING, text)
  {
    var args' := Check(args, groups, k).args;
    var g := GroupOf(groups, k);
    if g < |groups| {
      assert !OtherIsSet(args, groups[g], k);
    }
    forall j | 0 <= j < |args| ensures Left(args[j], args'[j], false, false, text) {
    }
  }

  /** A run that goes through every word sets no switch of a group unreported exactly when the words and the
      definitions say so. */
  lemma {:induction false} RunLooked(line: Line, s: State)
    requires s.i <= |s.words| && LoopFrom(line, s).Finishes?
    ensures RunReported(line, s) <==> NoneLost(s.args, s.words, s.i, line.delimiter, s.ignoreRest)
    decreases |s.words| - s.i
  {
    hide TryFrom, WordReported, Looked;
    if s.i < |s.words| {
      var s' := TryFrom(line, s, 0).state;
      var next := s'.(i := s'.i + 1);
      RunLooked(line, next);
      if s.ignoreRest {
        IgnoredTry(line, s, 0);
      } else {
        LookedExact(line, s, 0);
        TryDefinitions(line, s, 0);
        NoneLostSame(s.args, s'.args, s.words, s'.words, next.i, line.delimiter, s'.ignoreRest);
      }
    }
  }

  // The characters of one word.

  /** Several switches may be combined in such a word. */
  predicate IsCombined(word: string, delimiter: char) {
    word != "" && word[0] == '-' && !("--" <= word) && delimiter !in word
  }

  /** `c` in a combined word is for the switch `a`. */
  predicate SwitchChar(a: Arg, c: char) {
    a.kind.SwitchArg? && a.flag != "" && a.flag[0] == c && c != '-'
  }

  ghost predicate CharIn(a: Arg, word: string) {
    exists p | 1 <= p < |word| :: SwitchChar(a, word[p])
  }

  /** `c` is for one of the first `n` arguments. */
  predicate Heard(args: seq<Arg>, n: nat, c: char)
    requires n <= |args|
  {
    exists j | 0 <= j < n :: SwitchChar(args[j], c)
  }

  /** The word sets the required switch `k`, and has a character left that is not for a switch listed up to `k`. */
  ghost predicate LosesAt(args: seq<Arg>, word: string, k: nat) {
    && k < |args| && args[k].required && CharIn(args[k], word)
    && (forall j | 0 <= j < k && Ignores(args[j]) :: !CharIn(args[j], word))
    && exists p | 1 <= p < |word| :: word[p] != BLANK && !Heard(args, k + 1, word[p])
  }

  /** Flags are one character, as the constructor demands, and differ, as `add` demands; none of them is the
      placeholder, and neither is the delimiter. */
  ghost predicate Usual(args: seq<Arg>, delimiter: char) {
    && delimiter != BLANK
    && (forall k | 0 <= k < |args| :: |args[k].flag| <= 1 && args[k].flag != [BLANK])
    && (forall j, k | 0 <= j < k < |args| && args[j].flag != "" :: args[j].flag != args[k].flag)
  }

  /** No switch is named twice; such a word is refused. */
  ghost predicate NamedOnce(args: seq<Arg>, word: string) {
    forall p, q | 1 <= p < q < |word| && word[p] == word[q] :: !Heard(args, |args|, word[p])
  }

  /** The word as the first `n` arguments leave it. */
  function Blanked(args: seq<Arg>, n: nat, word: string): (r: string)
    requires n <= |args|
    ensures |r| == |word|
  {
    seq(|word|, p requires 0 <= p < |word| => if p >= 1 && Heard(args, n, word[p]) then BLANK else word[p])
  }

  lemma BlankedSilent(args: seq<Arg>, k: nat, word: string)
    requires k < |args| && !CharIn(args[k], word)
    ensures Blanked(args, k + 1, word) == Blanked(args, k, word)
  {
    forall p | 1 <= p < |word| ensures Heard(args, k + 1, word[p]) <==> Heard(args, k, word[p]) {
      assert !SwitchChar(args[k], word[p]);
    }
  }

  lemma NotBefore(args: seq<Arg>, k: nat, c: char, delimiter: char)
    requires Usual(args, delimiter) && k < |args| && SwitchChar(args[k], c)
    ensures !Heard(args, k, c)
  {
    assert args[k].flag == [c];
    forall j | 0 <= j < k ensures !SwitchChar(args[j], c) {
      assert args[j].flag == "" || args[j].flag == [args[j].flag[0]];
    }
  }

  lemma IndexOfIs(s: string, c: char, i: nat, at: nat)
    requires i <= at <= |s| && (at < |s| ==> s[at] == c) && forall p | i <= p < at :: s[p] != c
    ensures IndexOf(s, c, i) == at
    decreases at - i
  {
    if i < at {
      IndexOfIs(s, c, i + 1, at);
    }
  }

  lemma BlankedKeeps(args: seq<Arg>, k: nat, word: string, delimiter: char)
    requires Usual(args, delimiter) && IsCombined(word, delimiter) && k <= |args|
    ensures IsCombined(Blanked(args, k, word), delimiter)
  {
    var w := Blanked(args, k, word);
    if |word| >= 2 {
      assert word[..2] == ['-', word[1]];
      assert w[1] != '-';
    }
  }

  /** A switch blanks its character and no other. */
  lemma BlankedMatch(args: seq<Arg>, k: nat, word: string, delimiter: char)
    requires Usual(args, delimiter) && NamedOnce(args, word) && IsCombined(word, delimiter)
    requires k < |args| && args[k].kind.SwitchArg?
    ensures CombinedMatch(args[k], Blanked(args, k, word), delimiter)
      == if CharIn(args[k], word) then Some(Blanked(args, k + 1, word)) else None
  {
    var a, w := args[k], Blanked(args, k, word);
    BlankedKeeps(args, k, word, delimiter);
    if CharIn(a, word) {
      var at :| 1 <= at < |word| && SwitchChar(a, word[at]);
      NotBefore(args, k, word[at], delimiter);
      assert Heard(args, |args|, word[at]);
      forall p | 1 <= p < |word| && p != at ensures w[p] != word[at] && !SwitchChar(a, word[p]) {
      }
      IndexOfIs(w, a.flag[0], 1, at);
      assert w[at := BLANK] == Blanked(args, k + 1, word);
    } else if a.flag != "" && a.flag[0] != '-' && |w| >= 1 {
      forall p | 1 <= p < |w| ensures w[p] != a.flag[0] {
        assert !SwitchChar(a, word[p]);
      }
      IndexOfIs(w, a.flag[0], 1, |w|);
    }
  }

  /** No argument takes such a word as a whole, blanked or not. */
  lemma NotWhole(a: Arg, word: string, delimiter: char)
    requires IsCombined(word, delimiter) && |word| > 2 && |a.flag| <= 1
    ensures !ArgMatches(a, word) && TrimFlag(word, delimiter) == (word, "")
  {
    assert word[..2] == ['-', word[1]];
    assert "--" <= "--" + a.name;
    IndexOfIs(word, delimiter, 0, |word|);
  }

  lemma AllBlanked(args: seq<Arg>, k: nat, word: string)
    requires k < |args|
    ensures AllBlank(Blanked(args, k + 1, word)) <==>
      forall p | 1 <= p < |word| :: word[p] == BLANK || Heard(args, k + 1, word[p])
  {
    var w := Blanked(args, k + 1, word);
    forall p | 1 <= p < |word| ensures w[p] == BLANK <==> word[p] == BLANK || Heard(args, k + 1, word[p]) {
    }
  }

  lemma HeardMore(args: seq<Arg>, m: nat, n: nat, c: char)
    requires m <= n <= |args| && Heard(args, m, c)
    ensures Heard(args, n, c)
  {
  }

  ghost predicate LosesLater(args: seq<Arg>, word: string, k: nat) {
    exists j: nat | k <= j :: LosesAt(args, word, j)
  }

  /** When everything is blanked, or a switch that ignores the rest was heard, nothing is lost from there on. */
  lemma NothingLater(args: seq<Arg>, word: string, k: nat)
    requires k < |args|
    requires (forall p | 1 <= p < |word| :: word[p] == BLANK || Heard(args, k + 1, word[p])) ||
      (Ignores(args[k]) && CharIn(args[k], word) && !args[k].required)
    ensures !LosesLater(args, word, k)
  {
    forall j: nat | k <= j ensures !LosesAt(args, word, j) {
      if j < |args| && forall p | 1 <= p < |word| :: word[p] == BLANK || Heard(args, k + 1, word[p]) {
        forall p | 1 <= p < |word| ensures word[p] == BLANK || Heard(args, j + 1, word[p]) {
          if word[p] != BLANK {
            HeardMore(args, k + 1, j + 1, word[p]);
          }
        }
      }
    }
  }

  lemma LosesSplit(args: seq<Arg>, word: string, k: nat)
    ensures LosesLater(args, word, k) <==> LosesAt(args, word, k) || LosesLater(args, word, k + 1)
  {
  }

  lemma {:induction false} LosesFrom(args: seq<Arg>, k: nat, word: string, delimiter: char)
    requires Usual(args, delimiter) && NamedOnce(args, word) && IsCombined(word, delimiter) && |word| > 2
    requires k <= |args| && forall j | 0 <= j < k && Ignores(args[j]) :: !CharIn(args[j], word)
    ensures Looked(args, k, Blanked(args, k, word), delimiter).loses <==> LosesLater(args, word, k)
    decreases |args| - k
  {
    hide AllBlank, CombinedMatch, ArgMatches, TrimFlag, HasBlanks, Blanked, IsCombined, NamedOnce, Heard, Ignores,
         CharIn;
    if k < |args| {
      var a, w := args[k], Blanked(args, k, word);
      BlankedKeeps(args, k, word, delimiter);
      NotWhole(a, w, delimiter);
      LosesSplit(args, word, k);
      if !CharIn(a, word) {
        BlankedSilent(args, k, word);
        if a.kind.SwitchArg? {
          BlankedMatch(args, k, word, delimiter);
        }
        LosesFrom(args, k + 1, word, delimiter);
      } else {
        IsSwitch(a, word);
        BlankedMatch(args, k, word, delimiter);
        AllBlanked(args, k, word);
        if AllBlank(Blanked(args, k + 1, word)) || (Ignores(a) && !a.required) {
          NothingLater(args, word, k);
        } else if !a.required {
          LosesFrom(args, k + 1, word, delimiter);
        }
      }
    }
  }

  lemma IsSwitch(a: Arg, word: string)
    requires CharIn(a, word)
    ensures a.kind.SwitchArg?
  {
  }

  lemma SingleMatch(a: Arg, word: string, delimiter: char)
    requires Single(word, delimiter)
    ensures var rest := CombinedMatch(a, word, delimiter); rest.Some? ==> AllBlank(rest.value)
  {
    hide IndexOf;
  }

  lemma {:induction false} NeverCombined(args: seq<Arg>, k: nat, word: string, delimiter: char)
    requires k <= |args| && Single(word, delimiter)
    ensures !Looked(args, k, word, delimiter).loses
    decreases |args| - k
  {
    hide ArgMatches, TrimFlag, HasBlanks, CombinedMatch, AllBlank, Single;
    if k < |args| {
      NeverCombined(args, k + 1, word, delimiter);
      SingleMatch(args[k], word, delimiter);
    }
  }

  /** A word that names no switch twice loses a switch exactly when it is a word of several, and names a required
      switch together with a character that is not for a switch listed up to that one; and no switch listed before
      it that it names makes the parser ignore the rest. */
  lemma LosesExactly(args: seq<Arg>, word: string, delimiter: char)
    requires Usual(args, delimiter) && NamedOnce(args, word)
    ensures Looked(args, 0, word, delimiter).loses <==>
      IsCombined(word, delimiter) && exists k: nat :: LosesAt(args, word, k)
  {
    if Single(word, delimiter) {
      NeverCombined(args, 0, word, delimiter);
      if IsCombined(word, delimiter) {
        ShortWord(args, word);
      }
    } else {
      assert Blanked(args, 0, word) == word;
      LosesFrom(args, 0, word, delimiter);
    }
  }

  lemma ShortWord(args: seq<Arg>, word: string)
    requires |word| <= 2
    ensures forall k: nat :: !LosesAt(args, word, k)
  {
    forall k: nat ensures !LosesAt(args, word, k) {
      if k < |args| && CharIn(args[k], word) {
        assert Heard(args, k + 1, word[1]);
      }
    }
  }
}
