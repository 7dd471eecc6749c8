/** What a parse of TCLAP leaves in the arguments: their values and switches, from the words and the definitions
    alone. */
module TclapValues {
  import opened Tclap
  import opened TclapRequired
  import opened TclapLooks
  import opened Wrappers

  /** The texts that the words from `i` on give to the argument at `k`: for each word that is for it, what stands after
      the delimiter in that word, or else the next word. */
  function Texts(args: seq<Arg>, words: seq<string>, i: nat, delimiter: char, ignoreRest: bool, k: nat): seq<string>
    requires k < |args|
    decreases |words| - i
  {
    if ignoreRest || i >= |words| then []
    else
      var look := Looked(args, 0, words[i], delimiter);
      var rest := Texts(args, words, i + 1 + (if look.takes then 1 else 0), delimiter, look.ignores, k);
      if look.taker != Some(k) || args[k].kind.SwitchArg? then rest
      else if !look.takes then [look.text] + rest
      else if i + 1 < |words| then [words[i + 1]] + rest
      else [""] + rest
  }

  /** Some word that is looked at, from `i` on, sets the switch at `k`. */
  predicate Flips(args: seq<Arg>, words: seq<string>, i: nat, delimiter: char, ignoreRest: bool, k: nat)
    decreases |words| - i
  {
    !ignoreRest && i < |words| &&
    var look := Looked(args, 0, words[i], delimiter);
    (k in look.sets || Flips(args, words, i + 1 + (if look.takes then 1 else 0), delimiter, look.ignores, k))
  }

  lemma {:induction false} TextsSame(args: seq<Arg>, args': seq<Arg>, words: seq<string>, words': seq<string>, i: nat,
                                     delimiter: char, ignoreRest: bool, k: nat)
    requires SameDefinitions(args, args') && |words| == |words'| && k < |args|
    requires forall j | i <= j < |words| :: words[j] == words'[j]
    ensures Texts(args, words, i, delimiter, ignoreRest, k) == Texts(args', words', i, delimiter, ignoreRest, k)
    ensures Flips(args, words, i, delimiter, ignoreRest, k) <==> Flips(args', words', i, delimiter, ignoreRest, k)
    decreases |words| - i
  {
    hide Looked;
    assert SameDefinition(args[k], args'[k]);
    if i < |words| {
      LookedSame(args, args', 0, words[i], delimiter);
      var look := Looked(args, 0, words[i], delimiter);
      TextsSame(args, args', words, words', i + 1 + (if look.takes then 1 else 0), delimiter, look.ignores, k);
    }
  }

  /** What a run leaves of an argument that gets the texts, and is flipped or not. */
  ghost predicate Leaves(a: Arg, a': Arg, texts: seq<string>, flips: bool) {
    && SameDefinition(a, a')
    && a'.on == (a.on != flips)
    && a'.values == (if a.kind.MultiArg? then a.values + texts else if texts == [] then a.values else texts)
    && (!a.kind.MultiArg? ==> |texts| <= 1)
    && (!a.kind.MultiArg? && (texts != [] || flips) ==> !a.alreadySet && (!a.xorSet ==> IsSet(a')))
    && (a.kind.SwitchArg? ==> texts == [])
    && (!a.kind.SwitchArg? ==> !flips)
    && (IsSet(a) ==> IsSet(a'))
    && (IsSet(a') ==> IsSet(a) || texts != [] || flips)
  }

  lemma LeavesNothing(a: Arg)
    ensures Leaves(a, a, [], false)
  {
    assert a.values + [] == a.values;
  }

  lemma LeavesJoin(a: Arg, a1: Arg, a': Arg, takes: bool, flips1: bool, text: string, texts: seq<string>, flips: bool)
    requires Left(a, a1, takes, flips1, text) && Leaves(a1, a', texts, flips)
    requires (takes ==> !a.kind.SwitchArg?) && (flips1 ==> a.kind.SwitchArg?)
    requires a.xorSet ==> a.alreadySet
    ensures Leaves(a, a', if takes then [text] + texts else texts, flips1 || flips)
    ensures a1.xorSet ==> a1.alreadySet
  {
    if takes && a.kind.MultiArg? {
      assert a.values + [text] + texts == a.values + ([text] + texts);
    }
    assert takes && texts == [] ==> [text] + texts == [text];
  }

  /** A run that goes through every word leaves each argument with the texts of its words and flipped by its words. */
  lemma {:induction false} RunLeaves(line: Line, s: State, k: nat)
    requires s.i <= |s.words| && LoopFrom(line, s).Finishes? && k < |s.args|
    requires s.args[k].xorSet ==> s.args[k].alreadySet
    ensures var args' := LoopFrom(line, s).state.args;
      && |args'| == |s.args|
      && Leaves(s.args[k], args'[k], Texts(s.args, s.words, s.i, line.delimiter, s.ignoreRest, k),
                Flips(s.args, s.words, s.i, line.delimiter, s.ignoreRest, k))
    decreases |s.words| - s.i
  {
    hide TryFrom, WordReported, Looked, Leaves, Left;
    if s.i == |s.words| || s.ignoreRest {
      LeavesNothing(s.args[k]);
      if s.i < |s.words| {
        IgnoredTry(line, s, 0);
        RunLeaves(line, s.(i := s.i + 1), k);
      }
    } else {
      var s' := TryFrom(line, s, 0).state;
      var next := s'.(i := s'.i + 1);
      var look := Looked(s.args, 0, s.words[s.i], line.delimiter);
      LookedExact(line, s, 0);
      LookedLater(s.args, 0, s.words[s.i], line.delimiter);
      TryDefinitions(line, s, 0);
      TextsSame(s.args, s'.args, s.words, s'.words, next.i, line.delimiter, s'.ignoreRest, k);
      var text := TextFor(look.text, s.words, s.i);
      assert Left(s.args[k], s'.args[k], Takes(look, s.args[k], k), k in look.sets, text);
      WellSet(s.args[k], s'.args[k], Takes(look, s.args[k], k), k in look.sets, text);
      RunLeaves(line, next, k);
      LeavesJoin(s.args[k], s'.args[k], LoopFrom(line, s).state.args[k], Takes(look, s.args[k], k), k in look.sets,
                 text,
                 Texts(s.args, s.words, next.i, line.delimiter, look.ignores, k),
                 Flips(s.args, s.words, next.i, line.delimiter, look.ignores, k));
    }
  }

  lemma WellSet(a: Arg, a': Arg, takes: bool, flips: bool, text: string)
    requires Left(a, a', takes, flips, text) && (a.xorSet ==> a.alreadySet)
    ensures a'.xorSet ==> a'.alreadySet
  {
  }

  // Which words the parser gets past.

  ghost predicate MayFlip(a: Arg) {
    !a.alreadySet && !a.xorSet && !a.visitor.ExitVisitor?
  }

  ghost predicate MayTake(a: Arg, text: string) {
    (a.kind.ValueArg? ==> !a.alreadySet) && a.accepts(text) && !a.visitor.ExitVisitor?
  }

  /** No other member of the group of `k` is set, or is set by the word. */
  ghost predicate NoRival(args: seq<Arg>, groups: Groups, k: nat, sets: set<nat>) {
    var g := GroupOf(groups, k);
    g < |groups| ==> forall j | 0 <= j < |args| && j in groups[g] && j != k :: !IsSet(args[j]) && j !in sets
  }

  /** The word at `i` throws nothing: it names no switch twice, the switches it names can still be set; the
      argument it is for can take the text, which stands in the next word only if blanks delimit; and no rival
      was chosen. */
  ghost predicate Passes(line: Line, args: seq<Arg>, words: seq<string>, i: nat, look: Look) {
    && !look.twice
    && (forall j | j in look.sets :: j < |args| && MayFlip(args[j]))
    && (look.taker.Some? ==>
          && look.taker.value < |args|
          && (!args[look.taker.value].kind.SwitchArg? ==>
                && (look.takes ==> line.delimiter == ' ' && i + 1 < |words|)
                && MayTake(args[look.taker.value], TextFor(look.text, words, i)))
          && NoRival(args, line.groups, look.taker.value, look.sets))
  }

  lemma SwitchDone(a: Arg, i: nat, words: seq<string>, delimiter: char)
    requires i < |words| && a.kind.SwitchArg?
    ensures var m := CombinedMatch(a, words[i], delimiter);
      ProcessSwitch(a, i, words, delimiter).Done? <==>
        if ArgMatches(a, words[i]) then MayFlip(a)
        else m.None? || (CombinedMatch(a, m.value, delimiter).None? && MayFlip(a))
  {
    hide ArgMatches, CombinedMatch, AllBlank;
  }

  lemma ValueDone(a: Arg, i: nat, words: seq<string>, delimiter: char)
    requires i < |words| && !a.kind.SwitchArg?
    ensures var (flag, value) := TrimFlag(words[i], delimiter);
      ProcessValue(a, i, words, delimiter).Done? <==>
        HasBlanks(words[i]) || !ArgMatches(a, flag) ||
        ((value == "" ==> delimiter == ' ' && i + 1 < |words|) && MayTake(a, TextFor(value, words, i)))
  {
    hide ArgMatches, TrimFlag, HasBlanks;
  }

  lemma CheckDone(args: seq<Arg>, groups: Groups, k: nat)
    requires k < |args|
    ensures Check(args, groups, k).Count? <==> NoRival(args, groups, k, {})
  {
  }

  /** The look of the argument `k` is done; the others look on. */
  lemma PassesOn(line: Line, args: seq<Arg>, k: nat, arg: Arg, words: seq<string>, words': seq<string>, i: nat,
                 look: Look, later: Look)
    requires k < |args| && |words'| == |words| && forall j | 0 <= j < |words| && j != i :: words'[j] == words[j]
    requires look.taker == later.taker && look.takes == later.takes && look.text == later.text
    requires look.twice == later.twice && (later.taker.Some? ==> k < later.taker.value)
    requires forall j | j in later.sets :: k < j
    requires if k in look.sets then Flipped(args[k], arg) && !args[k].visitor.ExitVisitor? else arg == args[k]
    requires forall j | j != k :: j in look.sets <==> j in later.sets
    ensures Passes(line, args, words, i, look) <==> Passes(line, args[k := arg], words', i, later)
  {
    hide GroupOf, TextFor;
    var args' := args[k := arg];
    SameText(look.text, words, words', i);
    assert (forall j | j in look.sets :: j < |args| && MayFlip(args[j])) <==>
           (forall j | j in later.sets :: j < |args'| && MayFlip(args'[j]));
    if later.taker.Some? && later.taker.value < |args| {
      var t := later.taker.value;
      assert args'[t] == args[t];
      assert forall j | 0 <= j < |args| ::
          (!IsSet(args[j]) && j !in look.sets <==> !IsSet(args'[j]) && j !in later.sets);
      assert NoRival(args, line.groups, t, look.sets) <==> NoRival(args', line.groups, t, later.sets);
    }
  }

  /** One argument looks at a word without throwing exactly when what the word does to it is allowed. */
  lemma OwnPasses(args: seq<Arg>, k: nat, i: nat, words: seq<string>, delimiter: char)
    requires k < |args| && i < |words|
    ensures var a, look := args[k], Looked(args, k, words[i], delimiter);
      var m := CombinedMatch(a, words[i], delimiter);
      Process(a, i, words, delimiter, false).Done? <==>
        if a.kind.SwitchArg? then
          k in look.sets ==>
            MayFlip(a) && (!ArgMatches(a, words[i]) ==> m.Some? && CombinedMatch(a, m.value, delimiter).None?)
        else look.taker == Some(k) ==>
          (look.takes ==> delimiter == ' ' && i + 1 < |words|) && MayTake(a, TextFor(look.text, words, i))
  {
    hide CombinedMatch, ArgMatches, AllBlank, HasBlanks, TrimFlag, TextFor, MayFlip, MayTake, ProcessSwitch,
         ProcessValue;
    LookedLater(args, k + 1, words[i], delimiter);
    if args[k].kind.SwitchArg? {
      SwitchDone(args[k], i, words, delimiter);
      var m := CombinedMatch(args[k], words[i], delimiter);
      if m.Some? {
        LookedLater(args, k + 1, m.value, delimiter);
      }
    } else {
      ValueDone(args[k], i, words, delimiter);
    }
  }

  /** An argument that throws at a word. */
  lemma OwnRefused(line: Line, args: seq<Arg>, k: nat, i: nat, words: seq<string>)
    requires k < |args| && i < |words| && !Process(args[k], i, words, line.delimiter, false).Done?
    ensures !Passes(line, args, words, i, Looked(args, k, words[i], line.delimiter))
  {
    hide CombinedMatch, ArgMatches, AllBlank, HasBlanks, TrimFlag, TextFor, MayFlip, MayTake, Process, NoRival;
    OwnPasses(args, k, i, words, line.delimiter);
    LookedLater(args, k + 1, words[i], line.delimiter);
  }

  /** What an argument that does not throw leaves of the look. */
  lemma OwnTwice(args: seq<Arg>, k: nat, i: nat, words: seq<string>, delimiter: char)
    requires k < |args| && i < |words| && Process(args[k], i, words, delimiter, false).Done?
    ensures var r, look := Process(args[k], i, words, delimiter, false), Looked(args, k, words[i], delimiter);
      && (look.twice <==> !r.matched && !r.ignoreRest && Looked(args, k + 1, r.words[i], delimiter).twice)
      && (k in look.sets ==> MayFlip(args[k]) && Flipped(args[k], r.arg))
      && (k !in look.sets && !r.matched ==> r.arg == args[k])
  {
    hide CombinedMatch, ArgMatches, AllBlank, HasBlanks, TrimFlag, TextFor, MayFlip, MayTake, ProcessSwitch,
         ProcessValue;
    OwnPasses(args, k, i, words, delimiter);
    LookedLater(args, k + 1, words[i], delimiter);
    if args[k].kind.SwitchArg? {
      SwitchLook(args[k], i, words, delimiter);
    } else {
      ValueLook(args[k], i, words, delimiter);
    }
  }

  /** An argument that matches, or after which the rest is ignored, lets no other look at the word. */
  lemma OwnStops(line: Line, args: seq<Arg>, k: nat, i: nat, words: seq<string>)
    requires k < |args| && i < |words| && Process(args[k], i, words, line.delimiter, false).Done?
    ensures var r, look := Process(args[k], i, words, line.delimiter, false), Looked(args, k, words[i], line.delimiter);
      if r.matched then
        Passes(line, args, words, i, look) <==> Check(args[k := r.arg], line.groups, k).Count?
      else r.ignoreRest ==> Passes(line, args, words, i, look)
  {
    OwnLook(args, k, i, words, line.delimiter);
    OwnTwice(args, k, i, words, line.delimiter);
    OwnPasses(args, k, i, words, line.delimiter);
    hide Process, Looked, MayFlip, MayTake, TextFor, AllLeft, NoRival, Check, Flipped;
    var r := Process(args[k], i, words, line.delimiter, false);
    CheckDone(args[k := r.arg], line.groups, k);
    NoRivalKept(args, line.groups, k, r.arg, Looked(args, k, words[i], line.delimiter).sets);
  }

  lemma NoRivalKept(args: seq<Arg>, groups: Groups, k: nat, arg: Arg, sets: set<nat>)
    requires k < |args|
    ensures sets <= {k} ==> (NoRival(args, groups, k, sets) <==> NoRival(args[k := arg], groups, k, {}))
  {
    hide IsSet, GroupOf;
  }

  /** The first turn of the inner loop, whether it throws or not. */
  lemma TurnDone(line: Line, s: State, k: nat)
    requires k < |s.args| && s.i < |s.words|
    ensures var r := Process(s.args[k], s.i, s.words, line.delimiter, s.ignoreRest);
      TryFrom(line, s, k).Tried? <==>
        r.Done? &&
        var s1 := State(s.args[k := r.arg], r.words, r.i, s.count, r.ignoreRest);
        if r.matched then Check(s1.args, line.groups, k).Count? else TryFrom(line, s1, k + 1).Tried?
  {
    hide Process, Check;
  }

  /** A word throws nothing exactly when the words and the definitions, and which arguments are set, say so. */
  lemma {:induction false} TriedExactly(line: Line, s: State, k: nat)
    requires k <= |s.args| && s.i < |s.words| && !s.ignoreRest
    ensures TryFrom(line, s, k).Tried? <==>
      Passes(line, s.args, s.words, s.i, Looked(s.args, k, s.words[s.i], line.delimiter))
    decreases |s.args| - k
  {
    if k < |s.args| {
      TurnDone(line, s, k);
      ProcessUnignored(s.args[k], s.i, s.words, line.delimiter, s.ignoreRest);
      hide TryFrom, Process, Check, Looked, Own, SameDefinition, AllLeft, NoRival, TextFor;
      var r := Process(s.args[k], s.i, s.words, line.delimiter, false);
      var look := Looked(s.args, k, s.words[s.i], line.delimiter);
      if !r.Done? {
        OwnRefused(line, s.args, k, s.i, s.words);
      } else {
        OwnStops(line, s.args, k, s.i, s.words);
        DefinitionKept(s.args[k], s.i, s.words, line.delimiter, false);
        var s1 := State(s.args[k := r.arg], r.words, r.i, s.count, r.ignoreRest);
        if !r.matched {
          if r.ignoreRest {
            IgnoredTry(line, s1, k + 1);
          } else {
            TriedExactly(line, s1, k + 1);
            OwnPassesOn(line, s.args, k, s.i, s.words);
          }
        }
      }
    }
  }

  /** An argument that does not match leaves the word to the others. */
  lemma OwnPassesOn(line: Line, args: seq<Arg>, k: nat, i: nat, words: seq<string>)
    requires k < |args| && i < |words|
    requires var r := Process(args[k], i, words, line.delimiter, false); r.Done? && !r.matched && !r.ignoreRest
    ensures var r := Process(args[k], i, words, line.delimiter, false);
      var args' := args[k := r.arg];
      && |r.words| == |words|
      && (Passes(line, args, words, i, Looked(args, k, words[i], line.delimiter)) <==>
          Passes(line, args', r.words, i, Looked(args', k + 1, r.words[i], line.delimiter)))
  {
    hide Passes, Process, Looked, AllLeft, SameDefinition, TextFor, Flipped;
    var r := Process(args[k], i, words, line.delimiter, false);
    OwnLook(args, k, i, words, line.delimiter);
    OwnTwice(args, k, i, words, line.delimiter);
    DefinitionKept(args[k], i, words, line.delimiter, false);
    LookedNext(args, k, r.arg, r.words[i], line.delimiter);
    LookedLater(args, k + 1, r.words[i], line.delimiter);
    PassesOn(line, args, k, r.arg, words, r.words, i, Looked(args, k, words[i], line.delimiter),
             Looked(args, k + 1, r.words[i], line.delimiter));
  }

  // How words are spelled.

  /** An argument is named by a dash and its flag, or by two dashes and its name. */
  lemma NamedBy(a: Arg, word: string)
    ensures ArgMatches(a, word) <==> (a.flag != "" && word == ['-'] + a.flag) || word == ['-', '-'] + a.name
  {
  }

  lemma {:induction false} NoDelimiterIn(t: string, rest: string, delimiter: char, i: nat)
    requires i <= |t| && delimiter !in t[i..] && (rest == "" || rest[0] == delimiter)
    ensures IndexOf(t + rest, delimiter, i) == |t|
    decreases |t| - i
  {
    if i < |t| {
      assert (t + rest)[i] == t[i] && t[i] in t[i..];
      assert t[i + 1..] == t[i..][1..];
      NoDelimiterIn(t, rest, delimiter, i + 1);
    }
  }

  /** A flag or name of two characters or more is divided from the text after the first delimiter; without a delimiter
      there is no text. */
  lemma Divided(t: string, text: string, delimiter: char)
    requires |t| >= 2 && delimiter !in t
    ensures TrimFlag(t + [delimiter] + text, delimiter) == (t, text) && TrimFlag(t, delimiter) == (t, "")
  {
    var all := t + [delimiter] + text;
    assert t[0..] == t && t + [] == t;
    NoDelimiterIn(t, [], delimiter, 0);
    NoDelimiterIn(t, [delimiter] + text, delimiter, 0);
    assert t + ([delimiter] + text) == all;
    assert all[..|t|] == t && all[|t| + 1..] == text;
  }

  /** A delimiter among the first two characters divides nothing. */
  lemma NotDivided(t: string, text: string, delimiter: char)
    requires |t| < 2 && delimiter !in t
    ensures TrimFlag(t + [delimiter] + text, delimiter) == (t + [delimiter] + text, "")
  {
    assert t[0..] == t;
    NoDelimiterIn(t, [delimiter] + text, delimiter, 0);
    assert t + ([delimiter] + text) == t + [delimiter] + text;
  }

  /** The word that gives an argument its text names the argument, and gives the text that stands after the
      delimiter. */
  lemma {:induction false} TakerNamed(args: seq<Arg>, k: nat, word: string, delimiter: char)
    requires k <= |args|
    ensures var look := Looked(args, k, word, delimiter);
      look.taker.Some? && look.taker.value < |args| && !args[look.taker.value].kind.SwitchArg? ==>
        && !HasBlanks(word) && ArgMatches(args[look.taker.value], TrimFlag(word, delimiter).0)
        && look.text == TrimFlag(word, delimiter).1
    decreases |args| - k
  {
    hide ArgMatches, AllBlank, HasBlanks, TrimFlag, CombinedMatch;
    if k < |args| {
      TakerNamed(args, k + 1, word, delimiter);
      var m := CombinedMatch(args[k], word, delimiter);
      if m.Some? {
        MatchBlanks(args[k], word, delimiter);
        TakerNamed(args, k + 1, m.value, delimiter);
      }
    }
  }

  lemma MatchBlanks(a: Arg, word: string, delimiter: char)
    requires CombinedMatch(a, word, delimiter).Some?
    ensures HasBlanks(CombinedMatch(a, word, delimiter).value)
  {
    var i := IndexOf(word, a.flag[0], 1);
    assert CombinedMatch(a, word, delimiter).value[i] == BLANK;
  }

  /** A word that is tried is refused exactly when no argument is for it, it sets no switch after which the rest is
      ignored, and it is not empty or a lone dash. */
  lemma WordRefused(line: Line, s: State)
    requires s.i < |s.words| && TryFrom(line, s, 0).Tried?
    ensures var (matched, s') := (TryFrom(line, s, 0).matched, TryFrom(line, s, 0).state);
      var look := Looked(s.args, 0, s.words[s.i], line.delimiter);
      (!matched && !EmptyCombined(s'.words[s'.i]) && !s'.ignoreRest <==>
         !s.ignoreRest && look.taker.None? && !look.ignores && !EmptyCombined(s.words[s.i]))
  {
    hide TryFrom, Looked, EmptyCombined, AllLeft;
    if s.ignoreRest {
      IgnoredTry(line, s, 0);
    } else {
      LookedExact(line, s, 0);
      if !TryFrom(line, s, 0).matched {
        WordLeft(line, s, 0);
        UnmatchedTakes(s.args, 0, s.words[s.i], line.delimiter);
      }
    }
  }

  lemma {:induction false} UnmatchedTakes(args: seq<Arg>, k: nat, word: string, delimiter: char)
    requires k <= |args|
    ensures Looked(args, k, word, delimiter).taker.None? ==> !Looked(args, k, word, delimiter).takes
    decreases |args| - k
  {
    hide ArgMatches, AllBlank, HasBlanks, TrimFlag, CombinedMatch;
    if k < |args| {
      UnmatchedTakes(args, k + 1, word, delimiter);
      var m := CombinedMatch(args[k], word, delimiter);
      if m.Some? {
        UnmatchedTakes(args, k + 1, m.value, delimiter);
      }
    }
  }

  /** A word that no argument is for has a character left, unless nothing was looked for in it. */
  lemma {:induction false} WordLeft(line: Line, s: State, k: nat)
    requires k <= |s.args| && s.i < |s.words| && TryFrom(line, s, k).Tried? && !TryFrom(line, s, k).matched
    ensures var s' := TryFrom(line, s, k).state;
      && s'.i == s.i && (s'.words[s.i] == s.words[s.i] || !EmptyCombined(s'.words[s.i]))
      && (EmptyCombined(s.words[s.i]) ==> EmptyCombined(s'.words[s.i]))
    decreases |s.args| - k
  {
    if k < |s.args| {
      hide Process, Check, EmptyCombined;
      TryStep(line, s, k);
      var r := Process(s.args[k], s.i, s.words, line.delimiter, s.ignoreRest);
      DefinitionKept(s.args[k], s.i, s.words, line.delimiter, s.ignoreRest);
      WordKeptOrLeft(s.args[k], s.i, s.words, line.delimiter, s.ignoreRest);
      WordLeft(line, State(s.args[k := r.arg], r.words, r.i, s.count, r.ignoreRest), k + 1);
    }
  }

  lemma MatchEmpty(a: Arg, word: string, delimiter: char)
    ensures var m := CombinedMatch(a, word, delimiter);
      m.Some? && EmptyCombined(word) ==> EmptyCombined(m.value)
  {
  }

  lemma WordKeptOrLeft(a: Arg, i: nat, words: seq<string>, delimiter: char, ignoreRest: bool)
    requires i < |words|
    requires Process(a, i, words, delimiter, ignoreRest).Done? && !Process(a, i, words, delimiter, ignoreRest).matched
    ensures var w := Process(a, i, words, delimiter, ignoreRest).words[i];
      (w == words[i] || !EmptyCombined(w)) && (EmptyCombined(words[i]) ==> EmptyCombined(w))
  {
    MatchEmpty(a, words[i], delimiter);
    hide CombinedMatch, ArgMatches, AllBlank, HasBlanks, TrimFlag, ProcessSwitch, ProcessValue;
    if !ignoreRest {
      if a.kind.SwitchArg? {
        SwitchLook(a, i, words, delimiter);
      } else {
        ValueLook(a, i, words, delimiter);
      }
    }
  }

  /** A word that no argument is for ends the parse, unless it may be ignored; any other word is passed. */
  lemma WordNeeded(line: Line, s: State)
    requires s.i < |s.words| && !s.ignoreRest && TryFrom(line, s, 0).Tried?
    ensures var look := Looked(s.args, 0, s.words[s.i], line.delimiter);
      var s' := TryFrom(line, s, 0).state;
      && s'.i == s.i + (if look.takes then 1 else 0)
      && LoopFrom(line, s) ==
        if look.taker.None? && !look.ignores && !EmptyCombined(s.words[s.i]) && !line.ignoreUnmatched
        then Fails(NoMatch)
        else LoopFrom(line, s'.(i := s'.i + 1))
  {
    hide TryFrom, Looked, EmptyCombined, AllLeft;
    WordRefused(line, s);
    LookedExact(line, s, 0);
  }

  /** Why an argument that takes a value refuses a word that names it: it may be set once, and by exclusion it is; with
      another delimiter than a blank the text must stand in the word; otherwise some text must; the text must be a value
      of its type; and its visitor may end the program. */
  lemma ValueRefusals(a: Arg, i: nat, words: seq<string>, delimiter: char)
    requires i < |words| && !a.kind.SwitchArg? && !HasBlanks(words[i]) && ArgMatches(a, TrimFlag(words[i], delimiter).0)
    ensures var r, own := Process(a, i, words, delimiter, false), TrimFlag(words[i], delimiter).1;
      var settable := a.kind.ValueArg? ==> !a.alreadySet;
      var hasText := own != "" || (delimiter == ' ' && i + 1 < |words|);
      && (r == Threw(AlreadySet) <==> !settable && !a.xorSet)
      && (r == Threw(MutuallyExclusive) <==> !settable && a.xorSet)
      && (r == Threw(NoDelimiter) <==> settable && own == "" && delimiter != ' ')
      && (r == Threw(MissingValue) <==> settable && own == "" && delimiter == ' ' && i + 1 == |words|)
      && (r == Threw(BadValue) <==> settable && hasText && !a.accepts(TextFor(own, words, i)))
      && (r == Threw(Exit) <==> settable && hasText && a.accepts(TextFor(own, words, i)) && a.visitor.ExitVisitor?)
      && r != Threw(NoMatch) && r != Threw(MissingArgs) && r != Threw(TooManyArgs)
  {
    hide ArgMatches, TrimFlag, HasBlanks;
  }

  /** Why a switch refuses a word that names it. */
  lemma SwitchRefusals(a: Arg, i: nat, words: seq<string>, delimiter: char)
    requires i < |words| && a.kind.SwitchArg?
    requires ArgMatches(a, words[i]) || CombinedMatch(a, words[i], delimiter).Some?
    ensures var r, m := Process(a, i, words, delimiter, false), CombinedMatch(a, words[i], delimiter);
      var twice := !ArgMatches(a, words[i]) && m.Some? && CombinedMatch(a, m.value, delimiter).Some?;
      && (r == Threw(AlreadySet) <==> twice || (a.alreadySet && !a.xorSet))
      && (r == Threw(MutuallyExclusive) <==> !twice && a.xorSet)
      && (r == Threw(Exit) <==> !twice && !a.alreadySet && !a.xorSet && a.visitor.ExitVisitor?)
      && (r.Threw? ==> r.e == AlreadySet || r.e == MutuallyExclusive || r.e == Exit)
  {
    hide ArgMatches, CombinedMatch, AllBlank;
  }

  /** A match is refused for a rival, and for nothing else. */
  lemma RivalRefused(args: seq<Arg>, groups: Groups, k: nat)
    requires k < |args|
    ensures Check(args, groups, k) == CheckThrew(MutuallyExclusive) <==> !NoRival(args, groups, k, {})
    ensures Check(args, groups, k).Count? <==> NoRival(args, groups, k, {})
  {
    CheckDone(args, groups, k);
  }

  /** The empty word, and a dash with nothing but placeholders after it. */
  lemma EmptyWords(word: string)
    ensures EmptyCombined(word) <==>
      word == "" || (word[0] == '-' && forall i | 1 <= i < |word| :: word[i] == '\U{0007}')
  {
  }
}
