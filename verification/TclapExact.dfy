/** When a parse of TCLAP succeeds, exactly; on a new command line and on one that was reset. */
module TclapExact {
  import opened Tclap
  import opened TclapLooks
  import opened TclapRequired
  import opened TclapValues
  import opened Wrappers

  /** What a run that goes through every word leaves, said of words and definitions alone: exactly those
      arguments are set that some word is for; a ValueArg holds the one text it was given and a MultiArg all of
      them in order; and exactly those switches are flipped that some word names. */
  lemma ParsedValues(line: Line, args: seq<Arg>, words: seq<string>, ignoreRest: bool, k: nat)
    requires Initial(line, args) && k < |args|
    requires LoopFrom(line, State(args, words, 0, 0, ignoreRest)).Finishes?
    ensures var args' := LoopFrom(line, State(args, words, 0, 0, ignoreRest)).state.args;
      var texts := Texts(args, words, 0, line.delimiter, ignoreRest, k);
      var flips := Flips(args, words, 0, line.delimiter, ignoreRest, k);
      && |args'| == |args|
      && (IsSet(args'[k]) <==> if args[k].kind.SwitchArg? then flips else texts != [])
      && (!args[k].kind.SwitchArg? ==> args'[k].values == texts)
      && (args[k].kind.ValueArg? ==> |texts| <= 1)
      && (args[k].kind.SwitchArg? ==> (args'[k].on <==> args[k].on != flips))
  {
    hide LoopFrom, Texts, Flips, Met, RunReported, NoneReused, Defined;
    RunExact(line, args, words, ignoreRest);
    assert Unused(args[k]);
    RunLeaves(line, State(args, words, 0, 0, ignoreRest), k);
    var texts := Texts(args, words, 0, line.delimiter, ignoreRest, k);
    assert [] + texts == texts;
  }

  /** No word that is looked at is for a MultiArg of a group that was used before the reset. */
  ghost predicate NoneAgain(line: Line, args: seq<Arg>, words: seq<string>, ignoreRest: bool) {
    forall k: nat | k in Used(args) && Grouped(line.groups, k) ::
      Texts(args, words, 0, line.delimiter, ignoreRest, k) == []
  }

  lemma ReusedAgain(line: Line, args: seq<Arg>, words: seq<string>, ignoreRest: bool)
    requires Initial(line, args) && LoopFrom(line, State(args, words, 0, 0, ignoreRest)).Finishes?
    ensures NoneReused(line.groups, Used(args), LoopFrom(line, State(args, words, 0, 0, ignoreRest)).state.args) <==>
            NoneAgain(line, args, words, ignoreRest)
  {
    hide LoopFrom, Texts, Flips, Grouped, Initial;
    var args' := LoopFrom(line, State(args, words, 0, 0, ignoreRest)).state.args;
    forall k: nat | k in Used(args)
      ensures |args'| == |args| && (IsSet(args'[k]) <==> Texts(args, words, 0, line.delimiter, ignoreRest, k) != [])
    {
      ParsedValues(line, args, words, ignoreRest, k);
    }
    if args == [] {
      assert Used(args) == {};
    } else {
      ParsedValues(line, args, words, ignoreRest, 0);
    }
  }

  /** A parse from the initial state, also after a reset, never finds too many arguments. When it goes through every
      word, it ends well if and only if the requirements are met, no word sets a switch of a group unreported, and no
      word is for a MultiArg of a group that was used before the reset. */
  lemma ParseExact(line: Line, args: seq<Arg>, words: seq<string>, ignoreRest: bool)
    requires Initial(line, args)
    ensures var run := LoopFrom(line, State(args, words, 0, 0, ignoreRest));
      var r := Parse(line, args, words, ignoreRest);
      && r != Fails(TooManyArgs)
      && (run.Fails? ==> r == run)
      && (run.Finishes? ==> r == run || r == Fails(MissingArgs))
      && (run.Finishes? ==>
            && SameDefinitions(args, run.state.args)
            && (r.Finishes? <==>
                  && Met(line.groups, run.state.args)
                  && NoneLost(args, words, 0, line.delimiter, ignoreRest)
                  && NoneAgain(line, args, words, ignoreRest)))
  {
    hide LoopFrom, Met, NoneLost, NoneReused, NoneAgain, RunReported, SetByValues, Initial;
    RunExact(line, args, words, ignoreRest);
    var start := State(args, words, 0, 0, ignoreRest);
    if LoopFrom(line, start).Finishes? {
      RunLooked(line, start);
      ReusedAgain(line, args, words, ignoreRest);
    }
  }

  /** A parse that succeeds has met every requirement. */
  lemma ParseMeets(line: Line, args: seq<Arg>, words: seq<string>, ignoreRest: bool)
    requires Initial(line, args) && Parse(line, args, words, ignoreRest).Finishes?
    ensures var args' := Parse(line, args, words, ignoreRest).state.args;
      SameDefinitions(args, args') && Met(line.groups, args')
  {
    hide LoopFrom, Met, NoneLost, NoneAgain;
    ParseExact(line, args, words, ignoreRest);
  }

  /** No MultiArg of a group was used before. */
  ghost predicate GroupsFresh(groups: Groups, args: seq<Arg>) {
    forall k: nat | k < |args| && Grouped(groups, k) && args[k].kind.MultiArg? :: !args[k].allowMore
  }

  /** With such groups, and words that lose no switch, a parse that goes through every word ends well exactly when the
      requirements are met. */
  lemma ParseDecides(line: Line, args: seq<Arg>, words: seq<string>, ignoreRest: bool)
    requires Initial(line, args) && GroupsFresh(line.groups, args)
    requires NoneLost(args, words, 0, line.delimiter, ignoreRest)
    requires LoopFrom(line, State(args, words, 0, 0, ignoreRest)).Finishes?
    ensures var args' := LoopFrom(line, State(args, words, 0, 0, ignoreRest)).state.args;
      Parse(line, args, words, ignoreRest).Finishes? <==> Met(line.groups, args')
  {
    hide LoopFrom, Met, NoneLost, Parse;
    ParseExact(line, args, words, ignoreRest);
  }

  /** Some words that lose no switch meet the requirements and set the argument at `k`. */
  ghost predicate Usable(line: Line, args: seq<Arg>, ignoreRest: bool, k: nat) {
    exists words :: Uses(line, args, words, ignoreRest, k)
  }

  ghost predicate Uses(line: Line, args: seq<Arg>, words: seq<string>, ignoreRest: bool, k: nat) {
    var run := LoopFrom(line, State(args, words, 0, 0, ignoreRest));
    && run.Finishes? && NoneLost(args, words, 0, line.delimiter, ignoreRest) && Met(line.groups, run.state.args)
    && k < |args| && Texts(args, words, 0, line.delimiter, ignoreRest, k) != []
  }

  /** If words lose no switch, a parse that goes through them all ends well exactly when the requirements are met. */
  ghost predicate Decides(line: Line, args: seq<Arg>, words: seq<string>, ignoreRest: bool) {
    var run := LoopFrom(line, State(args, words, 0, 0, ignoreRest));
    run.Finishes? && NoneLost(args, words, 0, line.delimiter, ignoreRest) ==>
      (Parse(line, args, words, ignoreRest).Finishes? <==> Met(line.groups, run.state.args))
  }

  /** For a command line each MultiArg of whose groups some words can use, this holds of all words if and only if none
      of these MultiArgs was used before. */
  lemma FreshExact(line: Line, args: seq<Arg>, ignoreRest: bool)
    requires Initial(line, args)
    requires forall k: nat | k < |args| && Grouped(line.groups, k) && args[k].kind.MultiArg? ::
      Usable(line, args, ignoreRest, k)
    ensures (forall words :: Decides(line, args, words, ignoreRest)) <==> GroupsFresh(line.groups, args)
  {
    hide LoopFrom, Met, NoneLost, Parse, Texts, Grouped, Defined;
    if GroupsFresh(line.groups, args) {
      forall words ensures Decides(line, args, words, ignoreRest) {
        ParseExact(line, args, words, ignoreRest);
      }
    } else {
      var k: nat :| k < |args| && Grouped(line.groups, k) && args[k].kind.MultiArg? && args[k].allowMore;
      assert Usable(line, args, ignoreRest, k);
      var words :| Uses(line, args, words, ignoreRest, k);
      ParseExact(line, args, words, ignoreRest);
      assert k in Used(args);
      assert !Decides(line, args, words, ignoreRest);
    }
  }

  /** Whatever is looked at, words lose no switch when none of them names a required switch together with a character
      that is not for a switch listed up to it. */
  lemma {:induction false} NoWordLoses(args: seq<Arg>, words: seq<string>, i: nat, delimiter: char, ignoreRest: bool)
    requires Usual(args, delimiter)
    requires forall w | w in words :: NamedOnce(args, w)
    requires forall w, k: nat | w in words && IsCombined(w, delimiter) :: !LosesAt(args, w, k)
    ensures NoneLost(args, words, i, delimiter, ignoreRest)
    decreases |words| - i
  {
    hide Looked, LosesAt, IsCombined, Usual, NamedOnce;
    if i < |words| {
      assert words[i] in words;
      LosesExactly(args, words[i], delimiter);
      var look := Looked(args, 0, words[i], delimiter);
      NoWordLoses(args, words, i + 1 + (if look.takes then 1 else 0), delimiter, look.ignores);
    }
  }

  /** A reset, after any parse, leaves a command line fit for the next. */
  lemma ResetInitial(line: Line, args: seq<Arg>, args': seq<Arg>)
    requires Defined(line, args)
    requires |args'| == |args| && forall k | 0 <= k < |args| :: args'[k] == Reset(args[k])
    ensures Initial(line, args')
  {
    assert SameDefinitions(args, args');
    WellDefinedKept(line.groups, args, args');
  }

  /** After a reset and a run through every word, a switch has its default, flipped if a word names it, and the other
      arguments hold the texts of these words alone. */
  lemma ResetForgets(line: Line, args: seq<Arg>, args': seq<Arg>, words: seq<string>, ignoreRest: bool, k: nat)
    requires Defined(line, args) && |args'| == |args| && forall j | 0 <= j < |args| :: args'[j] == Reset(args[j])
    requires k < |args| && LoopFrom(line, State(args', words, 0, 0, ignoreRest)).Finishes?
    ensures var r := LoopFrom(line, State(args', words, 0, 0, ignoreRest)).state.args;
      && |r| == |args|
      && (if args[k].kind.SwitchArg? then
            r[k].on <==> args[k].default != Flips(args, words, 0, line.delimiter, ignoreRest, k)
          else r[k].values == Texts(args, words, 0, line.delimiter, ignoreRest, k))
  {
    hide LoopFrom, Texts, Flips, Defined;
    ResetInitial(line, args, args');
    assert SameDefinitions(args, args');
    TextsSame(args, args', words, words, 0, line.delimiter, ignoreRest, k);
    ParsedValues(line, args', words, ignoreRest, k);
  }

  function Switch(flag: string, required: bool): Arg {
    Arg(SwitchArg, flag, "switch-" + flag, NoVisitor, _ => false, required, false, false, false, [], false, false)
  }

  lemma LostSwitchWords()
    ensures CombinedMatch(Switch("a", true), "-ac", ' ') == Some(['-', BLANK, 'c'])
    ensures CombinedMatch(Switch("a", true), ['-', BLANK, 'c'], ' ') == None
    ensures CombinedMatch(Switch("b", true), ['-', BLANK, 'c'], ' ') == None
    ensures CombinedMatch(Switch("c", false), ['-', BLANK, 'c'], ' ') == Some(['-', BLANK, BLANK])
    ensures CombinedMatch(Switch("c", false), ['-', BLANK, BLANK], ' ') == None
  {
    var w, w1 := "-ac", ['-', BLANK, 'c'];
    assert IndexOf(w, 'a', 1) == 1;
    assert w[1 := BLANK] == w1;
    assert IndexOf(w1, 'c', 1) == 2;
    assert w1[2 := BLANK] == ['-', BLANK, BLANK];
  }

  lemma LostSwitchLooks()
    ensures var a, b, c := Switch("a", true), Switch("b", true), Switch("c", false);
      var w1, w2 := ['-', BLANK, 'c'], ['-', BLANK, BLANK];
      && Process(a, 0, ["-ac"], ' ', false) == Done(false, a.(alreadySet := true, on := true), 0, [w1], false)
      && Process(b, 0, [w1], ' ', false) == Done(false, b, 0, [w1], false)
      && Process(c, 0, [w1], ' ', false) == Done(true, c.(alreadySet := true, on := true), 0, [w2], false)
  {
    hide CombinedMatch, IndexOf;
    LostSwitchWords();
    var w1, w2 := ['-', BLANK, 'c'], ['-', BLANK, BLANK];
    assert ["-ac"][0 := w1] == [w1] && [w1][0 := w2] == [w2];
    assert w1[2] == 'c';
    assert !AllBlank(w1) && AllBlank(w2);
  }

  lemma LostSwitchInitial()
    ensures Initial(Line([[0, 1]], ' ', false, 2), [Switch("a", true), Switch("b", true), Switch("c", false)])
  {
    var args := [Switch("a", true), Switch("b", true), Switch("c", false)];
    var groups: Groups := [[0, 1]];
    assert Required(args) == {0, 1};
    assert 0 in groups[0] && 1 in groups[0];
  }

  /** What a lost switch does: `-ac`, with `-a` and `-b` exclusive and `-c` optional, sets `-a` alone of its
      group and is refused for a missing argument. */
  lemma LostSwitch()
    ensures var args := [Switch("a", true), Switch("b", true), Switch("c", false)];
      var line := Line([[0, 1]], ' ', false, 2);
      var run := LoopFrom(line, State(args, ["-ac"], 0, 0, false));
      && Initial(line, args)
      && run.Finishes? && Met(line.groups, run.state.args)
      && Parse(line, args, ["-ac"], false) == Fails(MissingArgs)
  {
    hide CombinedMatch, Initial, IndexOf;
    var a, b, c := Switch("a", true), Switch("b", true), Switch("c", false);
    var args := [a, b, c];
    var line := Line([[0, 1]], ' ', false, 2);
    LostSwitchInitial();
    LostSwitchWords();
    var w1 := ['-', BLANK, 'c'];
    var w2 := ['-', BLANK, BLANK];
    var a', c' := a.(alreadySet := true, on := true), c.(alreadySet := true, on := true);
    LostSwitchLooks();
    hide Process;
    var s3 := State([a', b, c'], [w2], 0, 0, false);
    assert TryFrom(line, State([a', b, c], [w1], 0, 0, false), 2) == Tried(true, s3);
    assert TryFrom(line, State([a', b, c], [w1], 0, 0, false), 1) == Tried(true, s3);
    assert TryFrom(line, State(args, ["-ac"], 0, 0, false), 0) == Tried(true, s3);
    hide TryFrom;
    assert ExactlyOne([0, 1], [a', b, c']) by {
      assert IsSet([a', b, c'][0]) && OnlyOne([0, 1], [a', b, c'], 0);
    }
  }

  function Multi(allowMore: bool): Arg {
    Arg(MultiArg, "m", "multi", NoVisitor, _ => true, true, false, false, allowMore, [], false, false)
  }

  /** One match of a MultiArg that is a group of its own, on `-m x`, before its first use or after a reset. */
  lemma MultiRun(allowMore: bool)
    ensures var line := Line([[0]], ' ', false, 1);
      LoopFrom(line, State([Multi(allowMore)], ["-m", "x"], 0, 0, false)) ==
      Finishes(State([Multi(true).(alreadySet := true, values := ["x"])], ["-m", "x"], 2, if allowMore then 0 else 1,
                     false))
  {
    hide IndexOf;
    var line := Line([[0]], ' ', false, 1);
    var a, words := Multi(allowMore), ["-m", "x"];
    var a' := a.(alreadySet := true, values := ["x"]);
    assert TrimFlag("-m", ' ') == ("-m", "") by {
      NoDelimiter();
    }
    assert Process(a, 0, words, ' ', false) == Done(true, a', 1, words, false) by {
      assert [] + ["x"] == ["x"];
    }
    hide Process;
    var s := State([a], words, 0, 0, false);
    var args' := [a'.(allowMore := true)];
    assert Check([a'], line.groups, 0) == Count(if allowMore then 0 else 1, args') by {
      assert ExcludeOthers([a'], [0], 0) == [a'];
    }
    hide Check;
    assert [a][0 := a'] == [a'];
    var s' := State(args', words, 1, if allowMore then 0 else 1, false);
    assert TryFrom(line, s, 0) == Tried(true, s');
    hide TryFrom;
    assert LoopFrom(line, s) == LoopFrom(line, s'.(i := 2));
  }

  lemma NoDelimiter()
    ensures IndexOf("-m", ' ', 0) == 2
  {
    assert IndexOf("-m", ' ', 1) == 2;
  }

  /** A reset does not make an argument fit for the counting again: `-m x` is accepted the first time and
      refused for a missing argument the second time. */
  lemma ResetLosesCount()
    ensures var line := Line([[0]], ' ', false, 1);
      var first := Parse(line, [Multi(false)], ["-m", "x"], false);
      && Initial(line, [Multi(false)])
      && first.Finishes? && |first.state.args| == 1
      && Parse(line, [Reset(first.state.args[0])], ["-m", "x"], false) == Fails(MissingArgs)
  {
    hide LoopFrom;
    MultiRun(false);
    MultiRun(true);
    var groups: Groups := [[0]];
    assert Required([Multi(false)]) == {0};
    assert 0 in groups[0];
  }
}
