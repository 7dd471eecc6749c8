/** One counter stands for many requirements: a run of the parser that ends without an exception has seen
    every required argument, and exactly one argument of every group of exclusive ones. */
module TclapRequired {
  import opened Tclap

  ghost predicate Grouped(groups: Groups, k: nat) {
    exists g | 0 <= g < |groups| :: k in groups[g]
  }

  ghost predicate Distinct(group: seq<nat>) {
    forall i, j | 0 <= i < j < |group| :: group[i] != group[j]
  }

  ghost predicate Disjoint(groups: Groups) {
    forall g, h, k: nat | 0 <= g < h < |groups| && k in groups[g] :: k !in groups[h]
  }

  ghost predicate AllRequired(group: seq<nat>, args: seq<Arg>) {
    forall i | 0 <= i < |group| :: group[i] < |args| && args[group[i]].required
  }

  /** What `add` and `xorAdd` leave: groups of distinct arguments that share none, all of them required, and
      no other switch required (a SwitchArg is constructed optional). */
  ghost predicate WellDefined(groups: Groups, args: seq<Arg>) {
    && Disjoint(groups)
    && (forall g | 0 <= g < |groups| :: Distinct(groups[g]) && AllRequired(groups[g], args))
    && (forall k: nat | k < |args| && args[k].kind.SwitchArg? && args[k].required :: Grouped(groups, k))
  }

  ghost predicate Unused(a: Arg) {
    !a.alreadySet && !a.xorSet && a.values == []
  }

  ghost function Required(args: seq<Arg>): set<nat> {
    set k: nat | k < |args| && args[k].required
  }

  /** The command line counts what its arguments require. */
  ghost predicate Defined(line: Line, args: seq<Arg>) {
    WellDefined(line.groups, args) && line.numRequired == |Required(args)|
  }

  /** A command line as it is before its first parse, or after a reset, which leaves `allowMore` as it was. */
  ghost predicate Initial(line: Line, args: seq<Arg>) {
    Defined(line, args) && forall k | 0 <= k < |args| :: Unused(args[k])
  }

  /** The requirements: every required argument outside the groups is set, and in every group one argument
      and no other. */
  ghost predicate Met(groups: Groups, args: seq<Arg>) {
    && (forall k: nat | k < |args| && args[k].required && !Grouped(groups, k) :: IsSet(args[k]))
    && (forall g | 0 <= g < |groups| && groups[g] != [] :: ExactlyOne(groups[g], args))
  }

  ghost predicate ExactlyOne(group: seq<nat>, args: seq<Arg>) {
    exists c: nat | c in group && c < |args| :: IsSet(args[c]) && OnlyOne(group, args, c)
  }

  ghost predicate OnlyOne(group: seq<nat>, args: seq<Arg>, c: nat) {
    forall k: nat | k in group && k != c && k < |args| :: !IsSet(args[k])
  }

  // The invariant.

  /** The positions of the MultiArgs that `allowMore` from the start, of the requirements met so far, and of those
      among them that were not counted, because their group was chosen by such a MultiArg. */
  datatype Marks = Marks(used: set<nat>, done: set<nat>, spent: set<nat>)

  ghost predicate PlainInv(a: Arg, k: nat, m: Marks) {
    && !a.xorSet
    && (k in m.done <==> a.required && a.alreadySet)
    && (a.kind.MultiArg? ==> (a.alreadySet <==> a.values != []))
  }

  ghost predicate Open(group: seq<nat>, args: seq<Arg>, m: Marks) {
    forall k: nat | k in group && k < |args| ::
      && k !in m.done && !args[k].xorSet
      && (args[k].kind.MultiArg? ==> args[k].values == [] && (args[k].allowMore <==> k in m.used))
      && (args[k].alreadySet ==> args[k].kind.SwitchArg?)
  }

  ghost predicate Taken(group: seq<nat>, args: seq<Arg>, m: Marks, c: nat) {
    && c in group && c < |args| && IsSet(args[c]) && (args[c].kind.MultiArg? ==> args[c].allowMore)
    && (forall k: nat | k in group && k < |args| ::
          && k in m.done && (k in m.spent <==> c in m.used) && (k != c ==> args[k].xorSet && args[k].alreadySet)
          && (args[k].kind.MultiArg? ==> (args[k].values != [] <==> k == c)))
  }

  ghost predicate GroupInv(group: seq<nat>, args: seq<Arg>, m: Marks) {
    Open(group, args, m) || exists c: nat :: Taken(group, args, m, c)
  }

  ghost predicate MarksUsed(args: seq<Arg>, m: Marks) {
    forall k | k in m.used :: k < |args| && args[k].kind.MultiArg?
  }

  ghost predicate MarksInv(groups: Groups, args: seq<Arg>, m: Marks) {
    && m.spent <= m.done <= Required(args)
    && MarksUsed(args, m)
    && (forall k | k in m.spent :: Grouped(groups, k))
  }

  ghost predicate Inv(groups: Groups, args: seq<Arg>, m: Marks, count: nat) {
    && WellDefined(groups, args)
    && MarksInv(groups, args, m)
    && count == |m.done - m.spent|
    && (forall k: nat | k < |args| && !Grouped(groups, k) :: PlainInv(args[k], k, m))
    && (forall g | 0 <= g < |groups| :: GroupInv(groups[g], args, m))
  }

  /** Every required argument that is set is among the requirements met. Only a switch of a group can break
      this. */
  ghost predicate Counted(args: seq<Arg>, m: Marks) {
    forall k: nat | k < |args| :: CountedAt(args[k], k, m)
  }

  ghost predicate CountedAt(a: Arg, k: nat, m: Marks) {
    a.required && a.alreadySet ==> k in m.done
  }

  /** The definitions of the arguments, which no step changes. */
  ghost predicate SameDefinition(a: Arg, b: Arg) {
    a.kind == b.kind && a.flag == b.flag && a.name == b.name && a.required == b.required && a.visitor == b.visitor
  }

  ghost predicate SameDefinitions(args: seq<Arg>, args': seq<Arg>) {
    |args| == |args'| && forall k | 0 <= k < |args| :: SameDefinition(args[k], args'[k])
  }

  lemma WellDefinedKept(groups: Groups, args: seq<Arg>, args': seq<Arg>)
    requires WellDefined(groups, args) && SameDefinitions(args, args')
    ensures WellDefined(groups, args') && Required(args') == Required(args)
  {
    forall k: nat | k < |args| ensures k in Required(args') <==> k in Required(args) {
      assert SameDefinition(args[k], args'[k]);
    }
    forall g | 0 <= g < |groups| ensures AllRequired(groups[g], args') {
      assert AllRequired(groups[g], args);
      forall i | 0 <= i < |groups[g]| ensures args'[groups[g][i]].required {
        assert SameDefinition(args[groups[g][i]], args'[groups[g][i]]);
      }
    }
    forall k: nat | k < |args'| && args'[k].kind.SwitchArg? && args'[k].required ensures Grouped(groups, k) {
      assert SameDefinition(args[k], args'[k]);
    }
  }

  lemma SameDefinitionsTransitive(a: seq<Arg>, b: seq<Arg>, c: seq<Arg>)
    requires SameDefinitions(a, b) && SameDefinitions(b, c)
    ensures SameDefinitions(a, c)
  {
    forall k | 0 <= k < |a| ensures SameDefinition(a[k], c[k]) {
      assert SameDefinition(a[k], b[k]);
    }
  }

  // One argument at one word.

  /** Words that are not several switches in one. */
  predicate Single(word: string, delimiter: char) {
    |word| <= 2 || word[0] != '-' || "--" <= word || delimiter in word
  }

  /** A Done outcome of a look at the current word, `r`, by the argument `a`. */
  ghost predicate Meaning(a: Arg, word: string, delimiter: char, r: Outcome)
    requires r.Done?
  {
    && SameDefinition(a, r.arg) && r.arg.xorSet == a.xorSet && r.arg.allowMore == a.allowMore
    && (!r.matched && r.arg != a ==>
          && a.kind.SwitchArg? && !a.xorSet && !a.alreadySet && r.arg.alreadySet
          && !Single(word, delimiter))
    && (r.matched ==>
          && r.arg.alreadySet
          && (a.kind.MultiArg? ==> |r.arg.values| == |a.values| + 1)
          && (!a.kind.MultiArg? ==> !a.alreadySet)
          && (a.kind.SwitchArg? ==> !a.xorSet))
  }

  lemma SwitchMeaning(a: Arg, i: nat, words: seq<string>, delimiter: char)
    requires i < |words| && a.kind.SwitchArg?
    requires ProcessSwitch(a, i, words, delimiter).Done?
    ensures Meaning(a, words[i], delimiter, ProcessSwitch(a, i, words, delimiter))
  {
    hide ArgMatches;
    var match1 := CombinedMatch(a, words[i], delimiter);
    if match1.Some? && Single(words[i], delimiter) {
      assert AllBlank(match1.value);
    }
    hide AllBlank, CombinedMatch;
  }

  lemma ValueMeaning(a: Arg, i: nat, words: seq<string>, delimiter: char)
    requires i < |words| && !a.kind.SwitchArg?
    requires ProcessValue(a, i, words, delimiter).Done?
    ensures Meaning(a, words[i], delimiter, ProcessValue(a, i, words, delimiter))
  {
    hide ArgMatches, HasBlanks, TrimFlag, Extract, Meaning;
    var (flag, value) := TrimFlag(words[i], delimiter);
    LeftMeaning(a, words[i], delimiter, i, words);
    if ProcessValue(a, i, words, delimiter).matched {
      if value != "" {
        ExtractMeaning(a, value, i, words, words[i], delimiter);
      } else {
        ExtractMeaning(a, words[i + 1], i + 1, words, words[i], delimiter);
      }
    } else {
      ExtractMatches(a, words);
    }
  }

  lemma ExtractMatches(a: Arg, words: seq<string>)
    ensures forall value: string, at: nat :: Extract(a, value, at, words).Done? ==> Extract(a, value, at, words).matched
  {
  }

  lemma ExtractMeaning(a: Arg, value: string, at: nat, words: seq<string>, word: string, delimiter: char)
    requires !a.kind.SwitchArg? && (a.kind.ValueArg? ==> !a.alreadySet)
    requires Extract(a, value, at, words).Done?
    ensures Meaning(a, word, delimiter, Extract(a, value, at, words))
  {
  }

  lemma LeftMeaning(a: Arg, word: string, delimiter: char, i: nat, words: seq<string>)
    ensures Meaning(a, word, delimiter, Done(false, a, i, words, false))
  {
  }

  lemma ProcessMeaning(a: Arg, i: nat, words: seq<string>, delimiter: char, ignoreRest: bool)
    requires i < |words|
    requires Process(a, i, words, delimiter, ignoreRest).Done?
    ensures Meaning(a, words[i], delimiter, Process(a, i, words, delimiter, ignoreRest))
  {
    hide ProcessSwitch, ProcessValue;
    if !ignoreRest {
      if a.kind.SwitchArg? {
        SwitchMeaning(a, i, words, delimiter);
      } else {
        ValueMeaning(a, i, words, delimiter);
      }
    }
  }

  // One step keeps the invariant.

  ghost predicate SameMarks(m: Marks, m': Marks, k: nat) {
    m'.used == m.used && (k in m'.done <==> k in m.done) && (k in m'.spent <==> k in m.spent)
  }

  lemma GroupFrame(group: seq<nat>, args: seq<Arg>, args': seq<Arg>, m: Marks, m': Marks)
    requires |args'| == |args| && GroupInv(group, args, m)
    requires forall k: nat | k in group && k < |args| :: args'[k] == args[k] && SameMarks(m, m', k)
    ensures GroupInv(group, args', m')
  {
    if Open(group, args, m) {
      assert Open(group, args', m');
    } else {
      var c: nat :| Taken(group, args, m, c);
      assert Taken(group, args', m', c);
    }
  }

  lemma GroupOfMember(groups: Groups, g: nat, k: nat)
    requires Disjoint(groups) && g < |groups| && k in groups[g]
    ensures GroupOf(groups, k) == g
  {
  }

  lemma GroupOfPlain(groups: Groups, k: nat)
    ensures Grouped(groups, k) <==> GroupOf(groups, k) < |groups|
  {
  }

  lemma OtherGroups(groups: Groups, args: seq<Arg>, args': seq<Arg>, m: Marks, m': Marks, g: nat)
    requires Disjoint(groups) && g < |groups| && |args'| == |args|
    requires forall h | 0 <= h < |groups| :: GroupInv(groups[h], args, m)
    requires forall k: nat | k < |args| && k !in groups[g] :: args'[k] == args[k] && SameMarks(m, m', k)
    requires GroupInv(groups[g], args', m')
    ensures forall h | 0 <= h < |groups| :: GroupInv(groups[h], args', m')
  {
    forall h | 0 <= h < |groups| ensures GroupInv(groups[h], args', m') {
      if h != g {
        assert forall k: nat | k in groups[h] :: k !in groups[g];
        GroupFrame(groups[h], args, args', m, m');
      }
    }
  }

  lemma NoGroup(groups: Groups, args: seq<Arg>, args': seq<Arg>, m: Marks, m': Marks, k: nat)
    requires !Grouped(groups, k) && |args'| == |args|
    requires forall h | 0 <= h < |groups| :: GroupInv(groups[h], args, m)
    requires forall j: nat | j < |args| && j != k :: args'[j] == args[j] && SameMarks(m, m', j)
    ensures forall h | 0 <= h < |groups| :: GroupInv(groups[h], args', m')
  {
    forall h | 0 <= h < |groups| ensures GroupInv(groups[h], args', m') {
      assert k !in groups[h];
      GroupFrame(groups[h], args, args', m, m');
    }
  }

  lemma MarksKept(groups: Groups, args: seq<Arg>, args': seq<Arg>, m: Marks)
    requires MarksInv(groups, args, m) && SameDefinitions(args, args') && Required(args') == Required(args)
    ensures MarksInv(groups, args', m)
  {
    forall k | k in m.used ensures k < |args'| && args'[k].kind.MultiArg? {
      assert SameDefinition(args[k], args'[k]);
    }
  }

  /** A switch of a group that is set without a match leaves its group open. */
  lemma OpenKept(group: seq<nat>, args: seq<Arg>, m: Marks, k: nat, arg: Arg)
    requires GroupInv(group, args, m) && k < |args| && k in group
    requires args[k].kind.SwitchArg? && !args[k].alreadySet && !args[k].xorSet
    requires SameDefinition(args[k], arg) && !arg.xorSet
    ensures GroupInv(group, args[k := arg], m)
  {
    assert Open(group, args, m);
    assert Open(group, args[k := arg], m);
  }

  /** A look that does not match changes at most a switch that has not been set, and no counted one. */
  lemma UnmatchedStep(groups: Groups, args: seq<Arg>, m: Marks, count: nat, k: nat, word: string, delimiter: char,
      r: Outcome)
    requires Inv(groups, args, m, count) && k < |args|
    requires r.Done? && !r.matched && Meaning(args[k], word, delimiter, r)
    ensures Inv(groups, args[k := r.arg], m, count) && SameDefinitions(args, args[k := r.arg])
  {
    var args' := args[k := r.arg];
    if r.arg == args[k] {
      assert args' == args;
    } else {
      ChangedStep(groups, args, m, count, k, r.arg);
    }
  }

  lemma ChangedStep(groups: Groups, args: seq<Arg>, m: Marks, count: nat, k: nat, arg: Arg)
    requires Inv(groups, args, m, count) && k < |args|
    requires args[k].kind.SwitchArg? && !args[k].alreadySet && !args[k].xorSet
    requires SameDefinition(args[k], arg) && !arg.xorSet
    ensures Inv(groups, args[k := arg], m, count) && SameDefinitions(args, args[k := arg])
  {
    hide MarksInv, Disjoint, Distinct, AllRequired, Required, GroupInv, PlainInv;
    var args' := args[k := arg];
    WellDefinedKept(groups, args, args');
    MarksKept(groups, args, args', m);
    if Grouped(groups, k) {
      var g: nat :| g < |groups| && k in groups[g];
      OpenKept(groups[g], args, m, k, arg);
      OtherGroups(groups, args, args', m, m, g);
    } else {
      SwitchPlain(args[k], arg, k, m);
      NoGroup(groups, args, args', m, m, k);
    }
  }

  lemma SwitchPlain(a: Arg, arg: Arg, k: nat, m: Marks)
    requires PlainInv(a, k, m) && a.kind.SwitchArg? && !a.required && SameDefinition(a, arg) && !arg.xorSet
    ensures PlainInv(arg, k, m)
  {
  }

  lemma UnmatchedCounted(groups: Groups, args: seq<Arg>, m: Marks, count: nat, k: nat, word: string,
      delimiter: char, r: Outcome)
    requires Inv(groups, args, m, count) && k < |args|
    requires r.Done? && !r.matched && Meaning(args[k], word, delimiter, r)
    ensures Counted(args[k := r.arg], m) <==> Counted(args, m) && (r.arg == args[k] || !r.arg.required)
  {
    var args' := args[k := r.arg];
    if r.arg == args[k] {
      assert args' == args;
    } else {
      assert args[k].required ==> k !in m.done by {
        if Grouped(groups, k) {
          var g: nat :| g < |groups| && k in groups[g];
          assert GroupInv(groups[g], args, m);
        } else {
          assert PlainInv(args[k], k, m);
        }
      }
      CountedBut(args, args', m, m, k);
    }
  }

  /** Changing one argument leaves the others counted or not as they were. */
  lemma CountedBut(args: seq<Arg>, args': seq<Arg>, m: Marks, m': Marks, k: nat)
    requires |args'| == |args| && k < |args|
    requires forall j: nat | j < |args| && j != k :: args'[j] == args[j] && SameMarks(m, m', j)
    ensures CountedAt(args[k], k, m) ==>
      (Counted(args', m') <==> Counted(args, m) && CountedAt(args'[k], k, m'))
  {
    if Counted(args', m') && CountedAt(args[k], k, m) {
      forall j: nat | j < |args| ensures CountedAt(args[j], j, m) {
        assert CountedAt(args'[j], j, m');
      }
    }
    if Counted(args, m) && CountedAt(args'[k], k, m') {
      forall j: nat | j < |args| ensures CountedAt(args'[j], j, m') {
        assert CountedAt(args[j], j, m);
      }
    }
  }

  ghost function Members(group: seq<nat>): set<nat> {
    set k: nat | k in group
  }

  lemma {:induction false} CountMembers(group: seq<nat>, done: set<nat>)
    requires Distinct(group) && forall k: nat | k in group :: k !in done
    ensures |done + Members(group)| == |done| + |group|
  {
    if group == [] {
      assert done + Members(group) == done;
    } else {
      CountMembers(group[1..], done + {group[0]});
      assert done + {group[0]} + Members(group[1..]) == done + Members(group);
    }
  }

  /** The marks once member `k` of the group was chosen. */
  ghost function Choose(m: Marks, group: seq<nat>, k: nat): Marks {
    m.(done := m.done + Members(group), spent := if k in m.used then m.spent + Members(group) else m.spent)
  }

  lemma CountChosen(m: Marks, group: seq<nat>, k: nat)
    requires m.spent <= m.done && Distinct(group) && forall j: nat | j in group :: j !in m.done
    ensures var m' := Choose(m, group, k);
      |m'.done - m'.spent| == |m.done - m.spent| + if k in m.used then 0 else |group|
  {
    var m' := Choose(m, group, k);
    if k in m.used {
      assert m'.done - m'.spent == m.done - m.spent;
    } else {
      CountMembers(group, m.done - m.spent);
      assert m'.done - m'.spent == m.done - m.spent + Members(group);
    }
  }

  lemma PlainCount(m: Marks, k: nat)
    requires m.spent <= m.done
    ensures |m.done + {k} - m.spent| == |m.done - m.spent| + if k in m.done then 0 else 1
  {
    if k in m.done {
      assert m.done + {k} == m.done;
    } else {
      assert m.done + {k} - m.spent == m.done - m.spent + {k};
    }
  }

  /** The marks after a match of an argument outside the groups. */
  ghost function Meet(m: Marks, a: Arg, k: nat): Marks {
    if a.required then m.(done := m.done + {k}) else m
  }

  lemma PlainMark(a: Arg, k: nat, m: Marks, word: string, delimiter: char, r: Outcome)
    requires PlainInv(a, k, m) && m.spent <= m.done && (a.kind.SwitchArg? ==> !a.required)
    requires r.Done? && r.matched && Meaning(a, word, delimiter, r)
    ensures var m' := Meet(m, r.arg, k);
      && PlainInv(r.arg, k, m')
      && |m'.done - m'.spent| == |m.done - m.spent| + (if IsRequired(r.arg) then 1 else 0)
      && CountedAt(a, k, m) && CountedAt(r.arg, k, m')
  {
    PlainCount(m, k);
  }

  lemma MarksMet(groups: Groups, args: seq<Arg>, m: Marks, k: nat)
    requires MarksInv(groups, args, m) && k < |args|
    ensures MarksInv(groups, args, Meet(m, args[k], k))
  {
  }

  /** A match of an argument outside the groups. */
  lemma PlainStep(groups: Groups, args: seq<Arg>, m: Marks, count: nat, k: nat, word: string, delimiter: char,
      r: Outcome) returns (m': Marks)
    requires Inv(groups, args, m, count) && k < |args| && !Grouped(groups, k)
    requires r.Done? && r.matched && Meaning(args[k], word, delimiter, r)
    ensures m'.used == m.used
    ensures Inv(groups, args[k := r.arg], m', count + if IsRequired(r.arg) then 1 else 0)
    ensures Counted(args[k := r.arg], m') <==> Counted(args, m)
  {
    var args' := args[k := r.arg];
    m' := Meet(m, r.arg, k);
    assert SameDefinition(args[k], r.arg);
    WellDefinedKept(groups, args, args');
    MarksKept(groups, args, args', m);
    assert PlainInv(args[k], k, m);
    PlainMark(args[k], k, m, word, delimiter, r);
    MarksMet(groups, args', m, k);
    hide Meaning, Disjoint, Distinct, AllRequired, GroupInv, Counted, CountedAt, PlainInv, IsRequired, MarksInv,
         Required;
    NoGroup(groups, args, args', m, m', k);
    CountedBut(args, args', m, m', k);
    PlainOthers(groups, args, args', m, m', k);
  }

  lemma PlainOthers(groups: Groups, args: seq<Arg>, args': seq<Arg>, m: Marks, m': Marks, k: nat)
    requires |args'| == |args| && k < |args| && PlainInv(args'[k], k, m')
    requires forall j: nat | j < |args| && j != k :: args'[j] == args[j] && SameMarks(m, m', j)
    requires forall j: nat | j < |args| && !Grouped(groups, j) :: PlainInv(args[j], j, m)
    ensures forall j: nat | j < |args| && !Grouped(groups, j) :: PlainInv(args'[j], j, m')
  {
  }

  /** What counting a match of a member `k` of `group` does to the arguments. */
  ghost predicate Chose(group: seq<nat>, args: seq<Arg>, k: nat, args': seq<Arg>)
    requires k < |args|
  {
    && |args'| == |args|
    && args'[k] == args[k].(allowMore := args[k].kind.MultiArg? || args[k].allowMore)
    && (forall j: nat | j < |args| && j in group && j != k ::
          args'[j] == args[j].(alreadySet := true, xorSet := true))
    && (forall j: nat | j < |args| && j !in group :: args'[j] == args[j])
  }

  lemma CheckMeaning(groups: Groups, args: seq<Arg>, g: nat, k: nat)
    requires Disjoint(groups) && k < |args| && g < |groups| && k in groups[g]
    requires Check(args, groups, k).Count?
    ensures var c := Check(args, groups, k);
      && (forall j: nat | j < |args| && j in groups[g] && j != k :: !IsSet(args[j]))
      && Chose(groups[g], args, k, c.args)
      && c.n == if args[k].kind.MultiArg? && args[k].allowMore then 0 else |groups[g]|
  {
    GroupOfMember(groups, g, k);
    hide GroupOf;
  }

  lemma OpenStep(group: seq<nat>, args: seq<Arg>, m: Marks, k: nat, args1: seq<Arg>, args': seq<Arg>)
    requires k < |args| == |args1| && k in group && Open(group, args, m) && m.spent <= m.done
    requires |args1| == |args| && forall j: nat | j < |args| && j != k :: args1[j] == args[j]
    requires args1[k].alreadySet && args1[k].xorSet == args[k].xorSet && Chose(group, args1, k, args')
    requires args1[k].kind == args[k].kind && (args1[k].kind.MultiArg? ==> args1[k].values != [])
    ensures Taken(group, args', Choose(m, group, k), k)
  {
  }

  lemma TakenStep(group: seq<nat>, args: seq<Arg>, m: Marks, c: nat, k: nat, args1: seq<Arg>, args': seq<Arg>)
    requires k < |args| && k in group && Taken(group, args, m, c)
    requires |args1| == |args| && forall j: nat | j < |args| && j != k :: args1[j] == args[j]
    requires args1[k].alreadySet && args1[k].xorSet == args[k].xorSet && args1[k].allowMore == args[k].allowMore
    requires args1[k].kind == args[k].kind && (args1[k].kind.MultiArg? ==> args1[k].values != [])
    requires forall j: nat | j < |args1| && j in group && j != k :: !IsSet(args1[j])
    requires Chose(group, args1, k, args')
    ensures k == c && Taken(group, args', m, k)
  {
  }

  /** Whether a group is chosen already shows in the argument that matches. */
  lemma MemberOf(group: seq<nat>, args: seq<Arg>, m: Marks, k: nat)
    requires k < |args| && k in group && AllRequired(group, args)
    requires MarksUsed(args, m)
    ensures Open(group, args, m) ==>
      && (args[k].kind.MultiArg? && args[k].allowMore <==> k in m.used)
      && forall j: nat | j in group :: j !in m.done
    ensures Taken(group, args, m, k) ==>
      args[k].alreadySet && (args[k].kind.MultiArg? ==> args[k].allowMore) && Choose(m, group, k) == m
  {
    assert forall j: nat | j in group :: j < |args|;
    if Taken(group, args, m, k) {
      assert m.done + Members(group) == m.done;
      assert k in m.used ==> m.spent + Members(group) == m.spent;
    }
  }

  lemma MarksChosen(groups: Groups, args: seq<Arg>, m: Marks, g: nat, k: nat)
    requires MarksInv(groups, args, m) && g < |groups| && AllRequired(groups[g], args)
    ensures MarksInv(groups, args, Choose(m, groups[g], k))
  {
    assert Members(groups[g]) <= Required(args);
  }

  lemma GroupKept(groups: Groups, args: seq<Arg>, m: Marks, g: nat, k: nat, arg: Arg, args': seq<Arg>)
    requires Inv(groups, args, m, |m.done - m.spent|) && k < |args| && g < |groups| && k in groups[g]
    requires SameDefinition(args[k], arg) && Chose(groups[g], args[k := arg], k, args')
    requires Taken(groups[g], args', Choose(m, groups[g], k), k)
    ensures var m' := Choose(m, groups[g], k); Inv(groups, args', m', |m'.done - m'.spent|)
  {
    hide Open, Taken, Distinct, Disjoint;
    var m' := Choose(m, groups[g], k);
    assert SameDefinitions(args, args');
    WellDefinedKept(groups, args, args');
    MarksKept(groups, args, args', m);
    MarksChosen(groups, args', m, g, k);
    hide MarksInv, AllRequired, Required;
    assert GroupInv(groups[g], args', m');
    OtherGroups(groups, args, args', m, m', g);
    forall j: nat | j < |args| && !Grouped(groups, j) ensures PlainInv(args'[j], j, m') {
      assert j !in groups[g];
      assert PlainInv(args[j], j, m);
    }
  }

  lemma GroupCounted(group: seq<nat>, args: seq<Arg>, m: Marks, k: nat, arg: Arg, args': seq<Arg>)
    requires k < |args| && k in group && AllRequired(group, args)
    requires Open(group, args, m) || Taken(group, args, m, k)
    requires Chose(group, args[k := arg], k, args')
    requires forall j: nat | j < |args| && j in group && j != k :: !IsSet(args[k := arg][j])
    requires !args[k].kind.MultiArg? ==> !args[k].alreadySet
    ensures Counted(args', Choose(m, group, k)) <==> Counted(args, m)
  {
    var m' := Choose(m, group, k);
    forall j: nat | j < |args| ensures CountedAt(args'[j], j, m') <==> CountedAt(args[j], j, m) {
      assert args[k := arg][j] == if j == k then arg else args[j];
    }
  }

  lemma MarksParts(groups: Groups, args: seq<Arg>, m: Marks)
    requires MarksInv(groups, args, m)
    ensures m.spent <= m.done && MarksUsed(args, m)
  {
  }

  lemma MatchMeans(a: Arg, word: string, delimiter: char, r: Outcome)
    requires r.Done? && r.matched && Meaning(a, word, delimiter, r)
    ensures SameDefinition(a, r.arg) && r.arg.kind == a.kind
    ensures r.arg.alreadySet && r.arg.xorSet == a.xorSet && r.arg.allowMore == a.allowMore
    ensures if a.kind.MultiArg? then r.arg.values != [] else !a.alreadySet
  {
  }

  /** A match of a member of a group is refused when another member was chosen; otherwise the group is
      counted once, whatever the kind of the argument. */
  lemma GroupStep(groups: Groups, args: seq<Arg>, m: Marks, count: nat, g: nat, k: nat, word: string,
      delimiter: char, r: Outcome) returns (m': Marks)
    requires Inv(groups, args, m, count) && k < |args| && g < |groups| && k in groups[g]
    requires r.Done? && r.matched && Meaning(args[k], word, delimiter, r)
    requires Check(args[k := r.arg], groups, k).Count?
    ensures m'.used == m.used
    ensures var c := Check(args[k := r.arg], groups, k);
      Inv(groups, c.args, m', count + c.n) && (Counted(c.args, m') <==> Counted(args, m))
  {
    hide Check, Chose, OtherIsSet, ExcludeOthers, Open, Taken, Distinct, AllRequired, Disjoint, Meaning, MarksInv,
         SameDefinition, PlainInv, Counted;
    MatchMeans(args[k], word, delimiter, r);
    MarksParts(groups, args, m);
    var args1 := args[k := r.arg];
    var c := Check(args1, groups, k);
    CheckMeaning(groups, args1, g, k);
    assert GroupInv(groups[g], args, m);
    MemberOf(groups[g], args, m, k);
    m' := Choose(m, groups[g], k);
    if Open(groups[g], args, m) {
      CountChosen(m, groups[g], k);
      OpenStep(groups[g], args, m, k, args1, c.args);
    } else {
      var chosen: nat :| Taken(groups[g], args, m, chosen);
      TakenStep(groups[g], args, m, chosen, k, args1, c.args);
    }
    GroupKept(groups, args, m, g, k, r.arg, c.args);
    assert AllRequired(groups[g], args);
    GroupCounted(groups[g], args, m, k, r.arg, c.args);
  }

  // Whole runs.

  /** No switch of a group is set by a word without the parser being told: that happens to a switch that is
      not the last one found in a word of several. */
  ghost predicate WordReported(line: Line, s: State, k: nat)
    requires k <= |s.args| && s.i < |s.words|
    decreases |s.args| - k
  {
    if k == |s.args| then true
    else
      var r := Process(s.args[k], s.i, s.words, line.delimiter, s.ignoreRest);
      r.Done? && !r.matched ==>
        && (r.arg == s.args[k] || !r.arg.required)
        && WordReported(line, State(s.args[k := r.arg], r.words, r.i, s.count, r.ignoreRest), k + 1)
  }

  ghost predicate RunReported(line: Line, s: State)
    requires s.i <= |s.words|
    decreases |s.words| - s.i
  {
    if s.i == |s.words| then true
    else
      && WordReported(line, s, 0)
      && var r := TryFrom(line, s, 0);
        (r.Tried? ==> RunReported(line, r.state.(i := r.state.i + 1)))
  }

  lemma MatchKeeps(line: Line, args: seq<Arg>, m: Marks, count: nat, k: nat, word: string, r: Outcome)
    returns (m': Marks)
    requires Inv(line.groups, args, m, count) && k < |args|
    requires r.Done? && r.matched && Meaning(args[k], word, line.delimiter, r)
    requires Check(args[k := r.arg], line.groups, k).Count?
    ensures m'.used == m.used
    ensures var c := Check(args[k := r.arg], line.groups, k);
      && Inv(line.groups, c.args, m', count + c.n)
      && SameDefinitions(args, c.args)
      && (Counted(c.args, m') <==> Counted(args, m))
  {
    hide Inv, Counted;
    GroupOfPlain(line.groups, k);
    if Grouped(line.groups, k) {
      var g: nat :| g < |line.groups| && k in line.groups[g];
      m' := GroupStep(line.groups, args, m, count, g, k, word, line.delimiter, r);
    } else {
      m' := PlainStep(line.groups, args, m, count, k, word, line.delimiter, r);
    }
  }

  lemma {:induction false} TryKeeps(line: Line, s: State, k: nat, m: Marks) returns (m': Marks)
    requires k <= |s.args| && s.i < |s.words|
    requires Inv(line.groups, s.args, m, s.count)
    requires TryFrom(line, s, k).Tried?
    ensures m'.used == m.used
    ensures var s' := TryFrom(line, s, k).state;
      && Inv(line.groups, s'.args, m', s'.count)
      && SameDefinitions(s.args, s'.args)
      && (Counted(s'.args, m') <==> Counted(s.args, m) && WordReported(line, s, k))
    decreases |s.args| - k
  {
    hide Process, Check, Inv, Counted, Meaning;
    if k == |s.args| {
      m' := m;
    } else {
      var r := Process(s.args[k], s.i, s.words, line.delimiter, s.ignoreRest);
      ProcessMeaning(s.args[k], s.i, s.words, line.delimiter, s.ignoreRest);
      var s1 := State(s.args[k := r.arg], r.words, r.i, s.count, r.ignoreRest);
      if !r.matched {
        UnmatchedStep(line.groups, s.args, m, s.count, k, s.words[s.i], line.delimiter, r);
        UnmatchedCounted(line.groups, s.args, m, s.count, k, s.words[s.i], line.delimiter, r);
        m' := TryKeeps(line, s1, k + 1, m);
        SameDefinitionsTransitive(s.args, s1.args, TryFrom(line, s, k).state.args);
      } else {
        m' := MatchKeeps(line, s.args, m, s.count, k, s.words[s.i], r);
      }
    }
  }

  lemma {:induction false} LoopKeeps(line: Line, s: State, m: Marks) returns (m': Marks)
    requires s.i <= |s.words|
    requires Inv(line.groups, s.args, m, s.count)
    requires LoopFrom(line, s).Finishes?
    ensures m'.used == m.used
    ensures var s' := LoopFrom(line, s).state;
      && Inv(line.groups, s'.args, m', s'.count)
      && SameDefinitions(s.args, s'.args)
      && (Counted(s'.args, m') <==> Counted(s.args, m) && RunReported(line, s))
    decreases |s.words| - s.i
  {
    hide TryFrom, Inv, Counted, WordReported;
    if s.i == |s.words| {
      m' := m;
    } else {
      m' := TryKeeps(line, s, 0, m);
      var s1 := TryFrom(line, s, 0).state;
      m' := LoopKeeps(line, s1.(i := s1.i + 1), m');
      SameDefinitionsTransitive(s.args, s1.args, LoopFrom(line, s).state.args);
    }
  }

  /** The MultiArgs that `allowMore` from the start. */
  ghost function Used(args: seq<Arg>): set<nat> {
    set k: nat | k < |args| && args[k].kind.MultiArg? && args[k].allowMore
  }

  lemma InitialInv(line: Line, args: seq<Arg>)
    requires Initial(line, args)
    ensures var m := Marks(Used(args), {}, {}); Inv(line.groups, args, m, 0) && Counted(args, m)
  {
    var m := Marks(Used(args), {}, {});
    assert forall k | 0 <= k < |args| :: Unused(args[k]);
    forall g | 0 <= g < |line.groups| ensures GroupInv(line.groups[g], args, m) {
      assert Open(line.groups[g], args, m);
    }
    assert m.done - m.spent == {};
  }

  lemma GroupMet(group: seq<nat>, args: seq<Arg>, m: Marks)
    requires group != [] && AllRequired(group, args) && GroupInv(group, args, m)
    ensures (forall k: nat | k in group :: k in m.done) ==> ExactlyOne(group, args)
    ensures ExactlyOne(group, args) && Counted(args, m) ==> forall k: nat | k in group :: k in m.done
  {
    if forall k: nat | k in group :: k in m.done {
      assert group[0] in group;
      var c: nat :| Taken(group, args, m, c);
      assert IsSet(args[c]) && OnlyOne(group, args, c);
    }
    if ExactlyOne(group, args) && Counted(args, m) {
      var c: nat :| c in group && c < |args| && IsSet(args[c]);
      assert CountedAt(args[c], c, m);
    }
  }

  /** No group was chosen by a MultiArg that `allowMore` from the start. */
  ghost predicate NoneReused(groups: Groups, used: set<nat>, args: seq<Arg>) {
    forall k: nat | k < |args| && k in used && Grouped(groups, k) :: !IsSet(args[k])
  }

  lemma NothingSpent(groups: Groups, args: seq<Arg>, m: Marks, count: nat)
    requires Inv(groups, args, m, count)
    ensures m.spent == {} <==> NoneReused(groups, m.used, args)
  {
    if k: nat :| k < |args| && k in m.used && Grouped(groups, k) && IsSet(args[k]) {
      var g: nat :| g < |groups| && k in groups[g];
      assert GroupInv(groups[g], args, m);
      assert k in m.spent;
    }
    if k: nat :| k in m.spent {
      var g: nat :| g < |groups| && k in groups[g];
      assert GroupInv(groups[g], args, m) && AllRequired(groups[g], args);
      var c: nat :| Taken(groups[g], args, m, c);
      assert c in m.used && Grouped(groups, c) && IsSet(args[c]);
    }
  }

  /** A MultiArg is set exactly when it has values. */
  ghost predicate SetByValues(args: seq<Arg>) {
    forall k: nat | k < |args| && args[k].kind.MultiArg? ::
      IsSet(args[k]) <==> args[k].values != []
  }

  lemma ValuesSet(groups: Groups, args: seq<Arg>, m: Marks, count: nat)
    requires Inv(groups, args, m, count)
    ensures SetByValues(args)
  {
    forall k: nat | k < |args| && args[k].kind.MultiArg?
      ensures IsSet(args[k]) <==> args[k].values != []
    {
      if Grouped(groups, k) {
        var g: nat :| g < |groups| && k in groups[g];
        assert GroupInv(groups[g], args, m);
      } else {
        assert PlainInv(args[k], k, m);
      }
    }
  }

  lemma DoneMeets(groups: Groups, args: seq<Arg>, m: Marks, count: nat)
    requires Inv(groups, args, m, count) && m.done == Required(args)
    ensures Met(groups, args) && Counted(args, m)
  {
    hide GroupInv, ExactlyOne;
    forall g | 0 <= g < |groups| && groups[g] != [] ensures ExactlyOne(groups[g], args) {
      assert AllRequired(groups[g], args);
      GroupMet(groups[g], args, m);
    }
  }

  lemma MeetsDone(groups: Groups, args: seq<Arg>, m: Marks, count: nat)
    requires Inv(groups, args, m, count) && Met(groups, args) && Counted(args, m)
    ensures m.done == Required(args)
  {
    hide GroupInv, ExactlyOne;
    forall k: nat | k in Required(args) ensures k in m.done {
      if Grouped(groups, k) {
        var g: nat :| g < |groups| && k in groups[g];
        GroupMet(groups[g], args, m);
      } else {
        assert PlainInv(args[k], k, m);
      }
    }
  }

  /** The counting argument: the count reaches the number of requirements exactly when everything required
      has been met and counted. */
  lemma CountMeans(groups: Groups, args: seq<Arg>, m: Marks, count: nat)
    requires Inv(groups, args, m, count)
    ensures count <= |Required(args)|
    ensures count == |Required(args)| <==>
      Met(groups, args) && Counted(args, m) && NoneReused(groups, m.used, args)
  {
    hide Met, Counted, NoneReused, Required, GroupInv, PlainInv;
    SubsetSize(m.done - m.spent, Required(args));
    NothingSpent(groups, args, m, count);
    if m.done - m.spent == Required(args) {
      assert m.done == Required(args) && m.spent == {};
      DoneMeets(groups, args, m, count);
    }
    if Met(groups, args) && Counted(args, m) {
      MeetsDone(groups, args, m, count);
      assert m.spent == {} ==> m.done - m.spent == m.done;
    }
  }

  lemma SubsetSize(a: set<nat>, b: set<nat>)
    requires a <= b
    ensures |a| <= |b| && (|a| == |b| ==> a == b)
  {
    assert b == a + (b - a);
  }

  // The theorems.

  /** The loop of the parser never throws the exceptions that come from the count. */
  lemma {:induction false} LoopThrows(line: Line, s: State)
    requires s.i <= |s.words|
    ensures LoopFrom(line, s) != Fails(MissingArgs) && LoopFrom(line, s) != Fails(TooManyArgs)
    decreases |s.words| - s.i
  {
    hide TryFrom;
    if s.i < |s.words| {
      TryThrows(line, s, 0);
      var r := TryFrom(line, s, 0);
      if r.Tried? {
        LoopThrows(line, r.state.(i := r.state.i + 1));
      }
    }
  }

  lemma {:induction false} TryThrows(line: Line, s: State, k: nat)
    requires k <= |s.args| && s.i < |s.words|
    ensures TryFrom(line, s, k) != TryThrew(MissingArgs) && TryFrom(line, s, k) != TryThrew(TooManyArgs)
    decreases |s.args| - k
  {
    if k < |s.args| {
      var r := Process(s.args[k], s.i, s.words, line.delimiter, s.ignoreRest);
      ProcessThrows(s.args[k], s.i, s.words, line.delimiter, s.ignoreRest);
      hide Process;
      if r.Done? && !r.matched {
        TryThrows(line, State(s.args[k := r.arg], r.words, r.i, s.count, r.ignoreRest), k + 1);
      }
    }
  }

  lemma ProcessThrows(a: Arg, i: nat, words: seq<string>, delimiter: char, ignoreRest: bool)
    requires i < |words|
    ensures Process(a, i, words, delimiter, ignoreRest) != Threw(MissingArgs)
    ensures Process(a, i, words, delimiter, ignoreRest) != Threw(TooManyArgs)
  {
    hide ArgMatches, HasBlanks, TrimFlag, CombinedMatch, AllBlank;
  }

  /** A parse from the initial state that goes through every word ends well if and only if the requirements
      are met and no switch of a group was set unreported; and there are never too many arguments. */
  lemma RunExact(line: Line, args: seq<Arg>, words: seq<string>, ignoreRest: bool)
    requires Initial(line, args)
    ensures var start := State(args, words, 0, 0, ignoreRest);
      var run := LoopFrom(line, start);
      var r := Parse(line, args, words, ignoreRest);
      && r != Fails(TooManyArgs)
      && (run.Finishes? ==>
            && SameDefinitions(args, run.state.args)
            && SetByValues(run.state.args)
            && (r.Finishes? <==>
                  && Met(line.groups, run.state.args)
                  && RunReported(line, start)
                  && NoneReused(line.groups, Used(args), run.state.args)))
  {
    hide LoopFrom, Inv, Met, Counted, RunReported, NoneReused, SetByValues;
    var start := State(args, words, 0, 0, ignoreRest);
    LoopThrows(line, start);
    InitialInv(line, args);
    var run := LoopFrom(line, start);
    if run.Finishes? {
      var m := LoopKeeps(line, start, Marks(Used(args), {}, {}));
      CountMeans(line.groups, run.state.args, m, run.state.count);
      ValuesSet(line.groups, run.state.args, m, run.state.count);
      WellDefinedKept(line.groups, args, run.state.args);
    }
  }
}
