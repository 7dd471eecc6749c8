/** Logger configurations of easylogging++: the list of strings per level and type, and the compressed map of
    typed values that answers for it. */
module TypedConfig {
  import opened Bytes
  import opened Wrappers

  type Level = int
  type ConfigurationType = int

  const GLOBAL: Level := 1
  const MIN_VALID: Level := 2
  const MAX_VALID: Level := 128

  const ENABLED: ConfigurationType := 1
  const TO_STANDARD_OUTPUT: ConfigurationType := 4
  const MAX_LOG_FILE_SIZE: ConfigurationType := 128
  const LOG_FLUSH_THRESHOLD: ConfigurationType := 256

  datatype Configuration = Configuration(level: Level, kind: ConfigurationType, value: bytes)

  // The list.

  /** Index of the first entry for the pair, or the length of the list. */
  function Find(list: seq<Configuration>, level: Level, kind: ConfigurationType): (i: nat)
    ensures i <= |list| && (i < |list| ==> list[i].level == level && list[i].kind == kind)
    ensures forall j | 0 <= j < i :: !(list[j].level == level && list[j].kind == kind)
  {
    if list == [] || (list[0].level == level && list[0].kind == kind) then 0 else 1 + Find(list[1..], level, kind)
  }

  function Get(list: seq<Configuration>, level: Level, kind: ConfigurationType): Option<bytes> {
    var i := Find(list, level, kind);
    if i < |list| then Some(list[i].value) else None
  }

  /** One entry updated in place, or added at the end. */
  function Put(list: seq<Configuration>, level: Level, kind: ConfigurationType, value: bytes): seq<Configuration> {
    var i := Find(list, level, kind);
    if i < |list| then list[i := list[i].(value := value)] else list + [Configuration(level, kind, value)]
  }

  /** `index` and its doubles up to the last valid level. */
  predicate LevelFrom(index: Level, level: Level)
    requires index >= 1
    decreases 256 - index
  {
    index <= MAX_VALID && (level == index || LevelFrom(2 * index, level))
  }

  function PutFrom(list: seq<Configuration>, index: Level, kind: ConfigurationType, value: bytes): seq<Configuration>
    requires index >= 1
    decreases 256 - index
  {
    if index > MAX_VALID then list else PutFrom(Put(list, index, kind, value), 2 * index, kind, value)
  }

  function PutAll(list: seq<Configuration>, level: Level, kind: ConfigurationType, value: bytes): seq<Configuration> {
    var one := Put(list, level, kind, value);
    if level == GLOBAL then PutFrom(one, MIN_VALID, kind, value) else one
  }

  ghost predicate Unique(list: seq<Configuration>) {
    forall i, j | 0 <= i < j < |list| :: !(list[i].level == list[j].level && list[i].kind == list[j].kind)
  }

  lemma FindIs(list: seq<Configuration>, level: Level, kind: ConfigurationType, i: nat)
    requires i <= |list| && (i < |list| ==> list[i].level == level && list[i].kind == kind)
    requires forall j | 0 <= j < i :: !(list[j].level == level && list[j].kind == kind)
    ensures Find(list, level, kind) == i
  {
  }

  lemma PutFind(list: seq<Configuration>, level: Level, kind: ConfigurationType, value: bytes, l: Level,
      k: ConfigurationType)
    ensures var list' := Put(list, level, kind, value);
      && |list| <= |list'|
      && Find(list', l, k) == (if Find(list, l, k) < |list| then Find(list, l, k)
                               else if l == level && k == kind then |list| else |list'|)
      && (forall i | 0 <= i < |list| :: list'[i].level == list[i].level && list'[i].kind == list[i].kind)
      && (forall i | |list| <= i < |list'| :: list'[i].level == level && list'[i].kind == kind)
  {
    hide Find;
    var list' := Put(list, level, kind, value);
    var i := Find(list, l, k);
    if i < |list| {
      FindIs(list', l, k, i);
    } else if l == level && k == kind {
      FindIs(list', l, k, |list|);
    } else {
      FindIs(list', l, k, |list'|);
    }
  }

  lemma PutGet(list: seq<Configuration>, level: Level, kind: ConfigurationType, value: bytes, l: Level,
      k: ConfigurationType)
    ensures Get(Put(list, level, kind, value), l, k) == if l == level && k == kind then Some(value) else Get(list, l, k)
  {
    hide Find;
    PutFind(list, level, kind, value, l, k);
  }

  ghost predicate Absent(list: seq<Configuration>, kind: ConfigurationType) {
    forall i | 0 <= i < |list| :: list[i].kind != kind
  }

  /** The first entry of the type, at `f`. */
  ghost predicate First(list: seq<Configuration>, kind: ConfigurationType, f: nat) {
    f < |list| && list[f].kind == kind && Absent(list[..f], kind)
  }

  /** Entries stay in place, the pairs stay distinct, and a first entry of a type stays the first. */
  lemma PutKeeps(list: seq<Configuration>, level: Level, kind: ConfigurationType, value: bytes, k: ConfigurationType)
    ensures var list' := Put(list, level, kind, value);
      && (Unique(list) ==> Unique(list'))
      && (forall f: nat | First(list, k, f) :: First(list', k, f) && list'[f].level == list[f].level)
      && (Absent(list, k) ==>
            if k == kind then First(list', k, |list|) && list'[|list|].level == level else Absent(list', k))
  {
    hide Find;
    PutFind(list, level, kind, value, level, kind);
    var list' := Put(list, level, kind, value);
    forall f: nat | First(list, k, f) ensures First(list', k, f) {
      assert forall i | 0 <= i < f :: list'[i].kind == list[i].kind && list[i] == list[..f][i];
    }
    if Absent(list, k) {
      assert list'[..|list|] == list || k != kind;
    }
  }

  lemma {:induction false} PutFromGet(list: seq<Configuration>, index: Level, kind: ConfigurationType, value: bytes,
      l: Level, k: ConfigurationType)
    requires index >= 1
    ensures Get(PutFrom(list, index, kind, value), l, k) ==
      if k == kind && LevelFrom(index, l) then Some(value) else Get(list, l, k)
    decreases 256 - index
  {
    hide Get, Put;
    if index <= MAX_VALID {
      PutGet(list, index, kind, value, l, k);
      PutFromGet(Put(list, index, kind, value), 2 * index, kind, value, l, k);
    }
  }

  lemma {:induction false} PutFromKeeps(list: seq<Configuration>, index: Level, kind: ConfigurationType, value: bytes,
      k: ConfigurationType)
    requires index >= 1
    ensures var list' := PutFrom(list, index, kind, value);
      && (Unique(list) ==> Unique(list'))
      && (forall f: nat | First(list, k, f) :: First(list', k, f) && list'[f].level == list[f].level)
      && (Absent(list, k) && k != kind ==> Absent(list', k))
    decreases 256 - index
  {
    hide Get, Put, Unique, Absent, First;
    if index <= MAX_VALID {
      PutKeeps(list, index, kind, value, k);
      PutFromKeeps(Put(list, index, kind, value), 2 * index, kind, value, k);
    }
  }

  /** Writing the same value to the same levels again changes nothing. */
  lemma {:induction false} PutFromAgain(list: seq<Configuration>, index: Level, kind: ConfigurationType, value: bytes)
    requires index >= 1
    requires forall l | LevelFrom(index, l) :: Get(list, l, kind) == Some(value)
    ensures PutFrom(list, index, kind, value) == list
    decreases 256 - index
  {
    if index <= MAX_VALID {
      assert LevelFrom(index, index);
      assert Put(list, index, kind, value) == list;
      forall l | LevelFrom(2 * index, l) ensures Get(list, l, kind) == Some(value) {
        assert LevelFrom(index, l);
      }
      PutFromAgain(list, 2 * index, kind, value);
    }
  }

  lemma PutAllAgain(list: seq<Configuration>, kind: ConfigurationType, value: bytes)
    ensures var all := PutAll(list, GLOBAL, kind, value); PutFrom(all, MIN_VALID, kind, value) == all
  {
    hide Get, PutFrom;
    var all := PutAll(list, GLOBAL, kind, value);
    forall l | LevelFrom(MIN_VALID, l) ensures Get(all, l, kind) == Some(value) {
      PutFromGet(Put(list, GLOBAL, kind, value), MIN_VALID, kind, value, l, kind);
    }
    PutFromAgain(all, MIN_VALID, kind, value);
  }

  // Runs of `set`.

  datatype Setting = Setting(level: Level, kind: ConfigurationType, value: bytes)

  function Run(settings: seq<Setting>): seq<Configuration> {
    if settings == [] then []
    else
      var s := settings[|settings| - 1];
      PutAll(Run(settings[..|settings| - 1]), s.level, s.kind, s.value)
  }

  predicate Affects(s: Setting, level: Level, kind: ConfigurationType) {
    s.kind == kind && (s.level == level || (s.level == GLOBAL && LevelFrom(MIN_VALID, level)))
  }

  /** What the last setting for the pair said. */
  function LastSetting(settings: seq<Setting>, level: Level, kind: ConfigurationType): Option<bytes> {
    if settings == [] then None
    else
      var s := settings[|settings| - 1];
      if Affects(s, level, kind) then Some(s.value) else LastSetting(settings[..|settings| - 1], level, kind)
  }

  lemma PutAllGet(list: seq<Configuration>, s: Setting, l: Level, k: ConfigurationType)
    ensures Get(PutAll(list, s.level, s.kind, s.value), l, k) ==
            if Affects(s, l, k) then Some(s.value) else Get(list, l, k)
  {
    hide Get, Put, PutFrom;
    PutGet(list, s.level, s.kind, s.value, l, k);
    PutFromGet(Put(list, s.level, s.kind, s.value), MIN_VALID, s.kind, s.value, l, k);
  }

  lemma PutAllKeeps(list: seq<Configuration>, s: Setting, k: ConfigurationType)
    ensures var list' := PutAll(list, s.level, s.kind, s.value);
      && (Unique(list) ==> Unique(list'))
      && (forall f: nat | First(list, k, f) :: First(list', k, f) && list'[f].level == list[f].level)
      && (Absent(list, k) ==>
            if k == s.kind then First(list', k, |list|) && list'[|list|].level == s.level else Absent(list', k))
  {
    hide Get, Put, PutFrom, Unique, Absent, First;
    PutKeeps(list, s.level, s.kind, s.value, k);
    PutFromKeeps(Put(list, s.level, s.kind, s.value), MIN_VALID, s.kind, s.value, k);
  }

  /** After any run of `set`, every pair is listed at most once and holds what the last setting for it said. */
  lemma {:induction false} RunHolds(settings: seq<Setting>, level: Level, kind: ConfigurationType)
    ensures Unique(Run(settings))
    ensures Get(Run(settings), level, kind) == LastSetting(settings, level, kind)
  {
    if settings != [] {
      var before := settings[..|settings| - 1];
      RunHolds(before, level, kind);
      hide Get, PutAll, Unique;
      PutAllGet(Run(before), settings[|settings| - 1], level, kind);
      PutAllKeeps(Run(before), settings[|settings| - 1], kind);
    }
  }

  ghost predicate FirstSetting(settings: seq<Setting>, kind: ConfigurationType, j: nat) {
    j < |settings| && settings[j].kind == kind && forall i | 0 <= i < j :: settings[i].kind != kind
  }

  lemma {:induction false} RunAbsent(settings: seq<Setting>, kind: ConfigurationType)
    requires forall i | 0 <= i < |settings| :: settings[i].kind != kind
    ensures Absent(Run(settings), kind)
  {
    if settings != [] {
      var n := |settings| - 1;
      RunAbsent(settings[..n], kind);
      PutAllKeeps(Run(settings[..n]), settings[n], kind);
    }
  }

  /** The first entry of a type is for the level of the first setting of the type. */
  lemma {:induction false} RunFirst(settings: seq<Setting>, kind: ConfigurationType, j: nat) returns (f: nat)
    requires FirstSetting(settings, kind, j)
    ensures First(Run(settings), kind, f) && Run(settings)[f].level == settings[j].level
  {
    hide PutAll, First, Absent;
    var n := |settings| - 1;
    var list := Run(settings[..n]);
    PutAllKeeps(list, settings[n], kind);
    if j == n {
      RunAbsent(settings[..n], kind);
      f := |list|;
    } else {
      f := RunFirst(settings[..n], kind, j);
    }
  }

  // The compressed map.

  function SetValue<V(==)>(m: map<Level, V>, level: Level, value: V): (r: map<Level, V>)
    ensures GLOBAL in r || level in r
  {
    if m == map[] then map[GLOBAL := value]
    else if GLOBAL in m && m[GLOBAL] == value then m
    else m[level := value]
  }

  /** What `build` makes of the entries of one type. */
  function Build<V(==)>(list: seq<Configuration>, kind: ConfigurationType, parse: bytes -> V): map<Level, V> {
    if list == [] then map[]
    else
      var m := Build(list[..|list| - 1], kind, parse);
      var c := list[|list| - 1];
      if c.kind == kind then SetValue(m, c.level, parse(c.value)) else m
  }

  /** `unsafeGetConfigByVal`; None stands for the default value it returns with an error message. */
  function Lookup<V>(m: map<Level, V>, level: Level): Option<V> {
    if level in m then Some(m[level]) else if GLOBAL in m then Some(m[GLOBAL]) else None
  }

  /** The entry of the type for the Global level, or else the entry `f`. */
  ghost function GlobalOr(list: seq<Configuration>, kind: ConfigurationType, f: nat): (g: nat)
    requires f < |list|
    ensures g < |list|
  {
    var g := Find(list, GLOBAL, kind);
    if g < |list| then g else f
  }

  /** The map answers every listed entry of the type with its value. */
  ghost predicate Answers<V>(m: map<Level, V>, list: seq<Configuration>, kind: ConfigurationType, parse: bytes -> V) {
    forall i | 0 <= i < |list| && list[i].kind == kind :: Lookup(m, list[i].level) == Some(parse(list[i].value))
  }

  ghost predicate HasLevel(list: seq<Configuration>, kind: ConfigurationType, level: Level) {
    exists i | 0 <= i < |list| :: list[i].kind == kind && list[i].level == level
  }

  lemma {:induction false} BuildEmpty<V>(list: seq<Configuration>, kind: ConfigurationType, parse: bytes -> V)
    ensures Build(list, kind, parse) == map[] <==> Absent(list, kind)
  {
    if list != [] {
      BuildEmpty(list[..|list| - 1], kind, parse);
    }
  }

  lemma {:induction false} BuildKeys<V>(list: seq<Configuration>, kind: ConfigurationType, parse: bytes -> V, l: Level)
    requires l in Build(list, kind, parse)
    ensures l == GLOBAL || HasLevel(list, kind, l)
  {
    if list != [] {
      var n := |list| - 1;
      if l in Build(list[..n], kind, parse) {
        BuildKeys(list[..n], kind, parse, l);
        if HasLevel(list[..n], kind, l) {
          var i :| 0 <= i < n && list[..n][i].kind == kind && list[..n][i].level == l;
          assert list[i].kind == kind;
        }
      } else {
        assert list[n].kind == kind;
      }
    }
  }

  lemma FindPrefix(list: seq<Configuration>, level: Level, kind: ConfigurationType)
    requires list != []
    ensures var n := |list| - 1;
      Find(list, level, kind) ==
        if Find(list[..n], level, kind) < n then Find(list[..n], level, kind)
        else if list[n].level == level && list[n].kind == kind then n else n + 1
  {
    hide Find;
    var n := |list| - 1;
    var before := list[..n];
    var i := Find(before, level, kind);
    assert forall j | 0 <= j < i :: list[j] == before[j];
    FindIs(list, level, kind, if i < n then i else if list[n].level == level && list[n].kind == kind then n else n + 1);
  }

  /** The Global value of the map is that of the Global entry, or else that of the first entry, whose own level
      then has no value. */
  lemma {:induction false} BuildGlobal<V>(list: seq<Configuration>, kind: ConfigurationType, parse: bytes -> V, f: nat)
    requires Unique(list) && First(list, kind, f)
    ensures var m := Build(list, kind, parse);
      && GLOBAL in m && m[GLOBAL] == parse(list[GlobalOr(list, kind, f)].value)
      && (list[f].level != GLOBAL ==> list[f].level !in m)
  {
    var n := |list| - 1;
    hide Find;
    FindPrefix(list, GLOBAL, kind);
    if f == n {
      BuildEmpty(list[..n], kind, parse);
      assert Find(list[..n], GLOBAL, kind) == n;
    } else {
      assert list[..n][..f] == list[..f];
      BuildGlobal(list[..n], kind, parse, f);
    }
  }

  lemma AnswersStep<V>(list: seq<Configuration>, kind: ConfigurationType, parse: bytes -> V, f: nat)
    requires Unique(list) && First(list, kind, f) && f < |list| - 1
    requires var before := list[..|list| - 1];
      && Answers(Build(before, kind, parse), before, kind, parse)
      && GLOBAL in Build(before, kind, parse)
      && Build(before, kind, parse)[GLOBAL] == parse(list[f].value)
    requires Build(list, kind, parse)[GLOBAL] == parse(list[f].value)
    ensures Answers(Build(list, kind, parse), list, kind, parse)
  {
    var n := |list| - 1;
    var before := list[..n];
    var m, m' := Build(before, kind, parse), Build(list, kind, parse);
    forall i | 0 <= i < |list| && list[i].kind == kind
      ensures Lookup(m', list[i].level) == Some(parse(list[i].value))
    {
      if i < n {
        assert Lookup(m, before[i].level) == Some(parse(before[i].value));
      } else if list[n].level in m {
        BuildKeys(before, kind, parse, list[n].level);
      }
    }
  }

  /** An entry with a level of its own is answered, and so stay those before it. */
  lemma {:induction false} BuildAnswers<V>(list: seq<Configuration>, kind: ConfigurationType, parse: bytes -> V, f: nat)
    requires Unique(list) && First(list, kind, f)
    requires parse(list[GlobalOr(list, kind, f)].value) == parse(list[f].value)
    ensures Answers(Build(list, kind, parse), list, kind, parse)
  {
    var n := |list| - 1;
    hide Find;
    FindPrefix(list, GLOBAL, kind);
    BuildGlobal(list, kind, parse, f);
    if f < n {
      assert list[..n][..f] == list[..f];
      BuildGlobal(list[..n], kind, parse, f);
      BuildAnswers(list[..n], kind, parse, f);
      AnswersStep(list, kind, parse, f);
    }
  }

  /** The compressed map agrees with the list exactly when there is no Global entry of the type, or it parses
      to the same value as the first entry of the type. */
  lemma BuildExact<V>(list: seq<Configuration>, kind: ConfigurationType, parse: bytes -> V, f: nat)
    requires Unique(list) && First(list, kind, f)
    ensures var g := Find(list, GLOBAL, kind);
      Answers(Build(list, kind, parse), list, kind, parse) <==>
        (g < |list| ==> parse(list[g].value) == parse(list[f].value))
  {
    hide Find;
    BuildGlobal(list, kind, parse, f);
    if parse(list[GlobalOr(list, kind, f)].value) == parse(list[f].value) {
      BuildAnswers(list, kind, parse, f);
    } else {
      assert Lookup(Build(list, kind, parse), list[f].level) != Some(parse(list[f].value));
    }
  }

  /** Every level set answers with what the last setting for it said, parsed. */
  ghost predicate Answered<V>(m: map<Level, V>, settings: seq<Setting>, kind: ConfigurationType, parse: bytes -> V) {
    forall l | LastSetting(settings, l, kind).Some? :: Lookup(m, l) == Some(parse(LastSetting(settings, l, kind).value))
  }

  lemma AnswersAnswered<V>(m: map<Level, V>, settings: seq<Setting>, kind: ConfigurationType, parse: bytes -> V)
    ensures Answers(m, Run(settings), kind, parse) <==> Answered(m, settings, kind, parse)
  {
    hide Run, LastSetting, Find, Lookup;
    var list := Run(settings);
    forall l ensures Get(list, l, kind) == LastSetting(settings, l, kind) {
      RunHolds(settings, l, kind);
    }
    if Answers(m, list, kind, parse) {
      forall l | LastSetting(settings, l, kind).Some?
        ensures Lookup(m, l) == Some(parse(LastSetting(settings, l, kind).value))
      {
        assert Get(list, l, kind).Some?;
        assert list[Find(list, l, kind)].level == l;
      }
    }
    if Answered(m, settings, kind, parse) {
      RunHolds(settings, GLOBAL, kind);
      forall i | 0 <= i < |list| && list[i].kind == kind
        ensures Lookup(m, list[i].level) == Some(parse(list[i].value))
      {
        FindIs(list, list[i].level, kind, i);
        assert Get(list, list[i].level, kind) == Some(list[i].value);
      }
    }
  }

  /** From settings to typed values, exactly: all levels answer with their last setting if and only if Global
      was never set for the type, or its last value parses to that of the level that was set first. */
  lemma SettingsExact<V>(settings: seq<Setting>, kind: ConfigurationType, parse: bytes -> V, j: nat)
    requires FirstSetting(settings, kind, j)
    ensures LastSetting(settings, settings[j].level, kind).Some?
    ensures var g := LastSetting(settings, GLOBAL, kind);
      Answered(Build(Run(settings), kind, parse), settings, kind, parse) <==>
        (g.Some? ==> parse(g.value) == parse(LastSetting(settings, settings[j].level, kind).value))
  {
    hide Run, LastSetting, Build, Find, Answers, Answered;
    var list := Run(settings);
    var f := RunFirst(settings, kind, j);
    RunHolds(settings, GLOBAL, kind);
    RunHolds(settings, list[f].level, kind);
    FindIs(list, list[f].level, kind, f);
    BuildExact(list, kind, parse, f);
    AnswersAnswered(Build(list, kind, parse), settings, kind, parse);
  }

  /** In particular they do when the type is set globally first. */
  lemma GlobalFirstAnswered<V>(settings: seq<Setting>, kind: ConfigurationType, parse: bytes -> V, j: nat)
    requires FirstSetting(settings, kind, j) && settings[j].level == GLOBAL
    ensures Answered(Build(Run(settings), kind, parse), settings, kind, parse)
  {
    hide Run, LastSetting, Build, Answered;
    SettingsExact(settings, kind, parse, j);
  }

  /** And they do not when a level is set before Global and again, to another value, after it. */
  lemma LevelBeforeGlobal<V>(level: Level, kind: ConfigurationType, x: bytes, g: bytes, parse: bytes -> V)
    requires level != GLOBAL && parse(x) != parse(g)
    ensures
      var settings := [Setting(level, kind, x), Setting(GLOBAL, kind, g), Setting(level, kind, x)];
      !Answered(Build(Run(settings), kind, parse), settings, kind, parse)
  {
    hide Run, Build, Answered;
    var settings := [Setting(level, kind, x), Setting(GLOBAL, kind, g), Setting(level, kind, x)];
    assert LastSetting(settings, level, kind) == Some(x);
    assert LastSetting(settings[..2], GLOBAL, kind) == Some(g);
    SettingsExact(settings, kind, parse, 0);
  }
}
