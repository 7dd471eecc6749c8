/** The objects that hold the configurations, and the loops that set and build them, proved against module
    TypedConfig. */
module TypedConfigBuild {
  import opened Bytes
  import opened TypedConfig
  import opened Wrappers

  /** `isspace`. */
  predicate IsLocaleSpace(c: byte) {
    c == 0x20 || 0x09 <= c <= 0x0D
  }

  /** `Str::trim`. */
  function Trim(s: bytes): bytes {
    if s != [] && IsLocaleSpace(s[|s| - 1]) then Trim(s[..|s| - 1])
    else if s != [] && IsLocaleSpace(s[0]) then Trim(s[1..])
    else s
  }

  const TRUE_UPPER: bytes := [0x54, 0x52, 0x55, 0x45]
  const TRUE_LOWER: bytes := [0x74, 0x72, 0x75, 0x65]

  function GetBool(s: bytes): bool {
    var t := Trim(s);
    t == TRUE_UPPER || t == TRUE_LOWER || t == [0x31]
  }

  /** `getULong`, which answers 0 with an error message when the text is not a numeral. */
  function GetULong(s: bytes): int {
    var t := Trim(s);
    if t != [] && AllDigits(t) then NatOf(t) else 0
  }

  // What a text means as a value.

  predicate IsWhite(c: byte) {
    c in Ascii(" \t\n\r") + [0x0B, 0x0C]
  }

  predicate AllWhite(w: bytes) {
    forall k | 0 <= k < |w| :: IsWhite(w[k])
  }

  /** `v` is `t` with white space on both sides, as far as there is any. */
  predicate Padded(v: bytes, before: bytes, t: bytes, after: bytes) {
    && v == before + t + after && AllWhite(before) && AllWhite(after)
    && (t != [] ==> !IsWhite(t[0]) && !IsWhite(t[|t| - 1]))
  }

  lemma SpaceCharacters()
    ensures forall c: byte :: IsLocaleSpace(c) <==> IsWhite(c)
  {
    assert Ascii(" \t\n\r") == [0x20, 0x09, 0x0A, 0x0D];
  }

  lemma PadAfter(v: bytes, before: bytes, t: bytes, after: bytes, c: byte)
    requires IsWhite(c)
    ensures Padded(v + [c], before, t, after + [c]) <==> Padded(v, before, t, after)
  {
    hide IsWhite;
    var all := after + [c];
    assert before + t + all == before + t + after + [c];
    assert v + [c] == before + t + all ==> (v + [c])[..|v|] == (before + t + all)[..|v|] == before + t + after;
    assert AllWhite(all) <==> AllWhite(after) by {
      assert forall k | 0 <= k < |after| :: all[k] == after[k];
    }
  }

  lemma PadBefore(v: bytes, before: bytes, t: bytes, after: bytes, c: byte)
    requires IsWhite(c)
    ensures Padded([c] + v, [c] + before, t, after) <==> Padded(v, before, t, after)
  {
    hide IsWhite;
    var all := [c] + before;
    assert all + t + after == [c] + (before + t + after);
    assert [c] + v == all + t + after ==> ([c] + v)[1..] == (all + t + after)[1..] == before + t + after;
    assert AllWhite(all) <==> AllWhite(before) by {
      assert forall k | 0 <= k < |before| :: all[k + 1] == before[k];
    }
  }

  lemma NotPadded(v: bytes)
    ensures Padded(v, [], v, []) <==> (v != [] ==> !IsWhite(v[0]) && !IsWhite(v[|v| - 1]))
  {
    assert [] + v + [] == v;
  }

  /** Every text is what `trim` leaves, with white space around it. */
  lemma {:induction false} TrimIs(v: bytes) returns (before: bytes, after: bytes)
    ensures Padded(v, before, Trim(v), after)
    decreases |v|
  {
    SpaceCharacters();
    hide IsLocaleSpace, IsWhite, Padded;
    NotPadded(v);
    if v != [] && IsLocaleSpace(v[|v| - 1]) {
      var rest := v[..|v| - 1];
      before, after := TrimIs(rest);
      PadAfter(rest, before, Trim(v), after, v[|v| - 1]);
      assert v == rest + [v[|v| - 1]];
      after := after + [v[|v| - 1]];
    } else if v != [] && IsLocaleSpace(v[0]) {
      before, after := TrimIs(v[1..]);
      PadBefore(v[1..], before, Trim(v), after, v[0]);
      assert v == [v[0]] + v[1..];
      before := [v[0]] + before;
    } else {
      before, after := [], [];
    }
  }

  /** There is only one text without white space at its ends that white space can surround to give `v`. */
  lemma PaddedUnique(v: bytes, before: bytes, t: bytes, after: bytes, before': bytes, t': bytes, after': bytes)
    requires Padded(v, before, t, after) && Padded(v, before', t', after')
    ensures t == t'
  {
    hide IsWhite;
    assert AllWhite(v) <==> t == [] by {
      WhiteIffEmpty(v, before, t, after);
    }
    assert AllWhite(v) <==> t' == [] by {
      WhiteIffEmpty(v, before', t', after');
    }
    if t != [] {
      assert v[|before|] == t[0] && v[|before'|] == t'[0];
      assert |before| == |before'|;
      var n, n' := |before| + |t|, |before'| + |t'|;
      assert v[n - 1] == t[|t| - 1] && v[n' - 1] == t'[|t'| - 1];
      assert |v| == n + |after| == n' + |after'|;
      assert forall k | n <= k < |v| :: v[k] == after[k - n];
      assert forall k | n' <= k < |v| :: v[k] == after'[k - n'];
      assert t == v[|before|..n] && t' == v[|before'|..n'];
    }
  }

  lemma WhiteIffEmpty(v: bytes, before: bytes, t: bytes, after: bytes)
    requires Padded(v, before, t, after)
    ensures AllWhite(v) <==> t == []
  {
    hide IsWhite;
    if t != [] {
      assert v[|before|] == t[0];
    }
  }

  /** `trim` takes off the white space and nothing else. */
  lemma TrimPadded(v: bytes, before: bytes, t: bytes, after: bytes)
    requires Padded(v, before, t, after)
    ensures Trim(v) == t
  {
    hide Trim, Padded;
    var before', after' := TrimIs(v);
    PaddedUnique(v, before, t, after, before', Trim(v), after');
  }

  /** Texts that say yes, with white space around them. */
  ghost predicate SaysTrue(v: bytes) {
    exists before, t, after :: Padded(v, before, t, after) && t in {Ascii("TRUE"), Ascii("true"), Ascii("1")}
  }

  /** The number that a numeral denotes, with white space around it, and 0 for any other text. */
  ghost predicate SaysNumber(v: bytes, n: int) {
    exists before, t, after :: Padded(v, before, t, after) &&
      n == if t != [] && (forall k | 0 <= k < |t| :: t[k] in Ascii("0123456789")) then NatOf(t) else 0
  }

  lemma GetBoolExact(v: bytes)
    ensures GetBool(v) <==> SaysTrue(v)
  {
    assert Ascii("TRUE") == TRUE_UPPER && Ascii("true") == TRUE_LOWER && Ascii("1") == [0x31];
    hide Trim, Padded, Ascii;
    var before, after := TrimIs(v);
    if before', t, after' :| Padded(v, before', t, after') && t in {Ascii("TRUE"), Ascii("true"), Ascii("1")} {
      TrimPadded(v, before', t, after');
    }
  }

  lemma GetULongExact(v: bytes, n: int)
    ensures GetULong(v) == n <==> SaysNumber(v, n)
  {
    forall c: byte ensures IsDigit(c) <==> c in Ascii("0123456789") {
      DigitCharacters(c);
    }
    hide Trim, Padded, Ascii, IsDigit, NatOf;
    var before, after := TrimIs(v);
    forall before', t, after' | Padded(v, before', t, after') ensures t == Trim(v) {
      TrimPadded(v, before', t, after');
    }
  }

  lemma DigitCharacters(c: byte)
    ensures IsDigit(c) <==> c in Ascii("0123456789")
  {
    assert forall k | 0 <= k < 10 :: Ascii("0123456789")[k] == 0x30 + k;
    if IsDigit(c) {
      assert Ascii("0123456789")[c - 0x30] == c;
    }
  }

  /** A number that was printed is read back, whatever white space surrounds it. */
  lemma GetULongPrinted(before: bytes, n: nat, after: bytes)
    requires Padded(before + Decimal(n) + after, before, Decimal(n), after)
    ensures GetULong(before + Decimal(n) + after) == n
  {
    TrimPadded(before + Decimal(n) + after, before, Decimal(n), after);
    NatOfDecimal(n);
  }

  class Configurations {
    var list: seq<Configuration>

    constructor ()
      ensures list == []
    {
      list := [];
    }

    /** `RegistryWithPred::get`: the index of the entry. */
    method GetEntry(level: Level, kind: ConfigurationType) returns (i: nat)
      ensures i == Find(list, level, kind)
    {
      i := 0;
      while i < |list| && !(list[i].level == level && list[i].kind == kind)
        invariant i <= |list|
        invariant forall j | 0 <= j < i :: !(list[j].level == level && list[j].kind == kind)
      {
        i := i + 1;
      }
      FindIs(list, level, kind, i);
    }

    method UnsafeSet(level: Level, kind: ConfigurationType, value: bytes)
      modifies this
      ensures list == PutAll(old(list), level, kind, value)
      decreases level == GLOBAL, 1
    {
      var i := GetEntry(level, kind);
      if i == |list| {
        list := list + [Configuration(level, kind, value)];
      } else {
        list := list[i := list[i].(value := value)];
      }
      if level == GLOBAL {
        UnsafeSetGlobally(kind, value);
      }
    }

    /** `unsafeSetGlobally` without the Global level itself, with the loop of `forEachLevel`. */
    method UnsafeSetGlobally(kind: ConfigurationType, value: bytes)
      modifies this
      ensures list == PutFrom(old(list), MIN_VALID, kind, value)
      decreases true, 0
    {
      var index := MIN_VALID;
      while index <= MAX_VALID
        invariant index >= MIN_VALID
        invariant PutFrom(list, index, kind, value) == PutFrom(old(list), MIN_VALID, kind, value)
        decreases 256 - index
      {
        UnsafeSet(index, kind, value);
        index := 2 * index;
      }
    }

    /** `set` writes the levels below Global a second time. */
    method Set(level: Level, kind: ConfigurationType, value: bytes)
      modifies this
      ensures list == PutAll(old(list), level, kind, value)
    {
      UnsafeSet(level, kind, value);
      if level == GLOBAL {
        UnsafeSetGlobally(kind, value);
        PutAllAgain(old(list), kind, value);
      }
    }

    /** A run of `set` on a new object. */
    method SetRun(settings: seq<Setting>)
      requires list == []
      modifies this
      ensures list == Run(settings)
    {
      var i := 0;
      while i < |settings|
        invariant 0 <= i <= |settings|
        invariant list == Run(settings[..i])
      {
        assert settings[..i + 1][..i] == settings[..i];
        Set(settings[i].level, settings[i].kind, settings[i].value);
        i := i + 1;
      }
      assert settings[..i] == settings;
    }
  }

  class TypedConfigurations {
    var enabledMap: map<Level, bool>
    var toStandardOutputMap: map<Level, bool>
    var maxLogFileSizeMap: map<Level, int>
    var logFlushThresholdMap: map<Level, int>

    /** `setValue` on one of the maps. */
    static method SetConfig<V(==)>(level: Level, value: V, confMap: map<Level, V>) returns (m: map<Level, V>)
      ensures m == SetValue(confMap, level, value)
    {
      m := confMap;
      if m == map[] {
        m := m[GLOBAL := value];
        return;
      }
      if GLOBAL in m && m[GLOBAL] == value {
        return;
      }
      m := m[level := value];
    }

    /** `build` fills the four maps in one pass over the list. */
    constructor (configurations: Configurations)
      ensures enabledMap == Build(configurations.list, ENABLED, GetBool)
      ensures toStandardOutputMap == Build(configurations.list, TO_STANDARD_OUTPUT, GetBool)
      ensures maxLogFileSizeMap == Build(configurations.list, MAX_LOG_FILE_SIZE, GetULong)
      ensures logFlushThresholdMap == Build(configurations.list, LOG_FLUSH_THRESHOLD, GetULong)
    {
      enabledMap, toStandardOutputMap, maxLogFileSizeMap, logFlushThresholdMap := map[], map[], map[], map[];
      new;
      var list := configurations.list;
      var i := 0;
      while i < |list|
        invariant 0 <= i <= |list| && configurations.list == list
        invariant enabledMap == Build(list[..i], ENABLED, GetBool)
        invariant toStandardOutputMap == Build(list[..i], TO_STANDARD_OUTPUT, GetBool)
        invariant maxLogFileSizeMap == Build(list[..i], MAX_LOG_FILE_SIZE, GetULong)
        invariant logFlushThresholdMap == Build(list[..i], LOG_FLUSH_THRESHOLD, GetULong)
      {
        var c := list[i];
        assert list[..i + 1][..i] == list[..i];
        if c.kind == ENABLED {
          enabledMap := SetConfig(c.level, GetBool(c.value), enabledMap);
        } else if c.kind == TO_STANDARD_OUTPUT {
          toStandardOutputMap := SetConfig(c.level, GetBool(c.value), toStandardOutputMap);
        } else if c.kind == MAX_LOG_FILE_SIZE {
          maxLogFileSizeMap := SetConfig(c.level, GetULong(c.value), maxLogFileSizeMap);
        } else if c.kind == LOG_FLUSH_THRESHOLD {
          logFlushThresholdMap := SetConfig(c.level, GetULong(c.value), logFlushThresholdMap);
        }
        i := i + 1;
      }
      assert list[..i] == list;
    }

    static method GetConfigByVal<V>(level: Level, confMap: map<Level, V>) returns (v: Option<V>)
      ensures v == Lookup(confMap, level)
    {
      if level !in confMap {
        if GLOBAL in confMap {
          return Some(confMap[GLOBAL]);
        }
        return None;
      }
      return Some(confMap[level]);
    }
  }

  /** Global was never set for the type, or its last value parses to that of the level that was set first. */
  ghost predicate Consistent<V>(settings: seq<Setting>, kind: ConfigurationType, parse: bytes -> V) {
    var g := LastSetting(settings, GLOBAL, kind);
    forall j: nat | FirstSetting(settings, kind, j) ::
      var first := LastSetting(settings, settings[j].level, kind);
      g.Some? && first.Some? ==> parse(g.value) == parse(first.value)
  }

  lemma FindFirst(settings: seq<Setting>, kind: ConfigurationType) returns (j: nat)
    ensures if j < |settings| then FirstSetting(settings, kind, j)
            else forall i | 0 <= i < |settings| :: settings[i].kind != kind
  {
    j := 0;
    while j < |settings| && settings[j].kind != kind
      invariant forall i | 0 <= i < j :: i < |settings| && settings[i].kind != kind
    {
      j := j + 1;
    }
  }

  lemma {:induction false} NeverSet(settings: seq<Setting>, kind: ConfigurationType)
    requires forall i | 0 <= i < |settings| :: settings[i].kind != kind
    ensures forall l :: LastSetting(settings, l, kind) == None
  {
    if settings != [] {
      NeverSet(settings[..|settings| - 1], kind);
    }
  }

  lemma ConsistentExact<V>(settings: seq<Setting>, kind: ConfigurationType, parse: bytes -> V)
    ensures Answered(Build(Run(settings), kind, parse), settings, kind, parse) <==> Consistent(settings, kind, parse)
  {
    hide Run, Build, LastSetting;
    var j := FindFirst(settings, kind);
    if j < |settings| {
      SettingsExact(settings, kind, parse, j);
    } else {
      NeverSet(settings, kind);
    }
  }

  /** Setting, building and looking up, end to end: a type whose settings are consistent answers every level that was
      set with its last setting, and with settings that are not consistent some level is answered otherwise. */
  method SetBuildLookup(settings: seq<Setting>, level: Level)
    returns (typed: TypedConfigurations, enabled: Option<bool>, toStandardOutput: Option<bool>,
             maxLogFileSize: Option<int>, logFlushThreshold: Option<int>)
    ensures Answered(typed.enabledMap, settings, ENABLED, GetBool) <==> Consistent(settings, ENABLED, GetBool)
    ensures Answered(typed.toStandardOutputMap, settings, TO_STANDARD_OUTPUT, GetBool) <==>
            Consistent(settings, TO_STANDARD_OUTPUT, GetBool)
    ensures Answered(typed.maxLogFileSizeMap, settings, MAX_LOG_FILE_SIZE, GetULong) <==>
            Consistent(settings, MAX_LOG_FILE_SIZE, GetULong)
    ensures Answered(typed.logFlushThresholdMap, settings, LOG_FLUSH_THRESHOLD, GetULong) <==>
            Consistent(settings, LOG_FLUSH_THRESHOLD, GetULong)
    ensures var last := LastSetting(settings, level, ENABLED);
      Consistent(settings, ENABLED, GetBool) && last.Some? ==> enabled == Some(SaysTrue(last.value))
    ensures var last := LastSetting(settings, level, TO_STANDARD_OUTPUT);
      Consistent(settings, TO_STANDARD_OUTPUT, GetBool) && last.Some? ==> toStandardOutput == Some(SaysTrue(last.value))
    ensures var last := LastSetting(settings, level, MAX_LOG_FILE_SIZE);
      Consistent(settings, MAX_LOG_FILE_SIZE, GetULong) && last.Some? ==>
        maxLogFileSize.Some? && SaysNumber(last.value, maxLogFileSize.value)
    ensures var last := LastSetting(settings, level, LOG_FLUSH_THRESHOLD);
      Consistent(settings, LOG_FLUSH_THRESHOLD, GetULong) && last.Some? ==>
        logFlushThreshold.Some? && SaysNumber(last.value, logFlushThreshold.value)
    ensures enabled == Lookup(typed.enabledMap, level)
    ensures toStandardOutput == Lookup(typed.toStandardOutputMap, level)
    ensures maxLogFileSize == Lookup(typed.maxLogFileSizeMap, level)
    ensures logFlushThreshold == Lookup(typed.logFlushThresholdMap, level)
  {
    hide Run, Build, Lookup, Answered, Consistent, LastSetting, SaysTrue, SaysNumber, GetBool, GetULong;
    var configurations := new Configurations();
    configurations.SetRun(settings);
    typed := new TypedConfigurations(configurations);
    enabled := TypedConfigurations.GetConfigByVal(level, typed.enabledMap);
    toStandardOutput := TypedConfigurations.GetConfigByVal(level, typed.toStandardOutputMap);
    maxLogFileSize := TypedConfigurations.GetConfigByVal(level, typed.maxLogFileSizeMap);
    logFlushThreshold := TypedConfigurations.GetConfigByVal(level, typed.logFlushThresholdMap);
    ConsistentExact(settings, ENABLED, GetBool);
    ConsistentExact(settings, TO_STANDARD_OUTPUT, GetBool);
    ConsistentExact(settings, MAX_LOG_FILE_SIZE, GetULong);
    ConsistentExact(settings, LOG_FLUSH_THRESHOLD, GetULong);
    BoolAnswer(settings, level, ENABLED);
    BoolAnswer(settings, level, TO_STANDARD_OUTPUT);
    NumberAnswer(settings, level, MAX_LOG_FILE_SIZE);
    NumberAnswer(settings, level, LOG_FLUSH_THRESHOLD);
  }

  /** What a level of a type with consistent settings answers, in the words of its last setting. */
  lemma BoolAnswer(settings: seq<Setting>, level: Level, kind: ConfigurationType)
    ensures var last := LastSetting(settings, level, kind);
      Consistent(settings, kind, GetBool) && last.Some? ==>
        Lookup(Build(Run(settings), kind, GetBool), level) == Some(SaysTrue(last.value))
  {
    hide Run, Build, Lookup, Consistent, LastSetting, SaysTrue, GetBool;
    ConsistentExact(settings, kind, GetBool);
    var last := LastSetting(settings, level, kind);
    if last.Some? {
      GetBoolExact(last.value);
    }
  }

  lemma NumberAnswer(settings: seq<Setting>, level: Level, kind: ConfigurationType)
    ensures var last := LastSetting(settings, level, kind);
      Consistent(settings, kind, GetULong) && last.Some? ==>
        var r := Lookup(Build(Run(settings), kind, GetULong), level);
        r.Some? && SaysNumber(last.value, r.value)
  {
    hide Run, Build, Lookup, Consistent, LastSetting, SaysNumber, GetULong;
    ConsistentExact(settings, kind, GetULong);
    var last := LastSetting(settings, level, kind);
    if last.Some? {
      GetULongExact(last.value, GetULong(last.value));
    }
  }

  /** The enumerators of the source. */
  lemma Enumerators()
    ensures [GLOBAL, MIN_VALID, MAX_VALID] == [1, 2, 128]
    ensures [ENABLED, TO_STANDARD_OUTPUT, MAX_LOG_FILE_SIZE, LOG_FLUSH_THRESHOLD] == [1, 4, 128, 256]
  {
  }

  /** The last setting of a level, said without the loop over levels: the last one for it, or for Global if it is one of
      the levels from Trace to Info. */
  lemma AffectsExact(s: Setting, level: Level, kind: ConfigurationType)
    ensures Affects(s, level, kind) <==>
      s.kind == kind && (s.level == level || (s.level == 1 && level in {2, 4, 8, 16, 32, 64, 128}))
  {
    assert LevelFrom(256, level) == false;
    assert LevelFrom(128, level) <==> level == 128;
    assert LevelFrom(64, level) <==> level in {64, 128};
    assert LevelFrom(32, level) <==> level in {32, 64, 128};
    assert LevelFrom(16, level) <==> level in {16, 32, 64, 128};
    assert LevelFrom(8, level) <==> level in {8, 16, 32, 64, 128};
    assert LevelFrom(4, level) <==> level in {4, 8, 16, 32, 64, 128};
  }
}
