/** Key-value pairs of consul. The value survives base64 and JSON; the whole pair does not survive, since its
    numbers are written as strings and only accepted as numbers. */
module KvPairs {
  import opened Bytes
  import opened Base64
  import opened Base64Codec
  import opened JsonValue
  import opened JsonScan
  import opened JsonPrinter
  import opened JsonTheorems
  import opened JsonRoundTrip
  import opened Wrappers

  const CREATE_INDEX: bytes := [0x43, 0x72, 0x65, 0x61, 0x74, 0x65, 0x49, 0x6E, 0x64, 0x65, 0x78]  // CreateIndex
  const FLAGS: bytes := [0x46, 0x6C, 0x61, 0x67, 0x73]  // Flags
  const KEY: bytes := [0x4B, 0x65, 0x79]  // Key
  const LOCK_INDEX: bytes := [0x4C, 0x6F, 0x63, 0x6B, 0x49, 0x6E, 0x64, 0x65, 0x78]  // LockIndex
  const MODIFY_INDEX: bytes := [0x4D, 0x6F, 0x64, 0x69, 0x66, 0x79, 0x49, 0x6E, 0x64, 0x65, 0x78]  // ModifyIndex
  const SESSION: bytes := [0x53, 0x65, 0x73, 0x73, 0x69, 0x6F, 0x6E]  // Session
  const VALUE: bytes := [0x56, 0x61, 0x6C, 0x75, 0x65]  // Value

  const BUFFER_SIZE := 4096

  datatype Pair = Pair(createIndex: int, modifyIndex: int, lockIndex: int, flags: int,
                       session: bytes, key: bytes, value: bytes)

  /** `lexical_cast<uint64_t>` of an `int`, which wraps a negative number. */
  function ToUint64(n: int): int {
    n % 0x1_0000_0000_0000_0000
  }

  /** `int_value`, which truncates a double. */
  function IntValue(v: Json): int {
    match v
    case Int(n) => n as int
    case Double(x) => if x >= 0.0 then x.Floor else -((-x).Floor)
    case _ => 0
  }

  /** The error messages, with the name and the type of the value that is at fault. */
  datatype Message = NoMembers | NotANumber(name: bytes, t: nat) | NotAString(name: bytes)

  datatype Field<T> = Take(value: T) | Refuse(message: Message)

  /** A field keeps its old value when the object has no such key. */
  function TakeIndex(ms: seq<Member>, name: bytes, was: int): Field<int> {
    match Lookup(ms, name)
    case Absent => Take(was)
    case Found(v) => if v.Int? || v.Double? then Take(ToUint64(IntValue(v))) else Refuse(NotANumber(name, Type(v)))
  }

  function TakeString(ms: seq<Member>, name: bytes, was: bytes): Field<bytes> {
    match Lookup(ms, name)
    case Absent => Take(was)
    case Found(v) => if v.String? then Take(v.s) else Refuse(NotAString(name))
  }

  function TakeValue(ms: seq<Member>, was: bytes): Field<bytes> {
    match Lookup(ms, VALUE)
    case Absent => Take(was)
    case Found(v) => if v.String? then Take(DecodedStream(v.s)) else Refuse(NotAString(VALUE))
  }

  /** `valueEncoded`: the base64 text without the one newline at its end. */
  function EncodedValue(value: bytes): bytes {
    var s := EncodedStream(value);
    if s != [] && s[|s| - 1] == 0x0A then s[..|s| - 1] else s
  }

  /** The pair with its fields taken from the members one after the other, up to the first of a wrong type, whose
      message comes with it. */
  function ReadMembers(p: Pair, ms: seq<Member>): (Option<Message>, Pair) {
    match TakeIndex(ms, CREATE_INDEX, p.createIndex)
    case Refuse(m) => (Some(m), p)
    case Take(createIndex) =>
      var p1 := p.(createIndex := createIndex);
      match TakeIndex(ms, MODIFY_INDEX, p.modifyIndex)
      case Refuse(m) => (Some(m), p1)
      case Take(modifyIndex) =>
        var p2 := p1.(modifyIndex := modifyIndex);
        match TakeIndex(ms, LOCK_INDEX, p.lockIndex)
        case Refuse(m) => (Some(m), p2)
        case Take(lockIndex) =>
          var p3 := p2.(lockIndex := lockIndex);
          match TakeIndex(ms, FLAGS, p.flags)
          case Refuse(m) => (Some(m), p3)
          case Take(flags) =>
            var p4 := p3.(flags := flags);
            match TakeString(ms, SESSION, p.session)
            case Refuse(m) => (Some(m), p4)
            case Take(session) =>
              var p5 := p4.(session := session);
              match TakeString(ms, KEY, p.key)
              case Refuse(m) => (Some(m), p5)
              case Take(key) =>
                var p6 := p5.(key := key);
                match TakeValue(ms, p.value)
                case Refuse(m) => (Some(m), p6)
                case Take(value) => (None, p6.(value := value))
  }

  /** `InitFromJson`. An object without members, or anything else, is refused. */
  function ReadPair(p: Pair, json: Json): (Option<Message>, Pair) {
    if !json.Object? || json.members == [] then (Some(NoMembers), p)
    else ReadMembers(p, json.members)
  }

  /** `to_json`. */
  function ToJson(p: Pair): Json
    requires p.createIndex >= 0 && p.modifyIndex >= 0 && p.lockIndex >= 0 && p.flags >= 0
  {
    Object([Member(CREATE_INDEX, String(Decimal(p.createIndex))),
            Member(FLAGS, String(Decimal(p.flags))),
            Member(KEY, String(p.key)),
            Member(LOCK_INDEX, String(Decimal(p.lockIndex))),
            Member(MODIFY_INDEX, String(Decimal(p.modifyIndex))),
            Member(SESSION, String(p.session)),
            Member(VALUE, String(EncodedValue(p.value)))])
  }

  // The value.

  /** The encoded value decodes to the value, although its newline was stripped. */
  lemma ValueDecodes(value: bytes)
    ensures DecodedStream(EncodedValue(value)) == value
  {
    hide EncodedStream, DecodeBlock;
    StreamRoundTrip(value);
    var s := EncodedStream(value);
    if s != [] && s[|s| - 1] == 0x0A {
      NewlineIgnored(s[..|s| - 1]);
      assert s[..|s| - 1] + [0x0A] == s;
    }
  }

  lemma NewlineIgnored(code: bytes)
    ensures DecodedStream(code + [0x0A]) == DecodedStream(code)
  {
    hide DecodeBlock;
    NotInAlphabet();
    assert AlphabetOnly([0x0A]) == [];
    DecodeIgnored(DECODING_START, code, [0x0A]);
  }

  // Through JSON.

  predicate AllStrings(ms: seq<Member>) {
    forall k | 0 <= k < |ms| :: ms[k].value.String?
  }

  lemma {:induction false} StringMembers(ms: seq<Member>, fmt: Format)
    requires AllStrings(ms)
    ensures PrintableMembers(ms) && PrintsMembers(ms, fmt) && ReparsedMembers(ms) == ms && MembersHeight(ms) <= 1
  {
    if ms != [] {
      StringMembers(ms[1..], fmt);
      assert [ms[0]] + ms[1..] == ms;
    }
  }

  /** An object of strings is read as it was printed. */
  lemma ParseStrings(ms: seq<Member>, fmt: Format)
    requires AllStrings(ms) && Sorted(ms)
    ensures ParseText(Dump(Object(ms), fmt)) == Ok(Object(ms), |Dump(Object(ms), fmt)|)
  {
    StringMembers(ms, fmt);
    hide Dump, ParseText, Sorted, DumpMembers;
    RoundTrip(Object(ms), fmt);
  }

  /** A number of another form is still a number, and truncates to the same integer. */
  lemma ReparsedField(v: Json)
    requires Printable(v)
    ensures Type(Reparsed(v)) == Type(v)
    ensures (Reparsed(v).Int? || Reparsed(v).Double?) == (v.Int? || v.Double?) && IntValue(Reparsed(v)) == IntValue(v)
    ensures Reparsed(v).String? == v.String? && (v.String? ==> Reparsed(v) == v)
  {
    hide Reread;
    match v
    case Int(n) => ReparsedNumber(n as int);
    case Double(x) => ReparsedNumber(x.Floor);
    case _ =>
  }

  lemma ReparsedNumber(n: int)
    ensures (Reread(n).Int? || Reread(n).Double?) && IntValue(Reread(n)) == n
  {
    hide Reread;
    RereadValue(n);
  }

  lemma {:induction false} ReparsedLookup(ms: seq<Member>, name: bytes)
    requires PrintableMembers(ms)
    ensures match Lookup(ms, name)
            case Absent => Lookup(ReparsedMembers(ms), name) == Absent
            case Found(v) => Printable(v) && Lookup(ReparsedMembers(ms), name) == Found(Reparsed(v))
  {
    hide Printable, Reparsed;
    if ms != [] {
      ReparsedLookup(ms[1..], name);
      assert ReparsedMembers(ms)[1..] == ReparsedMembers(ms[1..]);
    }
  }

  lemma ReparsedTakes(ms: seq<Member>, name: bytes)
    requires PrintableMembers(ms)
    ensures forall was: int :: TakeIndex(ReparsedMembers(ms), name, was) == TakeIndex(ms, name, was)
    ensures forall was: bytes :: TakeString(ReparsedMembers(ms), name, was) == TakeString(ms, name, was)
    ensures forall was: bytes | name == VALUE :: TakeValue(ReparsedMembers(ms), was) == TakeValue(ms, was)
  {
    hide Printable, Reparsed, Lookup, IntValue, ToUint64, DecodedStream;
    ReparsedLookup(ms, name);
    match Lookup(ms, name)
    case Absent =>
    case Found(v) => ReparsedField(v);
  }

  /** A member list with numbers among its values is taken like the one that was printed. */
  lemma ReadReparsed(p: Pair, ms: seq<Member>)
    requires PrintableMembers(ms)
    ensures ReadPair(p, Object(ReparsedMembers(ms))) == ReadPair(p, Object(ms))
  {
    hide TakeIndex, TakeString, TakeValue, ReparsedMembers, PrintableMembers;
    ReparsedTakes(ms, CREATE_INDEX);
    ReparsedTakes(ms, MODIFY_INDEX);
    ReparsedTakes(ms, LOCK_INDEX);
    ReparsedTakes(ms, FLAGS);
    ReparsedTakes(ms, SESSION);
    ReparsedTakes(ms, KEY);
    ReparsedTakes(ms, VALUE);
  }

  predicate NumberOrAbsent(ms: seq<Member>, name: bytes) {
    match Lookup(ms, name)
    case Absent => true
    case Found(v) => v.Int? || v.Double?
  }

  predicate StringOrAbsent(ms: seq<Member>, name: bytes) {
    match Lookup(ms, name)
    case Absent => true
    case Found(v) => v.String?
  }

  /** The keys of a pair, as far as present, have values of their types. */
  predicate WellTyped(ms: seq<Member>) {
    && NumberOrAbsent(ms, CREATE_INDEX) && NumberOrAbsent(ms, MODIFY_INDEX) && NumberOrAbsent(ms, LOCK_INDEX)
    && NumberOrAbsent(ms, FLAGS) && StringOrAbsent(ms, SESSION) && StringOrAbsent(ms, KEY) && StringOrAbsent(ms, VALUE)
  }

  /** A pair is taken from exactly the non-empty objects that are well typed, and its value is the decoded one. */
  lemma ReadExact(p: Pair, ms: seq<Member>)
    ensures ReadPair(p, Object(ms)).0.None? <==> ms != [] && WellTyped(ms)
    ensures ms != [] && WellTyped(ms) ==>
      Take(ReadPair(p, Object(ms)).1.value) == TakeValue(ms, p.value)
  {
    hide Lookup, IntValue, ToUint64, DecodedStream, CREATE_INDEX, MODIFY_INDEX, LOCK_INDEX, FLAGS, SESSION, KEY, VALUE;
  }

  // Every field, in terms of what is found under its name.

  /** The keys of a pair in the order in which `InitFromJson` looks for them; the first four are numbers. */
  function Names(): (names: seq<bytes>)
    ensures |names| == 7
  {
    [Ascii("CreateIndex"), Ascii("ModifyIndex"), Ascii("LockIndex"), Ascii("Flags"),
     Ascii("Session"), Ascii("Key"), Ascii("Value")]
  }

  lemma NamesAre()
    ensures Names() == [CREATE_INDEX, MODIFY_INDEX, LOCK_INDEX, FLAGS, SESSION, KEY, VALUE]
  {
    assert Ascii("CreateIndex") == CREATE_INDEX && Ascii("ModifyIndex") == MODIFY_INDEX;
    assert Ascii("LockIndex") == LOCK_INDEX && Ascii("Flags") == FLAGS && Ascii("Session") == SESSION;
    assert Ascii("Key") == KEY && Ascii("Value") == VALUE;
  }

  /** `n` is the number without its fraction. */
  predicate Truncates(v: Json, n: int) {
    match v
    case Int(m) => n == m as int
    case Double(x) => if x >= 0.0 then n as real <= x < (n + 1) as real else n as real >= x > (n - 1) as real
    case _ => false
  }

  /** The field is the integer part of the number found, as an unsigned 64-bit number, or what it was. */
  ghost predicate TakesNumber(found: Found, was: int, now: int) {
    match found
    case Absent => now == was
    case Found(v) =>
      && (v.Int? || v.Double?)
      && forall n | Truncates(v, n) && -0x8000_0000 <= n < 0x8000_0000 ::
           now == if n >= 0 then n else n + 0x1_0000_0000_0000_0000
  }

  predicate TakesText(found: Found, was: bytes, now: bytes) {
    match found
    case Absent => now == was
    case Found(v) => v == String(now)
  }

  /** The value is the base64 text decoded. */
  predicate TakesEncoded(found: Found, was: bytes, now: bytes) {
    match found
    case Absent => now == was
    case Found(v) => v.String? && now == DecodedStream(v.s)
  }

  lemma NumberTaken(ms: seq<Member>, name: bytes, was: int)
    ensures match TakeIndex(ms, name, was)
            case Take(now) => TakesNumber(Lookup(ms, name), was, now)
            case Refuse(m) =>
              Lookup(ms, name).Found? && var v := Lookup(ms, name).value;
              !v.Int? && !v.Double? && m == NotANumber(name, Type(v))
  {
    hide Lookup;
    match Lookup(ms, name)
    case Absent =>
    case Found(v) =>
      forall n | Truncates(v, n) && -0x8000_0000 <= n < 0x8000_0000 ensures IntValue(v) == n {
      }
      forall n | -0x8000_0000 <= n < 0x8000_0000
        ensures ToUint64(n) == if n >= 0 then n else n + 0x1_0000_0000_0000_0000
      {
        Wraps(n);
      }
  }

  lemma Wraps(n: int)
    requires -0x8000_0000 <= n < 0x8000_0000
    ensures n % 0x1_0000_0000_0000_0000 == if n >= 0 then n else n + 0x1_0000_0000_0000_0000
  {
  }

  /** The key at a position has a value of its type, or none. */
  predicate Typed(ms: seq<Member>, i: nat)
    requires i < 7
  {
    match Lookup(ms, Names()[i])
    case Absent => true
    case Found(v) => if i < 4 then v.Int? || v.Double? else v.String?
  }

  /** `InitFromJson` on an object: the fields up to the first key `j` whose value has another type are each taken from
      under their own name, the others are left, and the message names that key; there is none when `j` is 7. */
  lemma FieldsExact(p: Pair, ms: seq<Member>, j: nat)
    requires ms != [] && j <= 7 && (forall i | 0 <= i < j :: Typed(ms, i)) && (j < 7 ==> !Typed(ms, j))
    ensures var (message, q) := ReadPair(p, Object(ms));
      && (message.None? <==> j == 7)
      && (j < 4 ==> message == Some(NotANumber(Names()[j], Type(Lookup(ms, Names()[j]).value))))
      && (4 <= j < 7 ==> message == Some(NotAString(Names()[j])))
      && (if j > 0 then TakesNumber(Lookup(ms, Ascii("CreateIndex")), p.createIndex, q.createIndex)
          else q.createIndex == p.createIndex)
      && (if j > 1 then TakesNumber(Lookup(ms, Ascii("ModifyIndex")), p.modifyIndex, q.modifyIndex)
          else q.modifyIndex == p.modifyIndex)
      && (if j > 2 then TakesNumber(Lookup(ms, Ascii("LockIndex")), p.lockIndex, q.lockIndex)
          else q.lockIndex == p.lockIndex)
      && (if j > 3 then TakesNumber(Lookup(ms, Ascii("Flags")), p.flags, q.flags) else q.flags == p.flags)
      && (if j > 4 then TakesText(Lookup(ms, Ascii("Session")), p.session, q.session) else q.session == p.session)
      && (if j > 5 then TakesText(Lookup(ms, Ascii("Key")), p.key, q.key) else q.key == p.key)
      && (if j > 6 then TakesEncoded(Lookup(ms, Ascii("Value")), p.value, q.value) else q.value == p.value)
  {
    NamesAre();
    NumberTaken(ms, CREATE_INDEX, p.createIndex);
    NumberTaken(ms, MODIFY_INDEX, p.modifyIndex);
    NumberTaken(ms, LOCK_INDEX, p.lockIndex);
    NumberTaken(ms, FLAGS, p.flags);
    NameList();
    TypedUpTo(ms, j);
    hide Lookup, Ascii, Names, CREATE_INDEX, MODIFY_INDEX, LOCK_INDEX, FLAGS, SESSION, KEY, VALUE, TakeIndex,
         TakesNumber,
         DecodedStream;
  }

  lemma NameList()
    ensures var names := Names();
      && names[0] == CREATE_INDEX == Ascii("CreateIndex") && names[1] == MODIFY_INDEX == Ascii("ModifyIndex")
      && names[2] == LOCK_INDEX == Ascii("LockIndex") && names[3] == FLAGS == Ascii("Flags")
      && names[4] == SESSION == Ascii("Session") && names[5] == KEY == Ascii("Key")
      && names[6] == VALUE == Ascii("Value")
  {
    NamesAre();
    hide Ascii;
  }

  lemma TypedUpTo(ms: seq<Member>, j: nat)
    requires j <= 7 && (forall i | 0 <= i < j :: Typed(ms, i)) && (j < 7 ==> !Typed(ms, j))
    ensures (j > 0 ==> Typed(ms, 0)) && (j > 1 ==> Typed(ms, 1)) && (j > 2 ==> Typed(ms, 2)) && (j > 3 ==> Typed(ms, 3))
    ensures (j > 4 ==> Typed(ms, 4)) && (j > 5 ==> Typed(ms, 5)) && (j > 6 ==> Typed(ms, 6))
    ensures j < 7 ==> !Typed(ms, j)
  {
  }

  /** An object without members, and anything that is no object, is refused, and nothing is taken. */
  lemma NoMembersRefused(p: Pair, v: Json)
    requires v.Object? ==> v.members == []
    ensures ReadPair(p, v) == (Some(NoMembers), p)
  {
  }

  /** What a pair is printed as: every field under its own name, numbers as their numerals in strings, and the value as
      base64 text that decodes to it. */
  lemma PrintedFields(p: Pair) returns (encoded: bytes)
    requires p.createIndex >= 0 && p.modifyIndex >= 0 && p.lockIndex >= 0 && p.flags >= 0
    ensures DecodedStream(encoded) == p.value
    ensures IsMap(ToJson(p))
    ensures ToJson(p) == Object([
      Member(Ascii("CreateIndex"), String(Decimal(p.createIndex))),
      Member(Ascii("Flags"), String(Decimal(p.flags))),
      Member(Ascii("Key"), String(p.key)),
      Member(Ascii("LockIndex"), String(Decimal(p.lockIndex))),
      Member(Ascii("ModifyIndex"), String(Decimal(p.modifyIndex))),
      Member(Ascii("Session"), String(p.session)),
      Member(Ascii("Value"), String(encoded))])
  {
    NameList();
    ValueDecodes(p.value);
    PrintedSorted(p);
    encoded := EncodedValue(p.value);
    hide EncodedValue, DecodedStream, Decimal, Ascii, Names, IsMap, CREATE_INDEX, MODIFY_INDEX, LOCK_INDEX, FLAGS,
         SESSION, KEY, VALUE;
  }

  lemma PrintedSorted(p: Pair)
    requires p.createIndex >= 0 && p.modifyIndex >= 0 && p.lockIndex >= 0 && p.flags >= 0
    ensures IsMap(ToJson(p))
  {
    hide EncodedValue, Decimal;
  }

  /** The value sent among the members of a JSON object is read as it was, and the other members are taken as they were
      sent. */
  lemma ValueThroughJson(p: Pair, ms: seq<Member>, value: bytes, fmt: Format)
    requires IsMap(Object(ms)) && PrintableMembers(ms) && MembersHeight(ms) <= MAX_DEPTH
    requires PrintsMembers(ms, fmt)
    requires Lookup(ms, VALUE) == Found(String(EncodedValue(value))) && WellTyped(ms)
    ensures var r := ParseText(Dump(Object(ms), fmt));
      r.Ok? && ReadPair(p, r.value) == ReadPair(p, Object(ms)) &&
      ReadPair(p, r.value).0.None? && ReadPair(p, r.value).1.value == value
  {
    hide Dump, ParseText, EncodedValue, DecodedStream, Lookup, WellTyped, ReadPair;
    RoundTrip(Object(ms), fmt);
    ReadReparsed(p, ms);
    ReadExact(p, ms);
    ValueDecodes(value);
    NotEmpty(ms, VALUE);
  }

  lemma NotEmpty(ms: seq<Member>, name: bytes)
    requires Lookup(ms, name).Found?
    ensures ms != []
  {
  }

  /** No pair can be read from what it prints: the first index is refused, and nothing is taken. */
  lemma PairRefused(p: Pair, q: Pair, fmt: Format)
    requires p.createIndex >= 0 && p.modifyIndex >= 0 && p.lockIndex >= 0 && p.flags >= 0
    ensures var text := Dump(ToJson(p), fmt);
      ParseText(text).Ok? && ReadPair(q, ParseText(text).value) == (Some(NotANumber(CREATE_INDEX, Type(String([])))), q)
  {
    hide Dump, ParseText, EncodedValue, Decimal;
    ParseStrings(ToJson(p).members, fmt);
  }

  class KVPair {
    var createIndex: int
    var modifyIndex: int
    var lockIndex: int
    var flags: int
    var session: bytes
    var key: bytes
    var value: bytes

    ghost function View(): Pair
      reads this
    {
      Pair(createIndex, modifyIndex, lockIndex, flags, session, key, value)
    }

    method InitFromJson(obj: Json, err0: Option<Message>) returns (ok: bool, err: Option<Message>)
      modifies this
      ensures var (refusal, pair) := ReadPair(old(View()), obj);
        View() == pair && ok == refusal.None? && err == if ok then err0 else refusal
    {
      hide Lookup, DecodedStream;
      if !obj.Object? || obj.members == [] {
        return false, Some(NoMembers);
      }
      var ms := obj.members;
      var index := TakeIndex(ms, CREATE_INDEX, createIndex);
      if index.Refuse? { return false, Some(index.message); }
      createIndex := index.value;
      index := TakeIndex(ms, MODIFY_INDEX, modifyIndex);
      if index.Refuse? { return false, Some(index.message); }
      modifyIndex := index.value;
      index := TakeIndex(ms, LOCK_INDEX, lockIndex);
      if index.Refuse? { return false, Some(index.message); }
      lockIndex := index.value;
      index := TakeIndex(ms, FLAGS, flags);
      if index.Refuse? { return false, Some(index.message); }
      flags := index.value;
      var text := TakeString(ms, SESSION, session);
      if text.Refuse? { return false, Some(text.message); }
      session := text.value;
      text := TakeString(ms, KEY, key);
      if text.Refuse? { return false, Some(text.message); }
      key := text.value;
      match Lookup(ms, VALUE) {
        case Absent =>
        case Found(v) =>
          if !v.String? { return false, Some(NotAString(VALUE)); }
          var decoder := new Decoder(BUFFER_SIZE);
          var iss := new InputStream(v.s);
          var oss := new OutputStream();
          decoder.Decode(iss, oss);
          assert v.s[0..] == v.s && [] + DecodedStream(v.s) == DecodedStream(v.s);
          value := oss.text;
      }
      return true, err0;
    }

    method ValueEncoded() returns (s: bytes)
      ensures s == EncodedValue(value)
    {
      hide EncodedStream;
      var encoder := new Encoder(BUFFER_SIZE);
      var iss := new InputStream(value);
      var oss := new OutputStream();
      encoder.Encode(iss, oss);
      assert value[0..] == value;
      s := oss.text;
      if s != [] && s[|s| - 1] == 0x0A {
        s := s[..|s| - 1];
      }
    }
  }
}
