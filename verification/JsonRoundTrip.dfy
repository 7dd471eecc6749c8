/** Parsing what `Json::dump` prints gives the value back, up to the integer and double forms of one
    number, exactly when the value is nested at most 200 deep. */
module JsonRoundTrip {
  import opened Bytes
  import opened Utf8
  import opened JsonLexemes
  import opened JsonValue
  import opened JsonOrder
  import opened JsonPrinter
  import opened JsonGrammar
  import opened JsonScan
  import opened JsonComplete
  import opened JsonTheorems

  // Strings.

  /** The item printed for the byte at `i`. */
  function EscapedItem(value: bytes, i: nat): (it: Item)
    requires i < |value|
    ensures GoodItem(it) && ItemText(it) == Escaped(value, i).0
  {
    var c := value[i];
    if c == BACKSLASH || c == QUOTE then Short(c)
    else if c == 0x08 then Short(0x62)
    else if c == 0x0C then Short(0x66)
    else if c == 0x0A then Short(0x6E)
    else if c == 0x0D then Short(0x72)
    else if c == 0x09 then Short(0x74)
    else if c <= 0x1F then Unicode([0x30, 0x30, HexDigit(c / 16), HexDigit(c % 16)])
    else if IsSeparator(value, i, 0xA8) then Unicode([0x32, 0x30, 0x32, 0x38])
    else if IsSeparator(value, i, 0xA9) then Unicode([0x32, 0x30, 0x32, 0x39])
    else Plain(c)
  }

  function EscapedItems(value: bytes, i: nat): (its: seq<Item>)
    requires i <= |value|
    ensures GoodItems(its)
    decreases |value| - i
  {
    if i == |value| then [] else [EscapedItem(value, i)] + EscapedItems(value, i + Escaped(value, i).1)
  }

  lemma {:induction false} EscapedText(value: bytes, i: nat)
    requires i <= |value|
    ensures ItemsText(EscapedItems(value, i)) == EscapeFrom(value, i)
    decreases |value| - i
  {
    hide Escaped, EscapedItem;
    if i < |value| {
      EscapedText(value, i + Escaped(value, i).1);
      assert EscapedItems(value, i)[1..] == EscapedItems(value, i + Escaped(value, i).1);
    }
  }

  function UnitText(unit: Unit): bytes
    requires unit.Code? ==> unit.u < 0x10000
  {
    match unit
    case Raw(b) => [b]
    case Code(u) => EncodeUtf8(u)
  }

  lemma JoinStep(unit: Unit, us: seq<Unit>)
    requires GoodUnits(us) && (unit.Code? ==> unit.u < 0x10000 && !IsHighSurrogate(unit.u))
    ensures GoodUnits([unit] + us) && Join([unit] + us) == UnitText(unit) + Join(us)
  {
    assert ([unit] + us)[1..] == us;
  }

  /** The code unit or byte an escape stands for, which are the bytes it was printed for. */
  lemma EscapedAlone(value: bytes, i: nat)
    requires i < |value|
    ensures var unit := ItemUnit(EscapedItem(value, i));
      && (unit.Code? ==> unit.u < 0x10000 && !IsHighSurrogate(unit.u))
      && UnitText(unit) == value[i..i + Escaped(value, i).1]
  {
    var c := value[i];
    var unit := ItemUnit(EscapedItem(value, i));
    if c != BACKSLASH && c > 0x1F && (IsSeparator(value, i, 0xA8) || IsSeparator(value, i, 0xA9)) {
      assert value[i..i + 3] == [0xE2, 0x80, value[i + 2]];
    } else {
      assert value[i..i + 1] == [c];
      if unit.Code? {
        assert unit.u == c;
      }
    }
  }

  lemma EscapedUnit(value: bytes, i: nat, us: seq<Unit>)
    requires i < |value| && GoodUnits(us)
    ensures GoodUnits([ItemUnit(EscapedItem(value, i))] + us)
    ensures Join([ItemUnit(EscapedItem(value, i))] + us) == value[i..i + Escaped(value, i).1] + Join(us)
  {
    hide Escaped, EscapedItem, ItemUnit, Join, UnitText;
    EscapedAlone(value, i);
    JoinStep(ItemUnit(EscapedItem(value, i)), us);
  }

  lemma {:induction false} EscapedValue(value: bytes, i: nat)
    requires i <= |value|
    ensures StringValue(EscapedItems(value, i)) == value[i..]
    decreases |value| - i
  {
    hide Escaped, EscapedItem, Join, ItemUnit;
    if i < |value| {
      var j := i + Escaped(value, i).1;
      EscapedValue(value, j);
      assert EscapedItems(value, i)[1..] == EscapedItems(value, j);
      EscapedUnit(value, i, Units(EscapedItems(value, j)));
      SplitTail(value, i, j);
    } else {
      EmptyJoin(value);
    }
  }

  lemma SplitTail(value: bytes, i: nat, j: nat)
    requires i <= j <= |value|
    ensures value[i..] == value[i..j] + value[j..]
  {
  }

  lemma EmptyJoin(value: bytes)
    ensures Join([]) == value[|value|..]
  {
  }

  // Numbers.

  /** A double that `%.17g` prints as a plain integer. */
  predicate IsPlainInteger(x: real) {
    x == x.Floor as real && -100_000_000_000_000_000.0 < x < 100_000_000_000_000_000.0
  }

  /** What the C library promises: such a double is printed like an integer. */
  ghost predicate PrintsIntegers(fmt: Format) {
    forall x | IsPlainInteger(x) :: fmt(x) == DumpInt(x.Floor)
  }

  function IntSyntax(n: int): (num: NumberSyntax)
    ensures GoodNumber(num) && NumberText(num) == DumpInt(n)
  {
    var num := NumberSyntax(n < 0, if n < 0 then Decimal(-n) else Decimal(n), [], NoExponent);
    assert NumberText(num) == WholeText(num);
    num
  }

  /** The number read back: an `int` if its text has at most nine characters, else a double. */
  function Reread(n: int): Json {
    NumberJson(IntSyntax(n))
  }

  lemma RereadValue(n: int)
    ensures (Reread(n).Int? || Reread(n).Double?) && NumberValue(Reread(n)) == n as real
  {
    NatOfDecimal(if n < 0 then -n else n);
    var num := IntSyntax(n);
    assert IntValue(num) == n;
    if !IsInt(num) {
      WholeValue(num.negative, num.whole);
    }
  }

  lemma WholeValue(negative: bool, whole: bytes)
    ensures LiteralValue(negative, whole, [], 0) == if negative then -(NatOf(whole) as real) else NatOf(whole) as real
  {
    assert Pow10(0) == 1 && RealPow10(0) == 1.0;
    assert NatOf([]) as real / Pow10(0) as real == 0.0;
  }

  // Values.

  /** Doubles inside `v` are integers below 10^17 in magnitude. */
  predicate Printable(v: Json)
    decreases v, 1
  {
    match v
    case Double(x) => IsPlainInteger(x)
    case Array(xs) => PrintableItems(xs)
    case Object(ms) => PrintableMembers(ms)
    case _ => true
  }

  predicate PrintableItems(xs: seq<Json>)
    decreases xs, 0
  {
    xs == [] || (Printable(xs[0]) && PrintableItems(xs[1..]))
  }

  predicate PrintableMembers(ms: seq<Member>)
    decreases ms, 0
  {
    ms == [] || (Printable(ms[0].value) && PrintableMembers(ms[1..]))
  }

  /** The doubles inside `v` are printed like the integers they are. */
  predicate PrintsAll(v: Json, fmt: Format)
    decreases v, 1
  {
    match v
    case Double(x) => fmt(x) == DumpInt(x.Floor)
    case Array(xs) => PrintsItems(xs, fmt)
    case Object(ms) => PrintsMembers(ms, fmt)
    case _ => true
  }

  predicate PrintsItems(xs: seq<Json>, fmt: Format)
    decreases xs, 0
  {
    xs == [] || (PrintsAll(xs[0], fmt) && PrintsItems(xs[1..], fmt))
  }

  predicate PrintsMembers(ms: seq<Member>, fmt: Format)
    decreases ms, 0
  {
    ms == [] || (PrintsAll(ms[0].value, fmt) && PrintsMembers(ms[1..], fmt))
  }

  /** The C library prints them so, at every depth. */
  lemma {:induction false} LibraryPrints(v: Json, fmt: Format)
    requires Printable(v) && PrintsIntegers(fmt)
    ensures PrintsAll(v, fmt)
    decreases v, 1
  {
    match v
    case Array(xs) => LibraryPrintsItems(xs, fmt);
    case Object(ms) => LibraryPrintsMembers(ms, fmt);
    case _ =>
  }

  lemma {:induction false} LibraryPrintsItems(xs: seq<Json>, fmt: Format)
    requires PrintableItems(xs) && PrintsIntegers(fmt)
    ensures PrintsItems(xs, fmt)
    decreases xs, 0
  {
    if xs != [] {
      LibraryPrints(xs[0], fmt);
      LibraryPrintsItems(xs[1..], fmt);
    }
  }

  lemma {:induction false} LibraryPrintsMembers(ms: seq<Member>, fmt: Format)
    requires PrintableMembers(ms) && PrintsIntegers(fmt)
    ensures PrintsMembers(ms, fmt)
    decreases ms, 0
  {
    if ms != [] {
      LibraryPrints(ms[0].value, fmt);
      LibraryPrintsMembers(ms[1..], fmt);
    }
  }

  /** The value read back from the text of `v`: every number in the form the parser chooses. */
  function Reparsed(v: Json): Json
    requires Printable(v)
    decreases v, 1
  {
    match v
    case Int(n) => Reread(n as int)
    case Double(x) => Reread(x.Floor)
    case Array(xs) => Array(ReparsedItems(xs))
    case Object(ms) => Object(ReparsedMembers(ms))
    case _ => v
  }

  function ReparsedItems(xs: seq<Json>): seq<Json>
    requires PrintableItems(xs)
    decreases xs, 0
  {
    if xs == [] then [] else [Reparsed(xs[0])] + ReparsedItems(xs[1..])
  }

  function ReparsedMembers(ms: seq<Member>): (r: seq<Member>)
    requires PrintableMembers(ms)
    ensures |r| == |ms| && forall k | 0 <= k < |r| :: r[k].key == ms[k].key
    decreases ms, 0
  {
    if ms == [] then [] else [Member(ms[0].key, Reparsed(ms[0].value))] + ReparsedMembers(ms[1..])
  }

  /** The tree of the text that is printed. */
  function Tree(v: Json): (t: Syntax)
    requires Printable(v)
    ensures Good(t)
    decreases v, 1
  {
    match v
    case Null => NullWord
    case Int(n) => Number(IntSyntax(n as int))
    case Double(x) => Number(IntSyntax(x.Floor))
    case Bool(b) => if b then TrueWord else FalseWord
    case String(s) => Chars(EscapedItems(s, 0))
    case Array(xs) => List([], TreeItems(xs, true))
    case Object(ms) => Dict([], TreeMembers(ms, true))
  }

  function Before(first: bool): (w: bytes)
    ensures Blank(w)
  {
    if first then [] else [0x20]
  }

  function TreeItems(xs: seq<Json>, first: bool): (es: seq<Elem>)
    requires PrintableItems(xs)
    ensures GoodElems(es) && (es == [] <==> xs == [])
    decreases xs, 0
  {
    if xs == [] then []
    else
      var es := [Elem(Before(first), Tree(xs[0]), [])] + TreeItems(xs[1..], false);
      assert es[1..] == TreeItems(xs[1..], false);
      es
  }

  function TreeMembers(ms: seq<Member>, first: bool): (ps: seq<Pair>)
    requires PrintableMembers(ms)
    ensures GoodPairs(ps) && (ps == [] <==> ms == [])
    decreases ms, 0
  {
    if ms == [] then []
    else
      var ps := [Pair(Before(first), EscapedItems(ms[0].key, 0), [], [0x20], Tree(ms[0].value), [])]
                + TreeMembers(ms[1..], false);
      assert ps[1..] == TreeMembers(ms[1..], false);
      ps
  }

  // The text of the tree is the printed text.

  lemma {:induction false} TreeText(v: Json, fmt: Format)
    requires Printable(v) && PrintsAll(v, fmt)
    ensures Text(Tree(v)) == Dump(v, fmt)
    decreases v, 1
  {
    hide NumberText, DumpInt, EscapedItems, CharsText, DumpString, TreeItems, TreeMembers, DumpItems, DumpMembers,
         ElemsText, PairsText;
    match v
    case Array(xs) =>
      TreeItemsText(xs, true, fmt);
      NoItemsText();
    case Object(ms) =>
      TreeMembersText(ms, true, fmt);
      NoItemsText();
    case String(s) => StringText(s);
    case _ =>
  }

  lemma NoItemsText()
    ensures ElemsText([]) == [] && PairsText([]) == []
  {
  }

  lemma StringText(s: bytes)
    ensures [QUOTE] + CharsText(EscapedItems(s, 0)) == DumpString(s)
  {
    EscapedText(s, 0);
  }

  /** The separator printed before an element, as far as it is not part of the element's white space. */
  function Comma(first: bool): bytes {
    if first then [] else [COMMA]
  }

  lemma {:induction false} TreeItemsText(xs: seq<Json>, first: bool, fmt: Format)
    requires PrintableItems(xs) && PrintsItems(xs, fmt)
    ensures DumpItems(xs, first, fmt) == if xs == [] then [] else Comma(first) + ElemsText(TreeItems(xs, first))
    decreases xs, 0
  {
    hide Tree, Text, Dump;
    if xs != [] {
      var es := TreeItems(xs, first);
      var t, rest := Text(Tree(xs[0])), DumpItems(xs[1..], false, fmt);
      TreeText(xs[0], fmt);
      TreeItemsText(xs[1..], false, fmt);
      assert es[1..] == TreeItems(xs[1..], false);
      assert ElemsText(es) == Before(first) + (t + ([] + rest)) by {
        if |xs| > 1 {
          assert rest == [COMMA] + ElemsText(es[1..]);
        }
      }
      Separated(first, t, rest);
    }
  }

  lemma Separated(first: bool, t: bytes, rest: bytes)
    ensures (if first then [] else SEPARATOR) + t + rest == Comma(first) + (Before(first) + (t + ([] + rest)))
  {
  }

  lemma {:induction false} TreeMembersText(ms: seq<Member>, first: bool, fmt: Format)
    requires PrintableMembers(ms) && PrintsMembers(ms, fmt)
    ensures DumpMembers(ms, first, fmt) == if ms == [] then [] else Comma(first) + PairsText(TreeMembers(ms, first))
    decreases ms, 0
  {
    hide Tree, Text, Dump, DumpMember, EscapedItems, CharsText;
    if ms != [] {
      var ps := TreeMembers(ms, first);
      var name, t, rest := CharsText(ps[0].key), Text(ps[0].value), DumpMembers(ms[1..], false, fmt);
      TreeText(ms[0].value, fmt);
      TreeMembersText(ms[1..], false, fmt);
      assert ps[1..] == TreeMembers(ms[1..], false);
      MemberText(ms[0], name, t, fmt);
      assert PairsText(ps) == Before(first) + ([QUOTE] + (name + ([] + ([COLON] + ([0x20] + (t + ([] + rest))))))) by {
        if |ms| > 1 {
          assert rest == [COMMA] + PairsText(ps[1..]);
        }
      }
      SeparatedMember(first, name, t, rest);
    }
  }

  lemma MemberText(m: Member, name: bytes, t: bytes, fmt: Format)
    requires name == CharsText(EscapedItems(m.key, 0)) && t == Dump(m.value, fmt)
    ensures DumpMember(m, fmt) == [QUOTE] + name + [COLON, 0x20] + t
  {
    StringText(m.key);
  }

  lemma SeparatedMember(first: bool, name: bytes, t: bytes, rest: bytes)
    ensures (if first then [] else SEPARATOR) + ([QUOTE] + name + [COLON, 0x20] + t) + rest ==
            Comma(first) + (Before(first) + ([QUOTE] + (name + ([] + ([COLON] + ([0x20] + (t + ([] + rest))))))))
  {
  }

  // The nesting of the tree is the height of the value.

  lemma {:induction false} TreeNesting(v: Json)
    requires Printable(v)
    ensures Nesting(Tree(v)) == Height(v)
    decreases v, 1
  {
    match v
    case Array(xs) => TreeItemsNesting(xs, true);
    case Object(ms) => TreeMembersNesting(ms, true);
    case _ =>
  }

  lemma {:induction false} TreeItemsNesting(xs: seq<Json>, first: bool)
    requires PrintableItems(xs)
    ensures ElemsNesting(TreeItems(xs, first)) == ItemsHeight(xs)
    decreases xs, 0
  {
    if xs != [] {
      TreeNesting(xs[0]);
      TreeItemsNesting(xs[1..], false);
      assert TreeItems(xs, first)[1..] == TreeItems(xs[1..], false);
    }
  }

  lemma {:induction false} TreeMembersNesting(ms: seq<Member>, first: bool)
    requires PrintableMembers(ms)
    ensures PairsNesting(TreeMembers(ms, first)) == MembersHeight(ms)
    decreases ms, 0
  {
    if ms != [] {
      TreeNesting(ms[0].value);
      TreeMembersNesting(ms[1..], false);
      assert TreeMembers(ms, first)[1..] == TreeMembers(ms[1..], false);
    }
  }

  // The value of the tree is the value read back.

  lemma {:induction false} TreeValue(v: Json)
    requires Printable(v) && IsMap(v)
    ensures Eval(Tree(v)) == Reparsed(v)
    decreases v, 1
  {
    hide NumberJson, IntSyntax, TreeItems, TreeMembers, EvalElems, EvalPairs, ReparsedItems, ReparsedMembers,
         EscapedItems, StringValue, Sorted;
    match v
    case Array(xs) => TreeItemsValue(xs, true);
    case Object(ms) =>
      TreeMembersValue(ms, true, []);
      assert [] + ReparsedMembers(ms) == ReparsedMembers(ms);
    case String(s) =>
      EscapedValue(s, 0);
      assert s[0..] == s;
    case _ =>
  }

  lemma {:induction false} TreeItemsValue(xs: seq<Json>, first: bool)
    requires PrintableItems(xs) && forall k | 0 <= k < |xs| :: IsMap(xs[k])
    ensures EvalElems(TreeItems(xs, first)) == ReparsedItems(xs)
    decreases xs, 0
  {
    if xs != [] {
      TreeValue(xs[0]);
      TreeItemsValue(xs[1..], false);
      assert TreeItems(xs, first)[1..] == TreeItems(xs[1..], false);
    }
  }

  /** Every key of `data` is below every key of `ms`. */
  predicate AllBelow(data: seq<Member>, ms: seq<Member>) {
    forall i, j | 0 <= i < |data| && 0 <= j < |ms| :: BytesLess(data[i].key, ms[j].key)
  }

  /** Storing a key above all others appends it. */
  lemma {:induction false} PutLast(data: seq<Member>, key: bytes, value: Json)
    requires forall k | 0 <= k < |data| :: BytesLess(data[k].key, key)
    ensures Put(data, key, value) == data + [Member(key, value)]
  {
    hide BytesLess;
    if data != [] {
      PutLast(data[1..], key, value);
      CmpBytesMeaning(data[0].key, key);
      CmpBytesMeaning(key, data[0].key);
      assert data == [data[0]] + data[1..];
    }
  }

  lemma BelowNext(data: seq<Member>, ms: seq<Member>, value: Json)
    requires ms != [] && Sorted(ms) && AllBelow(data, ms)
    ensures Put(data, ms[0].key, value) == data + [Member(ms[0].key, value)]
    ensures Sorted(ms[1..]) && AllBelow(data + [Member(ms[0].key, value)], ms[1..])
  {
    hide BytesLess;
    PutLast(data, ms[0].key, value);
  }

  lemma {:induction false} TreeMembersValue(ms: seq<Member>, first: bool, data: seq<Member>)
    requires PrintableMembers(ms) && Sorted(ms) && AllBelow(data, ms)
    requires forall k | 0 <= k < |ms| :: IsMap(ms[k].value)
    ensures EvalPairs(TreeMembers(ms, first), data) == data + ReparsedMembers(ms)
    decreases ms, 0
  {
    hide BytesLess, IsMap, Tree, Eval, Reparsed, Put, Sorted, AllBelow, EscapedItems, StringValue;
    if ms != [] {
      var m, rest := ms[0], ms[1..];
      var ps := TreeMembers(ms, first);
      var data' := data + [Member(m.key, Reparsed(m.value))];
      TreeValue(m.value);
      EscapedValue(m.key, 0);
      assert m.key[0..] == m.key;
      assert ps[1..] == TreeMembers(rest, false);
      BelowNext(data, ms, Reparsed(m.value));
      assert EvalPairs(ps, data) == EvalPairs(ps[1..], data');
      TreeMembersValue(rest, false, data');
      Regroup(data, [Member(m.key, Reparsed(m.value))], ReparsedMembers(rest));
    } else {
      assert data + [] == data;
    }
  }

  // The value read back is equal to the value printed.

  lemma {:induction false} ReparsedEqual(v: Json)
    requires Printable(v)
    ensures Equal(Reparsed(v), v)
    decreases v, 1
  {
    hide Reread;
    match v
    case Int(n) => RereadValue(n as int);
    case Double(x) => RereadValue(x.Floor);
    case Array(xs) => ReparsedItemsEqual(xs);
    case Object(ms) => ReparsedMembersEqual(ms);
    case _ =>
  }

  lemma {:induction false} ReparsedItemsEqual(xs: seq<Json>)
    requires PrintableItems(xs)
    ensures EqualItems(ReparsedItems(xs), xs)
    decreases xs, 0
  {
    if xs != [] {
      ReparsedEqual(xs[0]);
      ReparsedItemsEqual(xs[1..]);
      assert ReparsedItems(xs)[1..] == ReparsedItems(xs[1..]);
    }
  }

  lemma {:induction false} ReparsedMembersEqual(ms: seq<Member>)
    requires PrintableMembers(ms)
    ensures EqualMembers(ReparsedMembers(ms), ms)
    decreases ms, 0
  {
    if ms != [] {
      ReparsedEqual(ms[0].value);
      ReparsedMembersEqual(ms[1..]);
      assert ReparsedMembers(ms)[1..] == ReparsedMembers(ms[1..]);
    }
  }

  /** `parse(dump(v))`: for every value whose doubles are printed as integers, the text printed is read
      back as an equal value if it is nested at most 200 deep, and refused for its depth otherwise. */
  lemma RoundTrip(v: Json, fmt: Format)
    requires IsMap(v) && Printable(v) && PrintsAll(v, fmt)
    ensures ParseText(Dump(v, fmt)) ==
            if Height(v) <= MAX_DEPTH then Ok(Reparsed(v), |Dump(v, fmt)|) else Fail(TooDeep)
    ensures Equal(Reparsed(v), v)
  {
    hide Text, Dump, Tree, Reparsed, Eval, ParseText;
    TreeText(v, fmt);
    TreeNesting(v);
    TreeValue(v);
    ReparsedEqual(v);
    var s := Dump(v, fmt);
    assert s == [] + (Text(Tree(v)) + []);
    ParseExact(s, [], Tree(v), []);
  }

  // Several values in one input.

  /** Values printed one after the other, each followed by a line feed. */
  function Lines(vs: seq<Json>, fmt: Format): bytes {
    if vs == [] then [] else Dump(vs[0], fmt) + ([0x0A] + Lines(vs[1..], fmt))
  }

  predicate AllMapsWithin(vs: seq<Json>) {
    forall k | 0 <= k < |vs| :: IsMap(vs[k]) && Height(vs[k]) <= MAX_DEPTH
  }

  lemma LineLayout(s: bytes, i: nat, vs: seq<Json>, fmt: Format, a: nat, b: nat)
    requires vs != [] && At(s, i, Lines(vs, fmt)) && a == i + |Dump(vs[0], fmt)| && b == a + 1
    ensures At(s, i, Dump(vs[0], fmt)) && CharIs(s, a, 0x0A) && At(s, b, Lines(vs[1..], fmt))
  {
    hide At, Dump;
    AtSplit(s, i, Lines(vs, fmt), Dump(vs[0], fmt), a, [0x0A] + Lines(vs[1..], fmt));
    AtByte(s, a, [0x0A] + Lines(vs[1..], fmt), 0x0A, b, Lines(vs[1..], fmt));
  }

  /** The first line is read and the cursor left on the next one. */
  lemma LineRead(s: bytes, i: nat, vs: seq<Json>, fmt: Format, a: nat, b: nat)
    requires vs != [] && PrintableItems(vs) && AllMapsWithin(vs) && PrintsItems(vs, fmt)
    requires At(s, i, Lines(vs, fmt)) && i + |Lines(vs, fmt)| == |s|
    requires a == i + |Dump(vs[0], fmt)| && b == a + 1
    ensures i < |s| && ValueAt(s, i, 0) == Ok(Reparsed(vs[0]), a) && a <= |s| && SkipSpace(s, a) == b
  {
    hide At, Dump, ValueAt, Text, Tree, Reparsed, Eval, IsMap, Printable, Nesting, Height;
    var v := vs[0];
    LineLayout(s, i, vs, fmt, a, b);
    TreeText(v, fmt);
    TreeNesting(v);
    TreeValue(v);
    NothingAt(s, i);
    AtOne(s, a, 0x0A);
    NothingAt(s, a);
    StopEnds(s, a, [], a, Tree(v));
    FirstByte(s, i, Tree(v));
    ValueComplete(s, i, [], i, Tree(v), a, 0);
    NextLine(s, b, vs[1..], fmt);
    SkipSpaceAt(s, a, [0x0A], b);
  }

  lemma NothingAt(s: bytes, i: nat)
    requires i <= |s|
    ensures At(s, i, [])
  {
  }

  /** A line does not start with white space. */
  lemma NextLine(s: bytes, i: nat, vs: seq<Json>, fmt: Format)
    requires PrintableItems(vs) && PrintsItems(vs, fmt) && At(s, i, Lines(vs, fmt)) && i + |Lines(vs, fmt)| == |s|
    ensures !IsSpace(CharAt(s, i))
  {
    hide At, Dump, Text, Tree, Printable;
    if vs != [] {
      LineLayout(s, i, vs, fmt, i + |Dump(vs[0], fmt)|, i + |Dump(vs[0], fmt)| + 1);
      TreeText(vs[0], fmt);
      FirstByte(s, i, Tree(vs[0]));
    }
  }

  /** `parse_multi` reads back every value of such a text, in order. */
  lemma {:induction false} LinesRoundTrip(s: bytes, i: nat, vs: seq<Json>, fmt: Format, values: seq<Json>)
    requires PrintableItems(vs) && AllMapsWithin(vs) && PrintsItems(vs, fmt)
    requires At(s, i, Lines(vs, fmt)) && i + |Lines(vs, fmt)| == |s|
    ensures ParseTexts(s, i, values) == Ok(values + ReparsedItems(vs), |s|)
    decreases |vs|
  {
    hide At, Dump, ValueAt, SkipSpace, Reparsed, IsMap, Height, Printable;
    if vs == [] {
      assert values + [] == values;
    } else {
      var x, a := Reparsed(vs[0]), i + |Dump(vs[0], fmt)|;
      LineLayout(s, i, vs, fmt, a, a + 1);
      LineRead(s, i, vs, fmt, a, a + 1);
      LinesRoundTrip(s, a + 1, vs[1..], fmt, values + [x]);
      assert values + [x] + ReparsedItems(vs[1..]) == values + ReparsedItems(vs);
    }
  }
}
