/** Characters written as `\u` escapes, beyond the Basic Multilingual Plane as surrogate pairs, come out
    of `parse_string` as their UTF-8. */
module JsonUnicode {
  import opened Bytes
  import opened Utf8
  import opened JsonScan
  import opened JsonGrammar
  import opened JsonStrings

  /** A character written with escapes, or a byte written as itself or as a two-character escape. */
  datatype Character = Escaped(u: int) | Verbatim(b: byte)

  predicate GoodCharacters(cs: seq<Character>) {
    forall k | 0 <= k < |cs| :: cs[k].Escaped? ==> IsScalar(cs[k].u)
  }

  /** Section 7 of RFC 8259: one escape, or the twelve-character pair for a code point above U+FFFF. */
  function CharacterUnits(c: Character): (us: seq<Unit>)
    requires c.Escaped? ==> IsScalar(c.u)
    ensures GoodUnits(us)
  {
    match c
    case Verbatim(b) => [Raw(b)]
    case Escaped(u) =>
      if u < 0x10000 then [Code(u)]
      else [Code(0xD800 + (u - 0x10000) / 1024), Code(0xDC00 + (u - 0x10000) % 1024)]
  }

  function UnitsOf(cs: seq<Character>): (us: seq<Unit>)
    requires GoodCharacters(cs)
    ensures GoodUnits(us)
  {
    if cs == [] then [] else CharacterUnits(cs[0]) + UnitsOf(cs[1..])
  }

  /** The UTF-8 of the characters, one after the other (section 3 of RFC 3629). */
  function Utf8Of(cs: seq<Character>): bytes
    requires GoodCharacters(cs)
  {
    if cs == [] then []
    else (match cs[0] case Verbatim(b) => [b] case Escaped(u) => EncodeUtf8(u)) + Utf8Of(cs[1..])
  }

  lemma JoinCharacter(c: Character, us: seq<Unit>)
    requires (c.Escaped? ==> IsScalar(c.u)) && GoodUnits(us)
    ensures Join(CharacterUnits(c) + us) ==
            (match c case Verbatim(b) => [b] case Escaped(u) => EncodeUtf8(u)) + Join(us)
  {
    var all := CharacterUnits(c) + us;
    assert all[|CharacterUnits(c)|..] == us;
    if c.Escaped? && c.u >= 0x10000 {
      var high, low := 0xD800 + (c.u - 0x10000) / 1024, 0xDC00 + (c.u - 0x10000) % 1024;
      assert all[0] == Code(high) && all[1] == Code(low);
      assert PairValue(high, low) == c.u;
    } else {
      assert all[0] == CharacterUnits(c)[0];
    }
  }

  lemma {:induction false} JoinCharacters(cs: seq<Character>)
    requires GoodCharacters(cs)
    ensures Join(UnitsOf(cs)) == Utf8Of(cs)
  {
    if cs != [] {
      JoinCharacters(cs[1..]);
      JoinCharacter(cs[0], UnitsOf(cs[1..]));
    }
  }

  /** A string whose escapes spell out `cs` is read as the UTF-8 of `cs`. */
  lemma EscapedCharacters(s: bytes, i: nat, its: seq<Item>, cs: seq<Character>)
    requires GoodItems(its) && At(s, i, CharsText(its)) && GoodCharacters(cs) && Units(its) == UnitsOf(cs)
    ensures StringAt(s, i) == Ok(Utf8Of(cs), i + |CharsText(its)|)
  {
    StringExact(s, i, its);
    JoinCharacters(cs);
  }

  /** Two lists of escaped characters with the same UTF-8 are the same list. */
  lemma {:induction false} Utf8Injective(cs: seq<Character>, ds: seq<Character>)
    requires GoodCharacters(cs) && GoodCharacters(ds) && Utf8Of(cs) == Utf8Of(ds)
    requires forall k | 0 <= k < |cs| :: cs[k].Escaped?
    requires forall k | 0 <= k < |ds| :: ds[k].Escaped?
    ensures cs == ds
  {
    if cs != [] && ds != [] {
      EncodeInjective(cs[0].u, ds[0].u, Utf8Of(cs[1..]), Utf8Of(ds[1..]));
      Utf8Injective(cs[1..], ds[1..]);
      assert cs == [cs[0]] + cs[1..] && ds == [ds[0]] + ds[1..];
    }
  }

  // When the result of `parse_string` is UTF-8.

  predicate ValidUtf8(t: bytes) {
    t == [] || (DecodeFirst(t).Decoded? && ValidUtf8(t[DecodeFirst(t).width..]))
  }

  /** Every high surrogate is followed by a low one, and no low one stands alone. */
  predicate Paired(us: seq<Unit>) {
    us == [] ||
    if us[0].Code? && IsHighSurrogate(us[0].u) then
      |us| > 1 && us[1].Code? && IsLowSurrogate(us[1].u) && Paired(us[2..])
    else !(us[0].Code? && IsLowSurrogate(us[0].u)) && Paired(us[1..])
  }

  /** The bytes before the first code unit. */
  function RawRun(us: seq<Unit>): bytes {
    if us == [] || us[0].Code? then [] else [us[0].b] + RawRun(us[1..])
  }

  /** The bytes between code units are UTF-8. */
  predicate RawUtf8(us: seq<Unit>)
    decreases |us|
  {
    us == [] ||
    if us[0].Code? then RawUtf8(us[1..])
    else
      var d := DecodeFirst(RawRun(us));
      d.Decoded? && d.width <= |us| && RawUtf8(us[d.width..])
  }

  /** A character is read from its own bytes, whatever follows them. */
  lemma DecodeOwnBytes(t: bytes, t': bytes)
    requires DecodeFirst(t).Decoded?
    requires var w := DecodeFirst(t).width; w <= |t'| && t'[..w] == t[..w]
    ensures DecodeFirst(t') == DecodeFirst(t)
  {
    var w := DecodeFirst(t).width;
    assert forall j | 0 <= j < w :: t'[j] == t'[..w][j] == t[j];
  }

  function Raws(x: bytes): (us: seq<Unit>)
    ensures |us| == |x| && GoodUnits(us)
  {
    seq(|x|, k requires 0 <= k < |x| => Raw(x[k]))
  }

  lemma RawsStep(x: bytes, rest: seq<Unit>)
    requires x != []
    ensures Raws(x) + rest == [Raw(x[0])] + (Raws(x[1..]) + rest)
  {
  }

  lemma OneRaw(b: byte, us: seq<Unit>)
    requires GoodUnits(us)
    ensures GoodUnits([Raw(b)] + us) && Join([Raw(b)] + us) == [b] + Join(us)
    ensures (Paired([Raw(b)] + us) <==> Paired(us)) && RawRun([Raw(b)] + us) == [b] + RawRun(us)
  {
    assert ([Raw(b)] + us)[1..] == us;
  }

  /** Bytes join as themselves, and are neither paired nor in the way of pairs. */
  lemma {:induction false} JoinRaws(x: bytes, rest: seq<Unit>)
    requires GoodUnits(rest)
    ensures GoodUnits(Raws(x) + rest) && Join(Raws(x) + rest) == x + Join(rest)
    ensures (Paired(Raws(x) + rest) <==> Paired(rest)) && RawRun(Raws(x) + rest) == x + RawRun(rest)
    decreases |x|
  {
    hide Join, Paired, RawRun, GoodUnits;
    if x == [] {
      assert Raws(x) + rest == rest;
    } else {
      JoinRaws(x[1..], rest);
      RawsStep(x, rest);
      OneRaw(x[0], Raws(x[1..]) + rest);
      assert forall y: bytes :: x + y == [x[0]] + (x[1..] + y);
    }
  }

  lemma {:induction false} RunSplit(us: seq<Unit>, w: nat)
    requires GoodUnits(us) && w <= |RawRun(us)|
    ensures w <= |us| && us == Raws(RawRun(us)[..w]) + us[w..]
    decreases w
  {
    if w > 0 {
      RunSplit(us[1..], w - 1);
      var run := RawRun(us[1..]);
      assert RawRun(us)[..w] == [us[0].b] + run[..w - 1];
      RawsStep(RawRun(us)[..w], us[w..]);
      assert us == [us[0]] + us[1..] && us[1..][w - 1..] == us[w..];
    }
  }

  lemma ValidStep(t: bytes, x: bytes, rest: bytes)
    requires t == x + rest && DecodeFirst(t).Decoded? && DecodeFirst(t).width == |x|
    ensures ValidUtf8(t) <==> ValidUtf8(rest)
  {
    assert t[|x|..] == rest;
  }

  lemma JoinFirst(u: nat, us: seq<Unit>)
    requires u < 0x10000 && GoodUnits(us)
    ensures GoodUnits([Code(u)] + us)
    ensures Join([Code(u)] + us) ==
      if IsHighSurrogate(u) && us != [] && us[0].Code? && IsLowSurrogate(us[0].u) then
        EncodeUtf8(PairValue(u, us[0].u)) + Join(us[1..])
      else EncodeUtf8(u) + Join(us)
  {
    var all := [Code(u)] + us;
    assert all[0] == Code(u) && all[1..] == us;
    if us != [] {
      assert all[1] == us[0] && all[2..] == us[1..];
    }
  }

  lemma {:induction false} RunEnds(us: seq<Unit>)
    ensures |RawRun(us)| <= |us| && (|RawRun(us)| < |us| ==> us[|RawRun(us)|].Code?)
  {
    if us != [] && us[0].Raw? {
      RunEnds(us[1..]);
    }
  }

  lemma CodeStarts(us: seq<Unit>)
    requires GoodUnits(us) && us != [] && us[0].Code?
    ensures Join(us) != [] && !IsTail(Join(us)[0])
  {
  }

  lemma DecodedTails(t: bytes)
    requires DecodeFirst(t).Decoded?
    ensures forall j | 1 <= j < DecodeFirst(t).width :: IsTail(t[j])
  {
  }

  /** No code unit completes a character that bytes before it have begun. */
  lemma RunDecodes(us: seq<Unit>)
    requires GoodUnits(us) && us != [] && us[0].Raw? && DecodeFirst(Join(us)).Decoded?
    ensures DecodeFirst(RawRun(us)) == DecodeFirst(Join(us))
  {
    hide DecodeFirst, Join, IsTail;
    var run, w := RawRun(us), DecodeFirst(Join(us)).width;
    RunEnds(us);
    RunSplit(us, |run|);
    assert run[..|run|] == run;
    var rest := us[|run|..];
    JoinRaws(run, rest);
    DecodedTails(Join(us));
    if rest == [] {
      NoUnitsJoin();
    } else {
      CodeStarts(rest);
      assert Join(us)[|run|] == Join(rest)[0];
    }
    assert w <= |run|;
    DecodeOwnBytes(Join(us), run);
  }

  lemma NoUnitsJoin()
    ensures Join([]) == []
  {
  }

  /** Units join to UTF-8 exactly when the bytes between code units are UTF-8 and the surrogates among the code units
      are paired. */
  lemma {:induction false} JoinUtf8(us: seq<Unit>)
    requires GoodUnits(us)
    ensures ValidUtf8(Join(us)) <==> RawUtf8(us) && Paired(us)
    decreases |us|
  {
    hide DecodeFirst, EncodeUtf8, RawRun;
    if us == [] {
    } else if us[0].Raw? {
      JoinRawUtf8(us);
      if DecodeFirst(RawRun(us)).Decoded? {
        JoinUtf8(us[DecodeFirst(RawRun(us)).width..]);
      }
    } else {
      var u, rest := us[0].u, us[1..];
      assert us == [Code(u)] + rest;
      JoinFirst(u, rest);
      if IsHighSurrogate(u) && rest != [] && rest[0].Code? && IsLowSurrogate(rest[0].u) {
        var pair := PairValue(u, rest[0].u);
        JoinUtf8(rest[1..]);
        assert us[2..] == rest[1..] && (RawUtf8(us) <==> RawUtf8(rest[1..]));
        EncodeDecode(pair, Join(rest[1..]));
        ValidStep(Join(us), EncodeUtf8(pair), Join(rest[1..]));
      } else {
        JoinUtf8(rest);
        EncodeDecode(u, Join(rest));
        if IsScalar(u) {
          ValidStep(Join(us), EncodeUtf8(u), Join(rest));
        }
      }
    }
  }

  lemma JoinRawUtf8(us: seq<Unit>)
    requires GoodUnits(us) && us != [] && us[0].Raw?
    ensures var d := DecodeFirst(RawRun(us));
      if d.Decoded? then
        d.width <= |us| && (ValidUtf8(Join(us)) <==> ValidUtf8(Join(us[d.width..]))) &&
        (Paired(us) <==> Paired(us[d.width..]))
      else !ValidUtf8(Join(us))
  {
    hide DecodeFirst, EncodeUtf8, RawRun, Paired;
    if DecodeFirst(RawRun(us)).Decoded? {
      var w := DecodeFirst(RawRun(us)).width;
      RunSplit(us, w);
      var x, rest := RawRun(us)[..w], us[w..];
      JoinRaws(x, rest);
      DecodeOwnBytes(RawRun(us), Join(us));
      ValidStep(Join(us), x, Join(rest));
    } else if ValidUtf8(Join(us)) {
      assert Join(us) != [];
      RunDecodes(us);
    }
  }

  // From the text of a string to its units.

  lemma {:induction false} AsciiPrefix(a: bytes, t: bytes)
    requires forall k | 0 <= k < |a| :: a[k] < 0x80
    ensures ValidUtf8(a + t) <==> ValidUtf8(t)
  {
    if a == [] {
      assert a + t == t;
    } else {
      assert (a + t)[1..] == a[1..] + t;
      AsciiPrefix(a[1..], t);
    }
  }

  /** Bytes from 0x80 on are written as themselves. */
  lemma {:induction false} PlainItems(its: seq<Item>, x: bytes, y: bytes)
    requires GoodItems(its) && ItemsText(its) == x + y && forall j | 0 <= j < |x| :: x[j] >= 0x80
    ensures |x| <= |its| && GoodItems(its[|x|..])
    ensures ItemsText(its[|x|..]) == y && Units(its) == Raws(x) + Units(its[|x|..])
    decreases |x|
  {
    hide ItemsText, Units, GoodItems, Raws;
    if x == [] {
      assert its[0..] == its && x + y == y;
      NoRaws(Units(its));
    } else {
      assert (x + y)[0] == x[0];
      OnePlain(its);
      assert x + y == [x[0]] + (x[1..] + y);
      assert ItemsText(its[1..]) == (x + y)[1..] == x[1..] + y;
      PlainItems(its[1..], x[1..], y);
      assert its[1..][|x| - 1..] == its[|x|..];
      RawsStep(x, Units(its[|x|..]));
    }
  }

  lemma NoRaws(us: seq<Unit>)
    ensures us == Raws([]) + us
  {
  }

  lemma OnePlain(its: seq<Item>)
    requires GoodItems(its) && ItemsText(its) != [] && ItemsText(its)[0] >= 0x80
    ensures its != [] && its[0].Plain? && its[0].b == ItemsText(its)[0] && GoodItems(its[1..])
    ensures ItemsText(its) == [its[0].b] + ItemsText(its[1..]) && Units(its) == [Raw(its[0].b)] + Units(its[1..])
  {
    assert ItemsText(its)[0] == ItemText(its[0])[0];
  }

  lemma RawUtf8Step(us: seq<Unit>, w: nat)
    requires us != [] && us[0].Raw? && DecodeFirst(RawRun(us)).Decoded? && DecodeFirst(RawRun(us)).width == w <= |us|
    requires RawUtf8(us[w..])
    ensures RawUtf8(us)
  {
  }

  /** A string whose characters between the quotation marks are UTF-8 has UTF-8 between its escapes. */
  lemma {:induction false} ItemsUtf8(its: seq<Item>)
    requires GoodItems(its) && ValidUtf8(ItemsText(its))
    ensures RawUtf8(Units(its))
    decreases |its|
  {
    hide ItemText, DecodeFirst, Raws, RawUtf8;
    var t := ItemsText(its);
    if its == [] {
      NoUnits();
      return;
    }
    ItemNotEmpty(its[0]);
    if t[0] >= 0x80 {
      var w := WideFirst(t);
      var x := t[..w];
      PlainItems(its, x, t[w..]);
      var rest := its[w..];
      JoinRaws(x, Units(rest));
      DecodeOwnBytes(t, RawRun(Units(its)));
      ValidStep(t, x, ItemsText(rest));
      ItemsUtf8(rest);
      assert Units(its)[w..] == Units(rest);
      RawUtf8Step(Units(its), w);
    } else {
      var rest := its[1..];
      assert its == [its[0]] + rest;
      AsciiItem(its[0], rest);
      AsciiPrefix(ItemText(its[0]), ItemsText(rest));
      ItemsUtf8(rest);
      AsciiUnit(ItemUnit(its[0]), Units(rest));
    }
  }

  lemma NoUnits()
    ensures RawUtf8([])
  {
  }

  lemma WideFirst(t: bytes) returns (w: nat)
    requires t != [] && ValidUtf8(t) && t[0] >= 0x80
    ensures DecodeFirst(t).Decoded? && w == DecodeFirst(t).width <= |t| && w >= 1
    ensures forall j | 0 <= j < w :: t[j] >= 0x80
  {
    w := DecodeFirst(t).width;
  }

  lemma AsciiUnit(unit: Unit, us: seq<Unit>)
    requires (unit.Raw? ==> unit.b < 0x80) && RawUtf8(us)
    ensures RawUtf8([unit] + us)
  {
    var all := [unit] + us;
    assert all[1..] == us;
    if unit.Raw? {
      assert RawRun(all)[0] == unit.b;
    }
  }

  lemma AsciiItem(it: Item, its: seq<Item>)
    requires GoodItem(it) && ItemsText([it] + its)[0] < 0x80
    ensures forall k | 0 <= k < |ItemText(it)| :: ItemText(it)[k] < 0x80
    ensures ItemUnit(it).Raw? ==> ItemUnit(it).b < 0x80
  {
    assert ItemsText([it] + its)[0] == ItemText(it)[0];
  }

  /** `parse_string` gives UTF-8 if and only if the bytes between escapes are UTF-8 and every escaped surrogate is one
      of a pair; on a string that is itself UTF-8, if and only if the latter. */
  lemma StringUtf8(s: bytes, i: nat, its: seq<Item>)
    requires GoodItems(its) && At(s, i, CharsText(its))
    ensures StringAt(s, i).Ok?
    ensures ValidUtf8(StringAt(s, i).value) <==> RawUtf8(Units(its)) && Paired(Units(its))
    ensures ValidUtf8(ItemsText(its)) ==> RawUtf8(Units(its))
  {
    StringExact(s, i, its);
    JoinUtf8(Units(its));
    if ValidUtf8(ItemsText(its)) {
      ItemsUtf8(its);
    }
  }

  /** A surrogate without its partner leads to bytes that are not UTF-8, whatever comes after it. */
  lemma LoneSurrogate(u: nat, us: seq<Unit>)
    requires IsLowSurrogate(u) || (IsHighSurrogate(u) && (us != [] && us[0].Code? ==> !IsLowSurrogate(us[0].u)))
    requires GoodUnits(us)
    ensures GoodUnits([Code(u)] + us) && DecodeFirst(Join([Code(u)] + us)) == Malformed
  {
    JoinFirst(u, us);
    EncodeDecode(u, Join(us));
  }
}
