/** The string scanner accepts exactly the string grammar, and holding one code point back yields what
    joining surrogate pairs yields. */
module JsonStrings {
  import opened Bytes
  import opened Utf8
  import opened JsonLexemes
  import opened JsonScan
  import opened JsonGrammar

  /** The code unit still held back. */
  function Held(last: int): (us: seq<Unit>)
    requires -1 <= last < 0x10000
    ensures GoodUnits(us)
  {
    if last < 0 then [] else [Code(last)]
  }

  lemma JoinHeld(last: int)
    requires -1 <= last < 0x10000
    ensures Join(Held(last)) == EncodeUtf8(last)
  {
  }

  lemma JoinRaw(last: int, b: byte, us: seq<Unit>)
    requires -1 <= last < 0x10000 && GoodUnits(us)
    ensures Join(Held(last) + ([Raw(b)] + us)) == EncodeUtf8(last) + [b] + Join(us)
  {
    var all := Held(last) + ([Raw(b)] + us);
    assert ([Raw(b)] + us)[1..] == us;
    if last >= 0 {
      assert all[1..] == [Raw(b)] + us;
    } else {
      assert all == [Raw(b)] + us;
    }
  }

  lemma JoinCode(last: int, u: nat, us: seq<Unit>)
    requires -1 <= last < 0x10000 && u < 0x10000 && GoodUnits(us)
    ensures Join(Held(last) + ([Code(u)] + us)) ==
            if IsHighSurrogate(last) && IsLowSurrogate(u) then EncodeUtf8(PairValue(last, u)) + Join(us)
            else EncodeUtf8(last) + Join(Held(u) + us)
  {
    var all := Held(last) + ([Code(u)] + us);
    if last >= 0 {
      assert all[1..] == [Code(u)] + us;
      assert all[2..] == us;
    } else {
      assert all == [Code(u)] + us;
    }
  }

  lemma AtItems(s: bytes, i: nat, its: seq<Item>)
    requires At(s, i, CharsText(its)) && its != []
    ensures At(s, i, ItemText(its[0])) && At(s, i + |ItemText(its[0])|, CharsText(its[1..]))
    ensures |CharsText(its)| == |ItemText(its[0])| + |CharsText(its[1..])|
  {
    hide At, CharsText, ItemText;
    CharsTextStep(its);
    AtConcat(s, i, ItemText(its[0]), CharsText(its[1..]));
  }

  lemma CharsTextStep(its: seq<Item>)
    requires its != []
    ensures CharsText(its) == ItemText(its[0]) + CharsText(its[1..])
  {
    hide ItemText;
  }

  lemma UnicodeAt(s: bytes, i: nat, h: bytes)
    requires IsHex4(h) && At(s, i, [BACKSLASH, LOWER_U] + h)
    ensures s[i] == BACKSLASH && i + 6 <= |s| && s[i + 1] == LOWER_U && Substr(s, i + 2, 4) == h
  {
    AtConcat(s, i, [BACKSLASH, LOWER_U], h);
    assert s[i] == s[i..i + 2][0] && s[i + 1] == s[i..i + 2][1];
  }

  /** What one turn of the loop does to `out` and the code point held back. */
  function After(out: bytes, last: int, unit: Unit): (r: (bytes, int))
    requires -1 <= last < 0x10000 && GoodUnits([unit])
    ensures -1 <= r.1 < 0x10000
  {
    match unit
    case Raw(b) => (out + EncodeUtf8(last) + [b], -1)
    case Code(u) =>
      assert [unit][0] == unit;
      if IsHighSurrogate(last) && IsLowSurrogate(u) then (out + EncodeUtf8(PairValue(last, u)), -1)
      else (out + EncodeUtf8(last), u)
  }

  lemma StepAt(s: bytes, i: nat, out: bytes, last: int, it: Item)
    requires -1 <= last < 0x10000 && GoodItem(it) && At(s, i, ItemText(it))
    ensures StringFrom(s, i, out, last) ==
            StringFrom(s, i + |ItemText(it)|, After(out, last, ItemUnit(it)).0, After(out, last, ItemUnit(it)).1)
  {
    match it
    case Plain(b) => AtHead(s, i, [b]);
    case Short(c) =>
      AtHead(s, i, [BACKSLASH, c]);
      AtHead(s, i + 1, [c]);
    case Unicode(h) => UnicodeAt(s, i, h);
  }

  lemma JoinAfterRaw(out: bytes, last: int, b: byte, us: seq<Unit>)
    requires -1 <= last < 0x10000 && GoodUnits(us)
    ensures out + Join(Held(last) + ([Raw(b)] + us)) == out + EncodeUtf8(last) + [b] + Join(Held(-1) + us)
  {
    assert Held(-1) + us == us;
    JoinRaw(last, b, us);
  }

  lemma JoinAfterCode(out: bytes, last: int, u: nat, us: seq<Unit>)
    requires -1 <= last < 0x10000 && u < 0x10000 && GoodUnits(us)
    ensures out + Join(Held(last) + ([Code(u)] + us)) ==
            if IsHighSurrogate(last) && IsLowSurrogate(u) then
              out + EncodeUtf8(PairValue(last, u)) + Join(Held(-1) + us)
            else
              out + EncodeUtf8(last) + Join(Held(u) + us)
  {
    hide Join, Held, GoodUnits, EncodeUtf8, PairValue, IsHighSurrogate, IsLowSurrogate;
    GoodCode(u, us);
    NothingHeld(us);
    JoinCode(last, u, us);
    if IsHighSurrogate(last) && IsLowSurrogate(u) {
      assert out + (EncodeUtf8(PairValue(last, u)) + Join(us)) == out + EncodeUtf8(PairValue(last, u)) + Join(us);
    } else {
      assert out + (EncodeUtf8(last) + Join(Held(u) + us)) == out + EncodeUtf8(last) + Join(Held(u) + us);
    }
  }

  lemma NothingHeld(us: seq<Unit>)
    ensures Held(-1) + us == us
  {
  }

  lemma GoodCode(u: nat, us: seq<Unit>)
    requires u < 0x10000 && GoodUnits(us)
    ensures forall last: int | -1 <= last < 0x10000 ::
      GoodUnits(Held(last) + ([Code(u)] + us)) && GoodUnits(Held(last) + us)
  {
  }

  /** Taking one unit leaves the final result the same. */
  lemma JoinAfter(out: bytes, last: int, unit: Unit, us: seq<Unit>)
    requires -1 <= last < 0x10000 && GoodUnits([unit]) && GoodUnits(us)
    ensures GoodUnits([unit] + us)
    ensures out + Join(Held(last) + ([unit] + us)) ==
            After(out, last, unit).0 + Join(Held(After(out, last, unit).1) + us)
  {
    match unit
    case Raw(b) => JoinAfterRaw(out, last, b, us);
    case Code(u) =>
      assert [unit][0] == unit;
      JoinAfterCode(out, last, u, us);
  }

  /** The loop of `parse_string` computes the joined units of the string it stands on. */
  lemma {:induction false} StringComplete(s: bytes, i: nat, out: bytes, last: int, its: seq<Item>, next: nat)
    requires -1 <= last < 0x10000 && GoodItems(its) && At(s, i, CharsText(its)) && next == i + |CharsText(its)|
    ensures StringFrom(s, i, out, last) == Ok(out + Join(Held(last) + Units(its)), next)
    decreases |its|
  {
    if its == [] {
      AtHead(s, i, [QUOTE]);
      JoinHeld(last);
      assert Held(last) + [] == Held(last);
    } else {
      var unit, j := ItemUnit(its[0]), i + |ItemText(its[0])|;
      AtItems(s, i, its);
      StepAt(s, i, out, last, its[0]);
      StringComplete(s, j, After(out, last, unit).0, After(out, last, unit).1, its[1..], next);
      JoinAfter(out, last, unit, Units(its[1..]));
    }
  }

  /** The item at `i` when the loop gets past it, and the state of the loop after it. */
  lemma ItemSound(s: bytes, i: nat, out: bytes, last: int) returns (it: Item, out': bytes, last': int)
    requires i < |s| && -1 <= last < 0x10000 && StringFrom(s, i, out, last).Ok? && s[i] != QUOTE
    ensures GoodItem(it) && At(s, i, ItemText(it)) && -1 <= last' < 0x10000
    ensures StringFrom(s, i, out, last) == StringFrom(s, i + |ItemText(it)|, out', last')
  {
    if s[i] != BACKSLASH {
      assert s[i..i + 1] == [s[i]];
      it, out', last' := Plain(s[i]), out + EncodeUtf8(last) + [s[i]], -1;
    } else if s[i + 1] != LOWER_U {
      assert s[i..i + 2] == [s[i], s[i + 1]];
      it, out', last' := Short(s[i + 1]), out + EncodeUtf8(last) + [ShortEscapeValue(s[i + 1])], -1;
    } else {
      var h := Substr(s, i + 2, 4);
      assert s[i..i + 6] == [BACKSLASH, LOWER_U] + h;
      it, out', last' := Unicode(h), out + EncodeUtf8(last), Hex4(h);
      if IsHighSurrogate(last) && IsLowSurrogate(Hex4(h)) {
        out', last' := out + EncodeUtf8(PairValue(last, Hex4(h))), -1;
      }
    }
  }

  lemma ItemNotEmpty(it: Item)
    ensures ItemText(it) != []
  {
  }

  lemma CloseAt(s: bytes, i: nat)
    requires CharIs(s, i, QUOTE)
    ensures At(s, i, CharsText([]))
  {
    assert s[i..i + 1] == [QUOTE];
  }

  /** Whatever the scanner accepts is a string of the grammar that ends there. */
  lemma {:induction false} StringSound(s: bytes, i: nat, out: bytes, last: int) returns (its: seq<Item>)
    requires i <= |s| && -1 <= last < 0x10000 && StringFrom(s, i, out, last).Ok?
    ensures GoodItems(its) && At(s, i, CharsText(its))
    decreases |s| - i
  {
    hide At, CharsText, ItemText, EncodeUtf8;
    if s[i] == QUOTE {
      CloseAt(s, i);
      its := [];
    } else {
      var it, out', last' := ItemSound(s, i, out, last);
      ItemNotEmpty(it);
      var rest := StringSound(s, i + |ItemText(it)|, out', last');
      its := [it] + rest;
      assert its[1..] == rest;
      CharsTextStep(its);
      AtConcat(s, i, ItemText(it), CharsText(rest));
    }
  }

  /** `parse_string` on a string of the grammar: its value, and the index after its closing mark. */
  lemma StringExact(s: bytes, i: nat, its: seq<Item>)
    requires GoodItems(its) && At(s, i, CharsText(its))
    ensures StringAt(s, i) == Ok(StringValue(its), i + |CharsText(its)|)
  {
    StringComplete(s, i, [], -1, its, i + |CharsText(its)|);
    assert Held(-1) + Units(its) == Units(its);
    assert [] + Join(Units(its)) == Join(Units(its));
  }
}
