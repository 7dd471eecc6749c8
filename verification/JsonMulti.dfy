/** Which inputs `Json::parse_multi` accepts, which values it returns, and where it stops on the others. */
module JsonMulti {
  import opened Bytes
  import opened JsonLexemes
  import opened JsonValue
  import opened JsonScan
  import opened JsonGrammar
  import opened JsonComplete
  import opened JsonSound

  /** A value with the white space after it. */
  datatype Document = Document(t: Syntax, after: bytes)

  function DocumentsText(ds: seq<Document>): bytes {
    if ds == [] then [] else Text(ds[0].t) + (ds[0].after + DocumentsText(ds[1..]))
  }

  predicate GoodDocuments(ds: seq<Document>) {
    ds == [] ||
    (Good(ds[0].t) && Nesting(ds[0].t) <= MAX_DEPTH && Blank(ds[0].after) && GoodDocuments(ds[1..]))
  }

  function DocumentsValue(ds: seq<Document>): seq<Json>
    requires GoodDocuments(ds)
  {
    if ds == [] then [] else [Eval(ds[0].t)] + DocumentsValue(ds[1..])
  }

  /** The first byte of `t`, or of what follows it. */
  function First(t: bytes, c: byte): byte {
    if t == [] then c else t[0]
  }

  /** No number runs into what stands after it; `c` follows the last value. */
  predicate Apart(ds: seq<Document>, c: byte) {
    ds == [] ||
    (Ends(ds[0].t, First(ds[0].after + DocumentsText(ds[1..]), c)) && Apart(ds[1..], c))
  }

  /** From `i` to `stop`, `s` is white space and the values `ds`. */
  predicate Layout(s: bytes, i: nat, before: bytes, ds: seq<Document>, stop: nat) {
    && GoodDocuments(ds) && Apart(ds, CharAt(s, stop)) && Blank(before)
    && At(s, i, before + DocumentsText(ds)) && stop == i + |before| + |DocumentsText(ds)|
    && if ds == [] then before == [] else !IsSpace(CharAt(s, stop))
  }

  lemma FirstAt(s: bytes, a: nat, t: bytes, b: nat)
    requires At(s, a, t) && b == a + |t|
    ensures CharAt(s, a) == First(t, CharAt(s, b))
  {
    if t != [] {
      AtHead(s, a, t);
    }
  }

  lemma LayoutParts(s: bytes, i: nat, before: bytes, ds: seq<Document>, stop: nat, v: nat, a: nat, b: nat)
    requires ds != [] && At(s, i, before + DocumentsText(ds)) && stop == i + |before| + |DocumentsText(ds)|
    requires v == i + |before| && a == v + |Text(ds[0].t)| && b == a + |ds[0].after|
    ensures At(s, i, before) && At(s, v, Text(ds[0].t)) && At(s, a, ds[0].after) && At(s, b, DocumentsText(ds[1..]))
    ensures stop == b + |DocumentsText(ds[1..])|
    ensures CharAt(s, a) == First(ds[0].after + DocumentsText(ds[1..]), CharAt(s, stop))
  {
    hide Text, At, First;
    var d, rest := ds[0], DocumentsText(ds[1..]);
    AtSplit(s, i, before + DocumentsText(ds), before, v, DocumentsText(ds));
    AtSplit(s, v, DocumentsText(ds), Text(d.t), a, d.after + rest);
    AtSplit(s, a, d.after + rest, d.after, b, rest);
    FirstAt(s, a, d.after + rest, stop);
  }

  /** The first value of a layout, and what follows it. */
  lemma LayoutHead(s: bytes, i: nat, before: bytes, ds: seq<Document>, stop: nat, v: nat, a: nat, b: nat)
    requires ds != [] && Layout(s, i, before, ds, stop)
    requires v == i + |before| && a == v + |Text(ds[0].t)| && b == a + |ds[0].after|
    ensures Good(ds[0].t) && Nesting(ds[0].t) <= MAX_DEPTH && Blank(ds[0].after) && Ends(ds[0].t, CharAt(s, a))
    ensures At(s, i, before) && At(s, v, Text(ds[0].t)) && At(s, a, ds[0].after)
    ensures Layout(s, b, [], ds[1..], stop)
  {
    hide Text, At, Ends, Good, Nesting, First, DocumentsText;
    LayoutParts(s, i, before, ds, stop, v, a, b);
    assert [] + DocumentsText(ds[1..]) == DocumentsText(ds[1..]);
  }

  /** What stands after the white space of a value is none. */
  lemma NextStarts(s: bytes, b: nat, ds: seq<Document>, stop: nat)
    requires Layout(s, b, [], ds, stop) && (ds == [] ==> !IsSpace(CharAt(s, stop)))
    ensures !IsSpace(CharAt(s, b)) && b <= |s|
  {
    hide Text, At, Ends;
    if ds != [] {
      LayoutHead(s, b, [], ds, stop, b, b + |Text(ds[0].t)|, b + |Text(ds[0].t)| + |ds[0].after|);
      FirstByte(s, b, ds[0].t);
    }
    EndInside(s, b, [] + DocumentsText(ds));
  }

  lemma EndInside(s: bytes, i: nat, t: bytes)
    requires At(s, i, t)
    ensures i + |t| <= |s|
  {
  }

  /** Values laid out from `i` on are read one after the other, and the reading goes on after them. */
  lemma {:induction false} DocumentsComplete(s: bytes, i: nat, before: bytes, ds: seq<Document>, stop: nat)
    requires Layout(s, i, before, ds, stop)
    ensures i <= stop <= |s|
    ensures ReadFrom(s, i).0 == DocumentsValue(ds) + ReadFrom(s, stop).0 && ReadFrom(s, i).1 == ReadFrom(s, stop).1
    decreases |ds|
  {
    hide Text, At, Ends, ValueAt, SkipSpace, Eval, Nesting, Good, Blank, First, Apart;
    EndInside(s, i, before + DocumentsText(ds));
    if ds != [] {
      var d, v := ds[0], i + |before|;
      var a := v + |Text(d.t)|;
      var b := a + |d.after|;
      LayoutHead(s, i, before, ds, stop, v, a, b);
      FirstByte(s, v, d.t);
      ValueComplete(s, i, before, v, d.t, a, 0);
      NextStarts(s, b, ds[1..], stop);
      SkipSpaceAt(s, a, d.after, b);
      DocumentsComplete(s, b, [], ds[1..], stop);
      Regroup([Eval(d.t)], DocumentsValue(ds[1..]), ReadFrom(s, stop).0);
    }
  }

  /** A value before values that are laid out. */
  lemma LayoutJoin(s: bytes, i: nat, before: bytes, d: Document, b: nat, ds: seq<Document>, stop: nat)
    requires Blank(before) && Good(d.t) && Nesting(d.t) <= MAX_DEPTH && Blank(d.after)
    requires At(s, i, before + Text(d.t)) && b == i + |before + Text(d.t)| + |d.after|
    requires At(s, b - |d.after|, d.after) && Ends(d.t, CharAt(s, b - |d.after|))
    requires Layout(s, b, [], ds, stop) && !IsSpace(CharAt(s, stop))
    ensures Layout(s, i, before, [d] + ds, stop)
  {
    hide Text, At, Ends;
    var all, rest := [d] + ds, DocumentsText(ds);
    assert all[1..] == ds && [] + rest == rest;
    var v := i + |before|;
    var a := v + |Text(d.t)|;
    AtSplit(s, i, before + Text(d.t), before, v, Text(d.t));
    AtJoin(s, a, d.after, b, rest);
    AtJoin(s, v, Text(d.t), a, d.after + rest);
    AtJoin(s, i, before, v, DocumentsText(all));
    FirstAt(s, a, d.after + rest, stop);
  }

  /** What is read from `i` on is white space and values, up to where the reading stops. */
  lemma {:induction false} DocumentsSound(s: bytes, i: nat) returns (before: bytes, ds: seq<Document>)
    requires i <= |s|
    ensures Layout(s, i, before, ds, ReadFrom(s, i).1) && ReadFrom(s, i).0 == DocumentsValue(ds)
    ensures !IsSpace(CharAt(s, i)) ==> before == []
    decreases |s| - i
  {
    hide Text, Ends, ValueAt, SkipSpace, Eval, Nesting;
    if i == |s| || ValueAt(s, i, 0).Fail? {
      before, ds := [], [];
    } else {
      var t: Syntax;
      before, t := ValueSound(s, i, 0);
      var a := ValueAt(s, i, 0).next;
      var j := SkipSpace(s, a);
      ValueRead(s, i, before, t, a);
      SkipSpaceSound(s, a, j);
      var before', ds' := DocumentsSound(s, j);
      var d := Document(t, s[a..j]);
      hide At;
      AfterAll(s, j, ds', ReadFrom(s, j).1);
      LayoutJoin(s, i, before, d, j, ds', ReadFrom(s, j).1);
      ds := [d] + ds';
      assert ds[1..] == ds';
      if before != [] {
        AtSplit(s, i, before + Text(t), before, i + |before|, Text(t));
        AtHead(s, i, before);
      }
    }
  }

  lemma AfterAll(s: bytes, j: nat, ds: seq<Document>, stop: nat)
    requires !IsSpace(CharAt(s, j)) && Layout(s, j, [], ds, stop)
    ensures !IsSpace(CharAt(s, stop))
  {
  }

  /** A value that is read has the value of its tree, and is nested at most 200 deep. */
  lemma ValueRead(s: bytes, i: nat, w: bytes, t: Syntax, next: nat)
    requires ReadsAs(s, i, w, t, next)
    ensures ValueAt(s, i, 0) == Outcome(Eval(t), next, Nesting(t))
  {
    hide Text, Ends, ValueAt, At;
    AtSplit(s, i, w + Text(t), w, i + |w|, Text(t));
    ValueComplete(s, i, w, i + |w|, t, next, 0);
  }

  /** At `stop` the input ends, or no value nested at most 200 deep stands there. */
  ghost predicate Stops(s: bytes, stop: nat) {
    stop == |s| || forall w, t, next | ReadsAs(s, stop, w, t, next) :: Nesting(t) > MAX_DEPTH
  }

  lemma StopsIff(s: bytes, stop: nat)
    requires stop <= |s|
    ensures Stops(s, stop) <==> ReadFrom(s, stop) == ([], stop)
  {
    hide ReadsAs, ValueAt, SkipSpace, Nesting, Eval;
    if stop < |s| {
      if ValueAt(s, stop, 0).Ok? {
        var w, t := ValueSound(s, stop, 0);
        ValueRead(s, stop, w, t, ValueAt(s, stop, 0).next);
      } else {
        forall w, t, next | ReadsAs(s, stop, w, t, next)
          ensures Nesting(t) > MAX_DEPTH
        {
          ValueRead(s, stop, w, t, next);
        }
      }
    }
  }

  lemma DocumentsRead(s: bytes, before: bytes, ds: seq<Document>, stop: nat)
    requires Layout(s, 0, before, ds, stop) && stop <= |s| && Stops(s, stop)
    ensures ReadFrom(s, 0) == (DocumentsValue(ds), stop)
  {
    hide Stops, At, Text, ReadFrom;
    DocumentsComplete(s, 0, before, ds, stop);
    StopsIff(s, stop);
    assert DocumentsValue(ds) + [] == DocumentsValue(ds);
  }

  /** `parse_multi` reads `values` and stops at `stop` exactly when the input is white space and texts of these values
      up to there, and at `stop` ends or goes on with something else than a value. */
  lemma ReadIff(s: bytes, values: seq<Json>, stop: nat)
    ensures ReadFrom(s, 0) == (values, stop) <==>
            stop <= |s| && Stops(s, stop) &&
            exists before, ds :: Layout(s, 0, before, ds, stop) && DocumentsValue(ds) == values
  {
    hide Stops, At, Text, ReadFrom, DocumentsText, Apart;
    if ReadFrom(s, 0) == (values, stop) {
      var before, ds := DocumentsSound(s, 0);
      DocumentsComplete(s, 0, before, ds, stop);
      assert |values| == |values| + |ReadFrom(s, stop).0|;
      StopsIff(s, stop);
    }
    if before, ds :| stop <= |s| && Stops(s, stop) && Layout(s, 0, before, ds, stop) && DocumentsValue(ds) == values {
      DocumentsRead(s, before, ds, stop);
    }
  }

  /** `parse_multi` succeeds where the reading reaches the end, and fails for the value at which it stops otherwise. */
  lemma {:induction false} ParseTextsIs(s: bytes, i: nat, values: seq<Json>)
    requires i <= |s|
    ensures ReadFrom(s, i).1 < |s| ==> ValueAt(s, ReadFrom(s, i).1, 0).Fail?
    ensures var (read, stop) := ReadFrom(s, i);
      ParseTexts(s, i, values) ==
      if stop == |s| then Ok(values + read, stop) else Fail(ValueAt(s, stop, 0).error)
    decreases |s| - i
  {
    hide ValueAt, SkipSpace, ReadFrom, ParseTexts;
    if i == |s| {
      ReadDone(s, values);
      assert values + [] == values;
    } else {
      ReadTurn(s, i, values);
      if ValueAt(s, i, 0).Ok? {
        ParseTextsIs(s, SkipSpace(s, ValueAt(s, i, 0).next), values + [ValueAt(s, i, 0).value]);
      }
    }
  }

  /** `parse_multi` accepts the empty input, and texts of values nested at most 200 deep with white space before,
      between and after them, which a number needs where the next text would continue it; it returns their values. */
  lemma ParseMultiIff(s: bytes, values: seq<Json>)
    ensures ParseTexts(s, 0, []) == Ok(values, |s|) <==>
            exists before, ds :: Layout(s, 0, before, ds, |s|) && DocumentsValue(ds) == values
  {
    hide ReadFrom, ParseTexts, At, Text, DocumentsText, Apart;
    ParseTextsIs(s, 0, []);
    ReadIff(s, values, |s|);
    assert [] + ReadFrom(s, 0).0 == ReadFrom(s, 0).0;
  }
}
