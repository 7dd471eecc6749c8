/** What `Json::parse` accepts and returns, in terms of the grammar alone. */
module JsonTheorems {
  import opened Bytes
  import opened JsonValue
  import opened JsonOrder
  import opened JsonScan
  import opened JsonGrammar
  import opened JsonComplete
  import opened JsonSound

  /** `s` is the JSON text `t` with white space on both sides (section 2 of RFC 8259). */
  predicate Derives(s: bytes, before: bytes, t: Syntax, after: bytes) {
    Good(t) && Blank(before) && Blank(after) && s == before + (Text(t) + after)
  }

  /** On every JSON text the parser returns its value, unless it is nested more than 200 deep; then the
      depth limit is the error it reports. */
  lemma ParseExact(s: bytes, before: bytes, t: Syntax, after: bytes)
    requires Derives(s, before, t, after)
    ensures ParseText(s) == if Nesting(t) <= MAX_DEPTH then Ok(Eval(t), |s|) else Fail(TooDeep)
  {
    hide ValueAt, At, Text, Good;
    var v := |before|;
    var a := v + |Text(t)|;
    assert At(s, 0, s) by {
      WholeAt(s);
    }
    AtSplit(s, 0, s, before, v, Text(t) + after);
    AtSplit(s, v, Text(t) + after, Text(t), a, after);
    StopEnds(s, a, after, |s|, t);
    ValueComplete(s, 0, before, v, t, a, 0);
    SkipSpaceAt(s, a, after, |s|);
  }

  lemma WholeAt(s: bytes)
    ensures At(s, 0, s)
  {
    assert s[0..|s|] == s;
  }

  /** Every text the parser accepts is a JSON text. */
  lemma ParseSound(s: bytes) returns (before: bytes, t: Syntax, after: bytes)
    requires ParseText(s).Ok?
    ensures Derives(s, before, t, after)
  {
    hide ValueAt, Text, Good;
    var i := ValueAt(s, 0, 0).next;
    before, t := ValueSound(s, 0, 0);
    SkipSpaceSound(s, i, |s|);
    after := s[i..|s|];
    assert s == s[0..i] + s[i..|s|];
    assert s == before + Text(t) + after;
    assert before + Text(t) + after == before + (Text(t) + after);
  }

  /** The parser succeeds with value `v` exactly on the JSON texts nested at most 200 deep whose value
      is `v`. */
  lemma ParseIffJson(s: bytes, v: Json)
    ensures ParseText(s) == Ok(v, |s|) <==>
            exists before, t, after :: Derives(s, before, t, after) && Nesting(t) <= MAX_DEPTH && Eval(t) == v
  {
    if ParseText(s) == Ok(v, |s|) {
      var before, t, after := ParseSound(s);
      ParseExact(s, before, t, after);
    }
    if before, t, after :| Derives(s, before, t, after) && Nesting(t) <= MAX_DEPTH && Eval(t) == v {
      ParseExact(s, before, t, after);
    }
  }

  /** The parser fails exactly on the inputs that are no JSON text nested at most 200 deep. */
  lemma ParseFailsIff(s: bytes)
    ensures ParseText(s).Fail? <==>
            forall before, t, after :: Derives(s, before, t, after) ==> Nesting(t) > MAX_DEPTH
  {
    if ParseText(s).Ok? {
      var before, t, after := ParseSound(s);
      ParseExact(s, before, t, after);
    } else {
      forall before, t, after | Derives(s, before, t, after)
        ensures Nesting(t) > MAX_DEPTH
      {
        ParseExact(s, before, t, after);
      }
    }
  }

  // Objects with repeated names.

  datatype Found = Absent | Found(value: Json)

  function Lookup(ms: seq<Member>, key: bytes): Found {
    if ms == [] then Absent
    else if ms[0].key == key then Found(ms[0].value)
    else Lookup(ms[1..], key)
  }

  /** The value of the last member of the text with this name. */
  function LastNamed(ps: seq<Pair>, key: bytes): Found
    requires GoodPairs(ps)
  {
    if ps == [] then Absent
    else if LastNamed(ps[1..], key).Found? then LastNamed(ps[1..], key)
    else if StringValue(ps[0].key) == key then Found(Eval(ps[0].value))
    else Absent
  }

  lemma {:induction false} PutLookup(ms: seq<Member>, key: bytes, value: Json, k: bytes)
    requires Sorted(ms)
    ensures Lookup(Put(ms, key, value), k) == if k == key then Found(value) else Lookup(ms, k)
  {
    if ms == [] || BytesLess(key, ms[0].key) {
      assert ([Member(key, value)] + ms)[1..] == ms;
      if k == key {
        CmpBytesMeaning(key, key);
      }
    } else if key != ms[0].key {
      assert ([ms[0]] + Put(ms[1..], key, value))[1..] == Put(ms[1..], key, value);
      PutLookup(ms[1..], key, value, k);
    } else {
      assert ([Member(key, value)] + ms[1..])[1..] == ms[1..];
    }
  }

  /** `b` is below the keys of `ms`. */
  predicate Below(b: bytes, ms: seq<Member>) {
    forall k | 0 <= k < |ms| :: BytesLess(b, ms[k].key)
  }

  lemma SortedTail(m: Member, ms: seq<Member>)
    ensures Sorted([m] + ms) <==> Sorted(ms) && Below(m.key, ms)
  {
    var all := [m] + ms;
    if Sorted(all) {
      forall k | 0 <= k < |ms| ensures BytesLess(m.key, ms[k].key) {
        assert BytesLess(all[0].key, all[k + 1].key);
      }
      forall i, j | 0 <= i < j < |ms| ensures BytesLess(ms[i].key, ms[j].key) {
        assert BytesLess(all[i + 1].key, all[j + 1].key);
      }
    }
  }

  lemma BytesLessTransitive(a: bytes, b: bytes, c: bytes)
    requires BytesLess(a, b) && BytesLess(b, c)
    ensures BytesLess(a, c)
  {
    CmpBytesMeaning(a, b);
    CmpBytesMeaning(b, c);
    CmpBytesMeaning(a, c);
    CmpBytesTransitive(a, b, c);
  }

  lemma {:induction false} PutSorted(ms: seq<Member>, key: bytes, value: Json)
    requires Sorted(ms)
    ensures Sorted(Put(ms, key, value))
    ensures forall b | BytesLess(b, key) && Below(b, ms) :: Below(b, Put(ms, key, value))
  {
    hide BytesLess;
    if ms == [] {
    } else {
      var m, rest := ms[0], ms[1..];
      assert ms == [m] + rest;
      SortedTail(m, rest);
      CmpBytesMeaning(key, m.key);
      CmpBytesMeaning(m.key, key);
      if BytesLess(key, m.key) {
        forall k | 0 <= k < |ms| ensures BytesLess(key, ms[k].key) {
          if k > 0 {
            BytesLessTransitive(key, m.key, ms[k].key);
          }
        }
        SortedTail(Member(key, value), ms);
      } else if key == m.key {
        SortedTail(Member(key, value), rest);
      } else {
        PutSorted(rest, key, value);
        SortedTail(m, Put(rest, key, value));
      }
    }
  }

  /** For a repeated name the last value wins, and an object always has its keys in order, each once. */
  lemma {:induction false} LastValueWins(ps: seq<Pair>, data: seq<Member>, key: bytes)
    requires GoodPairs(ps) && Sorted(data)
    ensures Sorted(EvalPairs(ps, data))
    ensures Lookup(EvalPairs(ps, data), key) ==
            if LastNamed(ps, key).Found? then LastNamed(ps, key) else Lookup(data, key)
    decreases |ps|
  {
    if ps != [] {
      var name, value := StringValue(ps[0].key), Eval(ps[0].value);
      PutSorted(data, name, value);
      PutLookup(data, name, value, key);
      LastValueWins(ps[1..], Put(data, name, value), key);
    }
  }

  predicate MapValues(ms: seq<Member>) {
    forall k | 0 <= k < |ms| :: IsMap(ms[k].value)
  }

  lemma {:induction false} PutMapValues(ms: seq<Member>, key: bytes, value: Json)
    requires MapValues(ms) && IsMap(value)
    ensures MapValues(Put(ms, key, value))
  {
    hide IsMap, BytesLess;
    if ms != [] && !BytesLess(key, ms[0].key) && key != ms[0].key {
      PutMapValues(ms[1..], key, value);
    }
  }

  /** Every object the parser returns, at any depth, has its keys in order and each once. */
  lemma {:induction false} EvalIsMap(t: Syntax)
    requires Good(t)
    ensures IsMap(Eval(t))
    decreases t, 1
  {
    match t
    case List(_, es) => EvalElemsAreMaps(es);
    case Dict(_, ps) =>
      EvalPairsAreMaps(ps, []);
      LastValueWins(ps, [], []);
    case _ =>
  }

  lemma {:induction false} EvalElemsAreMaps(es: seq<Elem>)
    requires GoodElems(es)
    ensures forall k | 0 <= k < |EvalElems(es)| :: IsMap(EvalElems(es)[k])
    decreases es, 0
  {
    if es != [] {
      EvalIsMap(es[0].value);
      EvalElemsAreMaps(es[1..]);
    }
  }

  lemma {:induction false} EvalPairsAreMaps(ps: seq<Pair>, data: seq<Member>)
    requires GoodPairs(ps) && MapValues(data)
    ensures MapValues(EvalPairs(ps, data))
    decreases ps, 0
  {
    hide IsMap, Put, StringValue;
    if ps != [] {
      EvalIsMap(ps[0].value);
      PutMapValues(data, StringValue(ps[0].key), Eval(ps[0].value));
      EvalPairsAreMaps(ps[1..], Put(data, StringValue(ps[0].key), Eval(ps[0].value)));
    }
  }
}
