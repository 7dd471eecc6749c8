/** Where the text of a syntax tree stands, the parser computes the value of the tree and stops at its
    end; if the tree is nested too deeply it fails for that reason and no other. */
module JsonComplete {
  import opened Bytes
  import opened JsonValue
  import opened JsonLexemes
  import opened JsonScan
  import opened JsonGrammar
  import opened JsonNumbers
  import opened JsonStrings

  lemma {:induction false} SkipSpaceAt(s: bytes, i: nat, w: bytes, j: nat)
    requires Blank(w) && At(s, i, w) && j == i + |w| && !IsSpace(CharAt(s, j))
    ensures SkipSpace(s, i) == j
    decreases |w|
  {
    if w != [] {
      AtHead(s, i, w);
      SkipSpaceAt(s, i + 1, w[1..], j);
    }
  }

  lemma NextTokenAt(s: bytes, i: nat, w: bytes, j: nat)
    requires Blank(w) && At(s, i, w) && j == i + |w| && j < |s| && !IsSpace(s[j])
    ensures NextToken(s, i) == Ok(s[j], j + 1)
  {
    SkipSpaceAt(s, i, w, j);
  }

  /** The first byte of a value's text, which selects the branch of the parser. */
  predicate Opens(t: Syntax, c: byte) {
    match t
    case NullWord => c == 0x6E
    case TrueWord => c == 0x74
    case FalseWord => c == 0x66
    case Number(_) => c == MINUS || IsDigit(c)
    case Chars(_) => c == QUOTE
    case List(_, _) => c == OPEN_BRACKET
    case Dict(_, _) => c == OPEN_BRACE
  }

  lemma FirstByte(s: bytes, i: nat, t: Syntax)
    requires Good(t) && At(s, i, Text(t))
    ensures i < |s| && Opens(t, s[i]) && !IsSpace(s[i])
  {
    AtHead(s, i, Text(t));
  }

  /** What must follow `t` for the scanner to stop at its end: only numbers ask for anything. */
  predicate Ends(t: Syntax, c: byte) {
    t.Number? ==> NumberEnds(t.num, c)
  }

  predicate IsStop(c: byte) {
    IsSpace(c) || c == COMMA || c == CLOSE_BRACKET || c == CLOSE_BRACE || c == 0
  }

  function Outcome(v: Json, next: nat, deepest: nat): Scan<Json> {
    if deepest <= MAX_DEPTH then Ok(v, next) else Fail(TooDeep)
  }

  /** After white space and a stop, `after` ends any value. */
  lemma StopEnds(s: bytes, a: nat, w: bytes, k: nat, t: Syntax)
    requires Blank(w) && At(s, a, w) && k == a + |w| && IsStop(CharAt(s, k))
    ensures Ends(t, CharAt(s, a))
  {
    if w != [] {
      AtHead(s, a, w);
    }
  }

  function ElemsTail(es: seq<Elem>): bytes
    requires es != []
  {
    if |es| == 1 then [] else [COMMA] + ElemsText(es[1..])
  }

  /** Where the parts of an element list lie that stands at `i` with its closing bracket at `last`:
      `v` the first value, `a` its end, `k` the separator or bracket after it. */
  predicate ElemsAt(s: bytes, i: nat, es: seq<Elem>, v: nat, a: nat, k: nat, last: nat)
  {
    && es != [] && GoodElems(es) && At(s, i, ElemsText(es)) && CharIs(s, last, CLOSE_BRACKET)
    && v == i + |es[0].before| && a == v + |Text(es[0].value)| && k == a + |es[0].after|
    && last == k + |ElemsTail(es)|
  }

  lemma ElemsLength(es: seq<Elem>)
    requires es != []
    ensures |ElemsText(es)| == |es[0].before| + |Text(es[0].value)| + |es[0].after| + |ElemsTail(es)|
  {
    hide Text;
  }

  lemma ElemsLayout(s: bytes, i: nat, es: seq<Elem>, v: nat, a: nat, k: nat, last: nat)
    requires ElemsAt(s, i, es, v, a, k, last)
    ensures At(s, i, es[0].before) && At(s, v, Text(es[0].value)) && At(s, a, es[0].after)
    ensures At(s, k, ElemsTail(es))
  {
    hide Text, GoodElems, At;
    AtParts(s, i, ElemsText(es), es[0].before, v, Text(es[0].value), a, es[0].after, k, ElemsTail(es));
  }

  /** The separator or bracket after the first element. */
  lemma ElemsNext(s: bytes, i: nat, es: seq<Elem>, v: nat, a: nat, k: nat, next: nat, last: nat)
    requires ElemsAt(s, i, es, v, a, k, last) && next == k + 1
    ensures CharIs(s, k, if |es| == 1 then CLOSE_BRACKET else COMMA)
    ensures |es| > 1 ==> At(s, next, ElemsText(es[1..])) && last == next + |ElemsText(es[1..])|
  {
    hide Text, GoodElems, At;
    ElemsLayout(s, i, es, v, a, k, last);
    if |es| > 1 {
      AtByte(s, k, ElemsTail(es), COMMA, next, ElemsText(es[1..]));
    }
  }

  lemma ElemsTokens(s: bytes, i: nat, es: seq<Elem>, v: nat, a: nat, k: nat, next: nat, last: nat)
    requires ElemsAt(s, i, es, v, a, k, last) && next == k + 1
    ensures v < |s| && NextToken(s, i) == Ok(s[v], v + 1) && Opens(es[0].value, s[v])
    ensures At(s, v, Text(es[0].value)) && Ends(es[0].value, CharAt(s, a))
    ensures a <= |s| && NextToken(s, a) == Ok(if |es| == 1 then CLOSE_BRACKET else COMMA, next)
  {
    hide Text, ElemsText, NextToken;
    ElemsLayout(s, i, es, v, a, k, last);
    ElemsNext(s, i, es, v, a, k, next, last);
    FirstByte(s, v, es[0].value);
    StopEnds(s, a, es[0].after, k, es[0].value);
    NextTokenAt(s, i, es[0].before, v);
    NextTokenAt(s, a, es[0].after, k);
  }

  /** The array loop over one element. */
  lemma ElementStep(s: bytes, v: nat, depth: nat, data: seq<Json>, r: Scan<Json>)
    requires v < |s| && depth <= MAX_DEPTH && ValueAt(s, v, depth + 1) == r
    ensures ElementsFrom(s, v + 1, depth, data) ==
            match r
            case Fail(e) => Fail(e)
            case Ok(x, a) => AfterElement(s, a, depth, data + [x])
  {
    hide ValueAt, AfterElement;
  }

  function PairsTail(ps: seq<Pair>): bytes
    requires ps != []
  {
    if |ps| == 1 then [] else [COMMA] + PairsText(ps[1..])
  }

  /** Where the parts of a member list lie that stands at `i` with its closing brace at `last`: `q` the opening mark of
      the first name, `m` its end, `c` the colon, `g` what follows it, `v` the value, `a` its end and `k` the separator
      or brace after it. */
  predicate PairsAt(s: bytes, i: nat, ps: seq<Pair>, q: nat, m: nat, c: nat, g: nat, v: nat, a: nat, k: nat, last: nat)
  {
    && ps != [] && GoodPairs(ps) && At(s, i, PairsText(ps)) && CharIs(s, last, CLOSE_BRACE)
    && q == i + |ps[0].before| && m == q + 1 + |CharsText(ps[0].key)| && c == m + |ps[0].mid|
    && g == c + 1 && v == g + |ps[0].gap| && a == v + |Text(ps[0].value)| && k == a + |ps[0].after|
    && last == k + |PairsTail(ps)|
  }

  /** The part of a member from its colon on. */
  function ColonText(ps: seq<Pair>): bytes
    requires ps != []
  {
    [COLON] + (ps[0].gap + (Text(ps[0].value) + (ps[0].after + PairsTail(ps))))
  }

  lemma PairsLength(ps: seq<Pair>)
    requires ps != []
    ensures |PairsText(ps)| == |ps[0].before| + 1 + |CharsText(ps[0].key)| + |ps[0].mid| + 1 + |ps[0].gap|
                               + |Text(ps[0].value)| + |ps[0].after| + |PairsTail(ps)|
  {
    hide Text, CharsText;
  }

  lemma NameLayout(s: bytes, i: nat, ps: seq<Pair>, q: nat, n: nat, m: nat, c: nat, g: nat, v: nat, a: nat, k: nat,
                   last: nat)
    requires PairsAt(s, i, ps, q, m, c, g, v, a, k, last) && n == q + 1
    ensures At(s, i, ps[0].before) && CharIs(s, q, QUOTE) && At(s, n, CharsText(ps[0].key))
    ensures At(s, m, ps[0].mid) && At(s, c, ColonText(ps))
  {
    hide Text, CharsText, GoodPairs, At, ColonText;
    var p := ps[0];
    assert PairsText(ps) == p.before + ([QUOTE] + (CharsText(p.key) + (p.mid + ColonText(ps)))) by {
      PairsTextParts(ps);
    }
    AtParts(s, i, PairsText(ps), p.before, q, [QUOTE], n, CharsText(p.key), m, p.mid + ColonText(ps));
    AtSplit(s, m, p.mid + ColonText(ps), p.mid, c, ColonText(ps));
    AtByte(s, q, [QUOTE], QUOTE, n, []);
  }

  lemma PairsTextParts(ps: seq<Pair>)
    requires ps != []
    ensures PairsText(ps) ==
            ps[0].before + ([QUOTE] + (CharsText(ps[0].key) + (ps[0].mid + ColonText(ps))))
  {
    hide Text, CharsText;
  }

  lemma ValueLayout(s: bytes, ps: seq<Pair>, c: nat, g: nat, v: nat, a: nat, k: nat)
    requires ps != [] && At(s, c, ColonText(ps)) && g == c + 1
    requires v == g + |ps[0].gap| && a == v + |Text(ps[0].value)| && k == a + |ps[0].after|
    ensures CharIs(s, c, COLON) && At(s, g, ps[0].gap) && At(s, v, Text(ps[0].value)) && At(s, a, ps[0].after)
    ensures At(s, k, PairsTail(ps))
  {
    hide Text, PairsTail, At;
    var p := ps[0];
    var fromGap := p.gap + (Text(p.value) + (p.after + PairsTail(ps)));
    AtByte(s, c, ColonText(ps), COLON, g, fromGap);
    AtParts(s, g, fromGap, p.gap, v, Text(p.value), a, p.after, k, PairsTail(ps));
  }

  /** The separator or brace after the first member. */
  lemma PairsNext(s: bytes, ps: seq<Pair>, k: nat, next: nat, last: nat)
    requires ps != [] && At(s, k, PairsTail(ps)) && next == k + 1
    requires last == k + |PairsTail(ps)| && CharIs(s, last, CLOSE_BRACE)
    ensures CharIs(s, k, if |ps| == 1 then CLOSE_BRACE else COMMA)
    ensures |ps| > 1 ==> At(s, next, PairsText(ps[1..])) && last == next + |PairsText(ps[1..])|
  {
    hide PairsText, At;
    if |ps| > 1 {
      AtByte(s, k, PairsTail(ps), COMMA, next, PairsText(ps[1..]));
    }
  }

  lemma PairsTokens(s: bytes, i: nat, ps: seq<Pair>, q: nat, m: nat, c: nat, g: nat, v: nat, a: nat, k: nat, next: nat,
                    last: nat)
    requires PairsAt(s, i, ps, q, m, c, g, v, a, k, last) && next == k + 1
    ensures q < |s| && NextToken(s, i) == Ok(QUOTE, q + 1)
    ensures StringAt(s, q + 1) == Ok(StringValue(ps[0].key), m) && m <= |s| && NextToken(s, m) == Ok(COLON, g)
    ensures g <= |s| && At(s, g, ps[0].gap) && At(s, v, Text(ps[0].value)) && Ends(ps[0].value, CharAt(s, a))
    ensures a <= |s| && NextToken(s, a) == Ok(if |ps| == 1 then CLOSE_BRACE else COMMA, next)
    ensures |ps| > 1 ==> At(s, next, PairsText(ps[1..])) && last == next + |PairsText(ps[1..])|
  {
    hide Text, CharsText, PairsText, PairsTail, StringAt, NextToken, At;
    NameLayout(s, i, ps, q, q + 1, m, c, g, v, a, k, last);
    ValueLayout(s, ps, c, g, v, a, k);
    PairsNext(s, ps, k, next, last);
    StringExact(s, q + 1, ps[0].key);
    StopEnds(s, a, ps[0].after, k, ps[0].value);
    NextTokenAt(s, i, ps[0].before, q);
    NextTokenAt(s, m, ps[0].mid, c);
    NextTokenAt(s, a, ps[0].after, k);
  }

  /** The object loop over one member whose name ends at `m` and whose value is read from `g`. */
  lemma MemberStep(s: bytes, q: nat, m: nat, g: nat, depth: nat, data: seq<Member>, key: bytes, r: Scan<Json>)
    requires q < |s| && m <= |s| && g <= |s| && depth <= MAX_DEPTH && StringAt(s, q + 1) == Ok(key, m)
    requires NextToken(s, m) == Ok(COLON, g) && ValueAt(s, g, depth + 1) == r
    ensures MembersFrom(s, q + 1, QUOTE, depth, data) ==
            match r
            case Fail(e) => Fail(e)
            case Ok(x, a) => AfterMember(s, a, depth, Put(data, key, x))
  {
    hide ValueAt, AfterMember, StringAt, NextToken;
    assert MembersFrom(s, q + 1, QUOTE, depth, data) == AfterKey(s, m, key, depth, data);
  }

  /** The branch taken on the first byte, for values without parts. */
  lemma ScalarComplete(s: bytes, i: nat, v: nat, t: Syntax, next: nat, depth: nat)
    requires Good(t) && !t.List? && !t.Dict? && At(s, v, Text(t)) && next == v + |Text(t)| && Ends(t, CharAt(s, next))
    requires v < |s| && Opens(t, s[v])
    requires i <= |s| && depth <= MAX_DEPTH && NextToken(s, i) == Ok(s[v], v + 1)
    ensures ValueAt(s, i, depth) == Ok(Eval(t), next)
  {
    match t
    case Number(n) => NumberComplete(s, v, n, next);
    case Chars(its) =>
      AtByte(s, v, Text(t), QUOTE, v + 1, CharsText(its));
      StringExact(s, v + 1, its);
    case _ =>
  }

  lemma ListBranch(s: bytes, i: nat, v: nat, depth: nat)
    requires i <= |s| && depth <= MAX_DEPTH && NextToken(s, i) == Ok(OPEN_BRACKET, v + 1) && v < |s|
    ensures ValueAt(s, i, depth) == ArrayAt(s, v + 1, depth)
  {
  }

  lemma DictBranch(s: bytes, i: nat, v: nat, depth: nat)
    requires i <= |s| && depth <= MAX_DEPTH && NextToken(s, i) == Ok(OPEN_BRACE, v + 1) && v < |s|
    ensures ValueAt(s, i, depth) == ObjectAt(s, v + 1, depth)
  {
  }

  lemma DepthFails(s: bytes, i: nat, depth: nat)
    requires i <= |s| && depth > MAX_DEPTH
    ensures ValueAt(s, i, depth) == Fail(TooDeep)
  {
  }

  /** `ValueAt` on the text of `t` after white space `w`. */
  lemma {:induction false} ValueComplete(s: bytes, i: nat, w: bytes, v: nat, t: Syntax, next: nat, depth: nat)
    requires Good(t) && Blank(w) && At(s, i, w) && v == i + |w|
    requires At(s, v, Text(t)) && next == v + |Text(t)| && Ends(t, CharAt(s, next))
    ensures ValueAt(s, i, depth) == Outcome(Eval(t), next, depth + Nesting(t))
    decreases t, 2
  {
    hide ValueAt, NextToken, ArrayAt, ObjectAt, At, Blank;
    FirstByte(s, v, t);
    NextTokenAt(s, i, w, v);
    if depth > MAX_DEPTH {
      DepthFails(s, i, depth);
    } else {
      match t
      case List(gap, es) =>
        ListBranch(s, i, v, depth);
        ListComplete(s, v, gap, es, next, depth);
      case Dict(gap, ps) =>
        DictBranch(s, i, v, depth);
        DictComplete(s, v, gap, ps, next, depth);
      case _ => ScalarComplete(s, i, v, t, next, depth);
    }
  }

  /** An empty container with white space inside. */
  lemma EmptyToken(s: bytes, v: nat, open: byte, gap: bytes, close: byte, next: nat)
    requires Blank(gap) && At(s, v, [open] + gap + [close]) && next == v + 2 + |gap| && !IsSpace(close)
    ensures v < |s| && NextToken(s, v + 1) == Ok(close, next)
  {
    hide NextToken;
    AtConcat(s, v, [open] + gap, [close]);
    AtConcat(s, v, [open], gap);
    AtByte(s, next - 1, [close], close, next, []);
    NextTokenAt(s, v + 1, gap, next - 1);
  }

  lemma InsideAt(s: bytes, v: nat, open: byte, inside: bytes, close: byte, last: nat)
    requires At(s, v, [open] + inside + [close]) && last == v + 1 + |inside|
    ensures At(s, v + 1, inside) && CharIs(s, last, close)
  {
    AtConcat(s, v, [open] + inside, [close]);
    AtConcat(s, v, [open], inside);
    AtByte(s, last, [close], close, last + 1, []);
  }

  lemma ListInside(s: bytes, v: nat, gap: bytes, es: seq<Elem>, next: nat)
    requires GoodElems(es) && es != [] && At(s, v, Text(List(gap, es))) && next == v + |Text(List(gap, es))|
    ensures next == v + 2 + |ElemsText(es)| && At(s, v + 1, ElemsText(es)) && CharIs(s, next - 1, CLOSE_BRACKET)
  {
    InsideAt(s, v, OPEN_BRACKET, ElemsText(es), CLOSE_BRACKET, next - 1);
  }

  lemma {:induction false} ListComplete(s: bytes, v: nat, gap: bytes, es: seq<Elem>, next: nat, depth: nat)
    requires Blank(gap) && GoodElems(es) && At(s, v, Text(List(gap, es))) && next == v + |Text(List(gap, es))|
    requires depth <= MAX_DEPTH && v < |s|
    ensures ArrayAt(s, v + 1, depth) == Outcome(Array(EvalElems(es)), next, depth + ElemsNesting(es))
    decreases es, 1
  {
    hide ValueAt, ElementsFrom, NextToken, ElemsText, At, EvalElems, ElemsNesting;
    NoElems();
    if es == [] {
      EmptyToken(s, v, OPEN_BRACKET, gap, CLOSE_BRACKET, next);
    } else {
      ListInside(s, v, gap, es, next);
      var f := v + 1 + |es[0].before|;
      FirstToken(s, v + 1, es, f, next - 1);
      ElemsComplete(s, v + 1, es, f, next - 1, depth, []);
      assert [] + EvalElems(es) == EvalElems(es);
    }
  }

  lemma NoElems()
    ensures EvalElems([]) == [] && ElemsNesting([]) == 0
  {
  }

  /** The values and the nesting of a list, by its first element. */
  lemma ElemsMeaning(es: seq<Elem>, data: seq<Json>)
    requires es != [] && GoodElems(es)
    ensures GoodElems(es[1..]) && Good(es[0].value)
    ensures data + EvalElems(es) == data + [Eval(es[0].value)] + EvalElems(es[1..])
    ensures ElemsNesting(es) == Max(1 + Nesting(es[0].value), ElemsNesting(es[1..]))
  {
    hide Eval, Nesting, Good;
    assert EvalElems(es) == [Eval(es[0].value)] + EvalElems(es[1..]);
  }

  lemma {:induction false} ElemsComplete(s: bytes, i: nat, es: seq<Elem>, v: nat, last: nat, depth: nat,
                                         data: seq<Json>)
    requires es != [] && GoodElems(es) && At(s, i, ElemsText(es)) && CharIs(s, last, CLOSE_BRACKET)
    requires depth <= MAX_DEPTH
    requires v == i + |es[0].before| && last == i + |ElemsText(es)| && v < |s|
    ensures ElementsFrom(s, v + 1, depth, data) ==
            Outcome(Array(data + EvalElems(es)), last + 1, depth + ElemsNesting(es))
    decreases es, 0
  {
    hide ValueAt, ElementsFrom, AfterElement, NextToken, Text, Good, Eval, Nesting, Opens, Ends, ElemsText, ElemsTail,
         EvalElems, ElemsNesting;
    var e := es[0];
    var a := v + |Text(e.value)|;
    var k := a + |e.after|;
    var x := Eval(e.value);
    ElemsLength(es);
    ElemsTokens(s, i, es, v, a, k, k + 1, last);
    assert At(s, v, []);
    ValueComplete(s, v, [], v, e.value, a, depth + 1);
    ElementStep(s, v, depth, data, Outcome(x, a, depth + 1 + Nesting(e.value)));
    ElemsMeaning(es, data);
    NoElems();
    if depth + 1 + Nesting(e.value) <= MAX_DEPTH {
      var data' := data + [x];
      assert ElementsFrom(s, v + 1, depth, data) == AfterElement(s, a, depth, data');
      AfterElem(s, i, es, v, a, k, last, depth, data');
      if |es| > 1 {
        ElemsComplete(s, k + 1, es[1..], k + 1 + |es[1].before|, last, depth, data');
      } else {
        assert es[1..] == [] && data' + [] == data';
      }
    }
  }

  /** What follows the first element: the end of the array, or the next element. */
  lemma AfterElem(s: bytes, i: nat, es: seq<Elem>, v: nat, a: nat, k: nat, last: nat, depth: nat, data: seq<Json>)
    requires ElemsAt(s, i, es, v, a, k, last) && depth <= MAX_DEPTH && a <= |s|
    ensures |es| == 1 ==> AfterElement(s, a, depth, data) == Ok(Array(data), last + 1)
    ensures |es| > 1 ==>
              && GoodElems(es[1..]) && At(s, k + 1, ElemsText(es[1..])) && last == k + 1 + |ElemsText(es[1..])|
              && k + 1 + |es[1].before| < |s|
              && AfterElement(s, a, depth, data) == ElementsFrom(s, k + 1 + |es[1].before| + 1, depth, data)
  {
    hide ElementsFrom, NextToken, Text, At, ElemsText;
    ElemsTokens(s, i, es, v, a, k, k + 1, last);
    ElemsNext(s, i, es, v, a, k, k + 1, last);
    if |es| > 1 {
      FirstToken(s, k + 1, es[1..], k + 1 + |es[1].before|, last);
    }
  }

  /** The token read before an element is the first byte of its value. */
  lemma FirstToken(s: bytes, i: nat, es: seq<Elem>, v: nat, last: nat)
    requires es != [] && GoodElems(es) && At(s, i, ElemsText(es)) && CharIs(s, last, CLOSE_BRACKET)
    requires v == i + |es[0].before| && last == i + |ElemsText(es)|
    ensures v < |s| && NextToken(s, i) == Ok(s[v], v + 1) && Opens(es[0].value, s[v])
  {
    hide Text, ElemsText, ElemsTail, NextToken, Opens;
    var a := v + |Text(es[0].value)|;
    var k := a + |es[0].after|;
    ElemsLength(es);
    ElemsTokens(s, i, es, v, a, k, k + 1, last);
  }

  lemma {:induction false} DictComplete(s: bytes, v: nat, gap: bytes, ps: seq<Pair>, next: nat, depth: nat)
    requires Blank(gap) && GoodPairs(ps) && At(s, v, Text(Dict(gap, ps))) && next == v + |Text(Dict(gap, ps))|
    requires depth <= MAX_DEPTH && v < |s|
    ensures ObjectAt(s, v + 1, depth) == Outcome(Object(EvalPairs(ps, [])), next, depth + PairsNesting(ps))
    decreases ps, 1
  {
    hide ValueAt, MembersFrom, NextToken, PairsText, At, EvalPairs, PairsNesting;
    NoPairs();
    if ps == [] {
      EmptyToken(s, v, OPEN_BRACE, gap, CLOSE_BRACE, next);
    } else {
      DictInside(s, v, gap, ps, next);
      var q := v + 1 + |ps[0].before|;
      NameToken(s, v + 1, ps, q, next - 1);
      PairsComplete(s, v + 1, ps, q, next - 1, depth, []);
    }
  }

  lemma DictInside(s: bytes, v: nat, gap: bytes, ps: seq<Pair>, next: nat)
    requires GoodPairs(ps) && ps != [] && At(s, v, Text(Dict(gap, ps))) && next == v + |Text(Dict(gap, ps))|
    ensures next == v + 2 + |PairsText(ps)| && At(s, v + 1, PairsText(ps)) && CharIs(s, next - 1, CLOSE_BRACE)
  {
    InsideAt(s, v, OPEN_BRACE, PairsText(ps), CLOSE_BRACE, next - 1);
  }

  lemma NoPairs()
    ensures EvalPairs([], []) == [] && PairsNesting([]) == 0
  {
  }

  /** The token read before a member is the opening mark of its name. */
  lemma NameToken(s: bytes, i: nat, ps: seq<Pair>, q: nat, last: nat)
    requires ps != [] && GoodPairs(ps) && At(s, i, PairsText(ps)) && CharIs(s, last, CLOSE_BRACE)
    requires q == i + |ps[0].before| && last == i + |PairsText(ps)|
    ensures q < |s| && NextToken(s, i) == Ok(QUOTE, q + 1)
  {
    hide ValueAt, MembersFrom, NextToken, StringAt, Text, At, CharsText, Good, Eval, Nesting, Ends, StringValue, Put,
         GoodItems, PairsText, PairsTail;
    var m := q + 1 + |CharsText(ps[0].key)|;
    var c := m + |ps[0].mid|;
    var g := c + 1;
    var v := g + |ps[0].gap|;
    var a := v + |Text(ps[0].value)|;
    var k := a + |ps[0].after|;
    PairsLength(ps);
    PairsTokens(s, i, ps, q, m, c, g, v, a, k, k + 1, last);
  }

  lemma {:induction false} PairsComplete(s: bytes, i: nat, ps: seq<Pair>, q: nat, last: nat, depth: nat,
                                         data: seq<Member>)
    requires ps != [] && GoodPairs(ps) && At(s, i, PairsText(ps)) && CharIs(s, last, CLOSE_BRACE) && depth <= MAX_DEPTH
    requires q == i + |ps[0].before| && last == i + |PairsText(ps)| && q < |s|
    ensures MembersFrom(s, q + 1, QUOTE, depth, data) ==
            Outcome(Object(EvalPairs(ps, data)), last + 1, depth + PairsNesting(ps))
    decreases ps, 0
  {
    hide ValueAt, MembersFrom, AfterMember, NextToken, StringAt, Text, At, CharsText, Good, Eval, Nesting, Ends;
    hide StringValue, Put, GoodItems, PairsText, PairsTail;
    var p := ps[0];
    var m := q + 1 + |CharsText(p.key)|;
    var c := m + |p.mid|;
    var g := c + 1;
    var v := g + |p.gap|;
    var a := v + |Text(p.value)|;
    var k := a + |p.after|;
    PairsLength(ps);
    PairsTokens(s, i, ps, q, m, c, g, v, a, k, k + 1, last);
    ValueComplete(s, g, p.gap, v, p.value, a, depth + 1);
    var key, x := StringValue(p.key), Eval(p.value);
    MemberStep(s, q, m, g, depth, data, key, Outcome(x, a, depth + 1 + Nesting(p.value)));
    if depth + 1 + Nesting(p.value) <= MAX_DEPTH {
      var data' := Put(data, key, x);
      assert MembersFrom(s, q + 1, QUOTE, depth, data) == AfterMember(s, a, depth, data');
      AfterPair(s, i, ps, q, m, c, g, v, a, k, last, depth, data');
      if |ps| > 1 {
        PairsComplete(s, k + 1, ps[1..], k + 1 + |ps[1].before|, last, depth, data');
      }
    }
  }

  /** What follows the first member: the end of the object, or the name of the next member. */
  lemma AfterPair(s: bytes, i: nat, ps: seq<Pair>, q: nat, m: nat, c: nat, g: nat, v: nat, a: nat, k: nat, last: nat,
                  depth: nat, data: seq<Member>)
    requires PairsAt(s, i, ps, q, m, c, g, v, a, k, last) && depth <= MAX_DEPTH && a <= |s|
    ensures |ps| == 1 ==> AfterMember(s, a, depth, data) == Ok(Object(data), last + 1)
    ensures |ps| > 1 ==>
              && GoodPairs(ps[1..]) && At(s, k + 1, PairsText(ps[1..])) && last == k + 1 + |PairsText(ps[1..])|
              && k + 1 + |ps[1].before| < |s|
              && AfterMember(s, a, depth, data) == MembersFrom(s, k + 1 + |ps[1].before| + 1, QUOTE, depth, data)
  {
    hide MembersFrom, NextToken, StringAt, Text, At, CharsText, PairsText;
    PairsTokens(s, i, ps, q, m, c, g, v, a, k, k + 1, last);
    if |ps| > 1 {
      NameToken(s, k + 1, ps[1..], k + 1 + |ps[1].before|, last);
    }
  }
}
