/** Whatever the parser accepts is the text of a syntax tree of the grammar. */
module JsonSound {
  import opened Bytes
  import opened JsonLexemes
  import opened JsonValue
  import opened JsonScan
  import opened JsonGrammar
  import opened JsonNumbers
  import opened JsonStrings
  import opened JsonComplete

  lemma {:induction false} SkipSpaceSound(s: bytes, i: nat, j: nat)
    requires i <= |s| && j == SkipSpace(s, i)
    ensures Blank(s[i..j]) && !IsSpace(CharAt(s, j))
    decreases |s| - i
  {
    if i < j {
      SkipSpaceSound(s, i + 1, j);
      assert s[i..j] == [s[i]] + s[i + 1..j];
    }
  }

  /** The white space before the token that ends at `j + 1`. */
  lemma TokenSound(s: bytes, i: nat, c: byte, j: nat) returns (w: bytes)
    requires i <= |s| && NextToken(s, i) == Ok(c, j + 1)
    ensures Blank(w) && At(s, i, w) && j == i + |w| && CharIs(s, j, c)
  {
    SkipSpaceSound(s, i, j);
    w := s[i..j];
  }

  /** `t` after white space from `i`, ending at `next`. */
  predicate ReadsAs(s: bytes, i: nat, w: bytes, t: Syntax, next: nat) {
    Blank(w) && Good(t) && At(s, i, w + Text(t)) && next == i + |w + Text(t)| && Ends(t, CharAt(s, next))
  }

  lemma ScalarSound(s: bytes, i: nat, v: nat, depth: nat) returns (t: Syntax)
    requires i <= |s| && depth <= MAX_DEPTH && v < |s| && NextToken(s, i) == Ok(s[v], v + 1)
    requires s[v] != OPEN_BRACE && s[v] != OPEN_BRACKET && ValueAt(s, i, depth).Ok?
    ensures Good(t) && At(s, v, Text(t)) && ValueAt(s, i, depth).next == v + |Text(t)|
    ensures Ends(t, CharAt(s, v + |Text(t)|))
  {
    hide StringAt;
    hide NumberAt;
    hide At;
    var c := s[v];
    if c == MINUS || IsDigit(c) {
      var n := NumberSound(s, v);
      t := Number(n);
    } else if c == 0x74 {
      t := TrueWord;
    } else if c == 0x66 {
      t := FalseWord;
    } else if c == 0x6E {
      t := NullWord;
    } else {
      var its := CharsSound(s, v);
      t := Chars(its);
    }
  }

  lemma CharsSound(s: bytes, v: nat) returns (its: seq<Item>)
    requires CharIs(s, v, QUOTE) && StringAt(s, v + 1).Ok?
    ensures GoodItems(its) && At(s, v, [QUOTE] + CharsText(its))
    ensures StringAt(s, v + 1) == Ok(StringValue(its), v + 1 + |CharsText(its)|)
  {
    hide StringFrom;
    its := StringSound(s, v + 1, [], -1);
    StringExact(s, v + 1, its);
    AtOne(s, v, QUOTE);
    AtJoin(s, v, [QUOTE], v + 1, CharsText(its));
  }

  lemma Bracketed(s: bytes, v: nat, open: byte, inside: bytes, close: byte, last: nat)
    requires CharIs(s, v, open) && At(s, v + 1, inside) && last == v + 1 + |inside| && CharIs(s, last, close)
    ensures At(s, v, [open] + inside + [close])
  {
    AtOne(s, v, open);
    AtOne(s, last, close);
    AtJoin(s, v, [open], v + 1, inside);
    AtJoin(s, v, [open] + inside, last, [close]);
  }

  /** Every accepted value is the text of a tree, after white space. */
  lemma {:induction false} ValueSound(s: bytes, i: nat, depth: nat) returns (w: bytes, t: Syntax)
    requires i <= |s| && ValueAt(s, i, depth).Ok?
    ensures ReadsAs(s, i, w, t, ValueAt(s, i, depth).next)
    decreases DepthLeft(depth), |s| + 1
  {
    hide NextToken, ArrayAt, ObjectAt, At, Text, Good;
    var token := NextToken(s, i);
    var v := token.next - 1;
    w := TokenSound(s, i, s[v], v);
    if s[v] == OPEN_BRACKET {
      ListBranch(s, i, v, depth);
      t := ListSound(s, v, depth);
    } else if s[v] == OPEN_BRACE {
      DictBranch(s, i, v, depth);
      t := DictSound(s, v, depth);
    } else {
      t := ScalarSound(s, i, v, depth);
    }
    AtJoin(s, i, w, v, Text(t));
  }

  lemma {:induction false} ListSound(s: bytes, v: nat, depth: nat) returns (t: Syntax)
    requires CharIs(s, v, OPEN_BRACKET) && depth <= MAX_DEPTH && ArrayAt(s, v + 1, depth).Ok?
    ensures t.List? && Good(t) && At(s, v, Text(t)) && ArrayAt(s, v + 1, depth).next == v + |Text(t)|
    decreases DepthLeft(depth), |s| - v - 1, 2
  {
    hide NextToken, ElementsFrom, At;
    var token := NextToken(s, v + 1);
    var f := token.next - 1;
    if token.value == CLOSE_BRACKET {
      var gap := TokenSound(s, v + 1, CLOSE_BRACKET, f);
      Bracketed(s, v, OPEN_BRACKET, gap, CLOSE_BRACKET, f);
      t := List(gap, []);
    } else {
      var es := ElemsSound(s, v + 1, f, depth, []);
      Bracketed(s, v, OPEN_BRACKET, ElemsText(es), CLOSE_BRACKET, v + 1 + |ElemsText(es)|);
      t := List([], es);
    }
  }

  lemma {:induction false} ElemsSound(s: bytes, i: nat, v: nat, depth: nat, data: seq<Json>) returns (es: seq<Elem>)
    requires i <= |s| && v < |s| && NextToken(s, i) == Ok(s[v], v + 1)
    requires depth <= MAX_DEPTH && ElementsFrom(s, v + 1, depth, data).Ok?
    ensures es != [] && GoodElems(es) && At(s, i, ElemsText(es)) && CharIs(s, i + |ElemsText(es)|, CLOSE_BRACKET)
    ensures ElementsFrom(s, v + 1, depth, data).next == i + |ElemsText(es)| + 1
    decreases DepthLeft(depth), |s| - i, 1
  {
    hide NextToken, ValueAt, ElementsFrom, AfterElement, At, Text, ElemsText, ReadsAs;
    var before := TokenSound(s, i, s[v], v);
    var r := ValueAt(s, v, depth + 1);
    ElementStep(s, v, depth, data, r);
    var w, t := ValueSound(s, v, depth + 1);
    NoSpaceBefore(s, i, s[v], v, w, t, r.next);
    var k, rest := AfterElemSound(s, r.next, depth, data + [r.value]);
    var after := TokenSound(s, r.next, s[k], k);
    es := JoinElem(s, i, before, v, t, r.next, after, k, rest);
  }

  /** An element before the part of the list that follows it. */
  lemma JoinElem(s: bytes, i: nat, before: bytes, v: nat, t: Syntax, a: nat, after: bytes, k: nat, rest: seq<Elem>)
    returns (es: seq<Elem>)
    requires Blank(before) && At(s, i, before) && v == i + |before|
    requires Good(t) && At(s, v, Text(t)) && a == v + |Text(t)|
    requires Blank(after) && At(s, a, after) && k == a + |after| && RestOfElems(s, k, rest)
    ensures es != [] && GoodElems(es) && At(s, i, ElemsText(es))
    ensures i + |ElemsText(es)| == if rest == [] then k else k + 1 + |ElemsText(rest)|
  {
    hide At, Text;
    es := [Elem(before, t, after)] + rest;
    assert es[1..] == rest;
    assert At(s, k, ElemsTail(es)) by {
      if rest == [] {
        AtEmpty(s, k);
      } else {
        AtOne(s, k, COMMA);
        AtJoin(s, k, [COMMA], k + 1, ElemsText(rest));
      }
    }
    AtJoin4(s, i, before, v, Text(t), a, after, k, ElemsTail(es));
  }

  lemma AtEmpty(s: bytes, i: nat)
    requires i <= |s|
    ensures At(s, i, [])
  {
  }

  /** A bracket at `k`, or a separator and more elements. */
  predicate RestOfElems(s: bytes, k: nat, rest: seq<Elem>) {
    if rest == [] then CharIs(s, k, CLOSE_BRACKET)
    else
      && CharIs(s, k, COMMA) && GoodElems(rest) && At(s, k + 1, ElemsText(rest))
      && CharIs(s, k + 1 + |ElemsText(rest)|, CLOSE_BRACKET)
  }

  lemma {:induction false} AfterElemSound(s: bytes, a: nat, depth: nat, data: seq<Json>)
    returns (k: nat, rest: seq<Elem>)
    requires a <= |s| && depth <= MAX_DEPTH && AfterElement(s, a, depth, data).Ok?
    ensures k < |s| && NextToken(s, a) == Ok(s[k], k + 1) && RestOfElems(s, k, rest)
    ensures AfterElement(s, a, depth, data).next == if rest == [] then k + 1 else k + 1 + |ElemsText(rest)| + 1
    decreases DepthLeft(depth), |s| - a, 0
  {
    hide NextToken, ElementsFrom, At, ElemsText;
    k := NextToken(s, a).next - 1;
    if s[k] == CLOSE_BRACKET {
      rest := [];
    } else {
      var f := NextToken(s, k + 1).next - 1;
      rest := ElemsSound(s, k + 1, f, depth, data);
    }
  }

  lemma {:induction false} DictSound(s: bytes, v: nat, depth: nat) returns (t: Syntax)
    requires CharIs(s, v, OPEN_BRACE) && depth <= MAX_DEPTH && ObjectAt(s, v + 1, depth).Ok?
    ensures t.Dict? && Good(t) && At(s, v, Text(t)) && ObjectAt(s, v + 1, depth).next == v + |Text(t)|
    decreases DepthLeft(depth), |s| - v - 1, 2
  {
    hide NextToken, MembersFrom, At;
    var token := NextToken(s, v + 1);
    var q := token.next - 1;
    if token.value == CLOSE_BRACE {
      var gap := TokenSound(s, v + 1, CLOSE_BRACE, q);
      Bracketed(s, v, OPEN_BRACE, gap, CLOSE_BRACE, q);
      t := Dict(gap, []);
    } else {
      var ps := PairsSound(s, v + 1, q, depth, []);
      Bracketed(s, v, OPEN_BRACE, PairsText(ps), CLOSE_BRACE, v + 1 + |PairsText(ps)|);
      t := Dict([], ps);
    }
  }

  lemma {:induction false} PairsSound(s: bytes, i: nat, q: nat, depth: nat, data: seq<Member>) returns (ps: seq<Pair>)
    requires i <= |s| && q < |s| && NextToken(s, i) == Ok(s[q], q + 1)
    requires depth <= MAX_DEPTH && MembersFrom(s, q + 1, s[q], depth, data).Ok?
    ensures ps != [] && GoodPairs(ps) && At(s, i, PairsText(ps)) && CharIs(s, i + |PairsText(ps)|, CLOSE_BRACE)
    ensures MembersFrom(s, q + 1, s[q], depth, data).next == i + |PairsText(ps)| + 1
    decreases DepthLeft(depth), |s| - i, 1
  {
    hide NextToken, ValueAt, MembersFrom, AfterMember, StringAt, At, Text, PairsText, ReadsAs, CharsText, StringValue,
         Put;
    var before := TokenSound(s, i, s[q], q);
    var key, m, g := NameSound(s, q, depth, data);
    var mid := TokenSound(s, m, COLON, g - 1);
    var r := ValueAt(s, g, depth + 1);
    MemberStep(s, q, m, g, depth, data, StringValue(key), r);
    var gap, t := ValueSound(s, g, depth + 1);
    SpaceBefore(s, g, gap, t, r.next);
    var k, rest := AfterPairSound(s, r.next, depth, Put(data, StringValue(key), r.value));
    var after := TokenSound(s, r.next, s[k], k);
    ps := JoinPair(s, i, Pair(before, key, mid, gap, t, after), q, m, g - 1, g, g + |gap|, r.next, k, rest);
  }

  /** The name of a member, and the colon before `g`. */
  lemma NameSound(s: bytes, q: nat, depth: nat, data: seq<Member>) returns (key: seq<Item>, m: nat, g: nat)
    requires q < |s| && depth <= MAX_DEPTH && MembersFrom(s, q + 1, s[q], depth, data).Ok?
    ensures s[q] == QUOTE && GoodItems(key) && At(s, q + 1, CharsText(key)) && m == q + 1 + |CharsText(key)|
    ensures m <= |s| && StringAt(s, q + 1) == Ok(StringValue(key), m)
    ensures m < g <= |s| && NextToken(s, m) == Ok(COLON, g) && ValueAt(s, g, depth + 1).Ok?
  {
    hide NextToken, ValueAt, AfterMember, StringAt, At;
    assert StringAt(s, q + 1).Ok?;
    key := CharsSound(s, q);
    InsideChars(s, q, key);
    m := q + 1 + |CharsText(key)|;
    assert AfterKey(s, m, StringValue(key), depth, data).Ok?;
    g := NextToken(s, m).next;
  }

  lemma InsideChars(s: bytes, q: nat, its: seq<Item>)
    requires At(s, q, [QUOTE] + CharsText(its))
    ensures At(s, q + 1, CharsText(its))
  {
    AtByte(s, q, [QUOTE] + CharsText(its), QUOTE, q + 1, CharsText(its));
  }

  lemma SpaceBefore(s: bytes, i: nat, w: bytes, t: Syntax, next: nat)
    requires ReadsAs(s, i, w, t, next)
    ensures Blank(w) && Good(t) && At(s, i, w) && At(s, i + |w|, Text(t)) && next == i + |w| + |Text(t)|
  {
    hide At, Text, Good;
    AtSplit(s, i, w + Text(t), w, i + |w|, Text(t));
  }

  /** A brace at `k`, or a separator and more members. */
  predicate RestOfPairs(s: bytes, k: nat, rest: seq<Pair>) {
    if rest == [] then CharIs(s, k, CLOSE_BRACE)
    else
      && CharIs(s, k, COMMA) && GoodPairs(rest) && At(s, k + 1, PairsText(rest))
      && CharIs(s, k + 1 + |PairsText(rest)|, CLOSE_BRACE)
  }

  /** A member before the part of the object that follows it. */
  lemma JoinPair(s: bytes, i: nat, p: Pair, q: nat, m: nat, c: nat, g: nat, v: nat, a: nat, k: nat, rest: seq<Pair>)
    returns (ps: seq<Pair>)
    requires GoodPairs([p]) && At(s, i, p.before) && q == i + |p.before| && CharIs(s, q, QUOTE)
    requires At(s, q + 1, CharsText(p.key)) && m == q + 1 + |CharsText(p.key)| && At(s, m, p.mid) && c == m + |p.mid|
    requires CharIs(s, c, COLON) && g == c + 1 && At(s, g, p.gap) && v == g + |p.gap|
    requires At(s, v, Text(p.value)) && a == v + |Text(p.value)| && At(s, a, p.after) && k == a + |p.after|
    requires RestOfPairs(s, k, rest)
    ensures ps != [] && GoodPairs(ps) && At(s, i, PairsText(ps))
    ensures i + |PairsText(ps)| == if rest == [] then k else k + 1 + |PairsText(rest)|
  {
    hide At, Text, CharsText, PairsText;
    ps := [p] + rest;
    assert ps[1..] == rest && ps[0] == p && [p][0] == p;
    assert At(s, k, PairsTail(ps)) by {
      if rest == [] {
        AtEmpty(s, k);
      } else {
        AtOne(s, k, COMMA);
        AtJoin(s, k, [COMMA], k + 1, PairsText(rest));
      }
    }
    AtJoin4(s, g, p.gap, v, Text(p.value), a, p.after, k, PairsTail(ps));
    AtOne(s, c, COLON);
    AtJoin(s, c, [COLON], g, p.gap + (Text(p.value) + (p.after + PairsTail(ps))));
    AtOne(s, q, QUOTE);
    AtJoin(s, m, p.mid, c, ColonText(ps));
    AtJoin4(s, i, p.before, q, [QUOTE], q + 1, CharsText(p.key), m, p.mid + ColonText(ps));
    PairsTextParts(ps);
    PairsLength(ps);
  }

  lemma {:induction false} AfterPairSound(s: bytes, a: nat, depth: nat, data: seq<Member>)
    returns (k: nat, rest: seq<Pair>)
    requires a <= |s| && depth <= MAX_DEPTH && AfterMember(s, a, depth, data).Ok?
    ensures k < |s| && NextToken(s, a) == Ok(s[k], k + 1) && RestOfPairs(s, k, rest)
    ensures AfterMember(s, a, depth, data).next == if rest == [] then k + 1 else k + 1 + |PairsText(rest)| + 1
    decreases DepthLeft(depth), |s| - a, 0
  {
    hide NextToken, MembersFrom, At, PairsText;
    k := NextToken(s, a).next - 1;
    if s[k] == CLOSE_BRACE {
      rest := [];
    } else {
      var q := NextToken(s, k + 1).next - 1;
      rest := PairsSound(s, k + 1, q, depth, data);
    }
  }

  /** A value whose first byte is the token just read has no white space before it. */
  lemma NoSpaceBefore(s: bytes, i: nat, c: byte, v: nat, w: bytes, t: Syntax, next: nat)
    requires i <= |s| && v < |s| && NextToken(s, i) == Ok(c, v + 1) && ReadsAs(s, v, w, t, next)
    ensures w == [] && Good(t) && At(s, v, Text(t)) && next == v + |Text(t)|
  {
    hide Text, Good;
    SkipSpaceSound(s, i, v);
    AtSplit(s, v, w + Text(t), w, v + |w|, Text(t));
    if w != [] {
      AtHead(s, v, w);
    }
  }
}
