/** The number scanner accepts exactly the number grammar, takes the longest literal, and computes the
    value the literal denotes. */
module JsonNumbers {
  import opened Bytes
  import opened JsonLexemes
  import opened JsonScan
  import opened JsonGrammar

  /** What may stand after the literal `n` for the scanner to stop there. */
  predicate NumberEnds(n: NumberSyntax, c: byte) {
    && !IsDigit(c)
    && (n.exponent.NoExponent? ==> !IsExponentMark(c))
    && (n.exponent.NoExponent? && n.fraction == [] ==> c != POINT)
  }

  lemma {:induction false} DigitsEndAt(s: bytes, i: nat, t: bytes)
    requires At(s, i, t) && AllDigits(t) && !IsDigit(CharAt(s, i + |t|))
    ensures DigitsEnd(s, i) == i + |t|
    decreases |t|
  {
    if t != [] {
      AtHead(s, i, t);
      DigitsEndAt(s, i + 1, t[1..]);
    }
  }

  lemma AtNumber(s: bytes, i: nat, n: NumberSyntax)
    requires At(s, i, NumberText(n))
    ensures var b := i + |WholeText(n)|; var c := b + |FractionText(n)|;
            At(s, i, WholeText(n)) && At(s, b, FractionText(n)) && At(s, c, ExponentText(n.exponent))
  {
    AtConcat(s, i, WholeText(n) + FractionText(n), ExponentText(n.exponent));
    AtConcat(s, i, WholeText(n), FractionText(n));
  }

  lemma CharAfter(s: bytes, i: nat, t: bytes)
    requires At(s, i, t) && t != []
    ensures CharAt(s, i) == t[0]
  {
    AtHead(s, i, t);
  }

  lemma WholeAt(s: bytes, i: nat, n: NumberSyntax)
    requires GoodNumber(n) && At(s, i, WholeText(n)) && !IsDigit(CharAt(s, i + |WholeText(n)|))
    ensures WholeEnd(s, i) == Ok((), i + |WholeText(n)|)
    ensures CharAt(s, i) == MINUS <==> n.negative
    ensures var a := if n.negative then i + 1 else i;
            DigitsEnd(s, a) == i + |WholeText(n)| && s[a..DigitsEnd(s, a)] == n.whole
  {
    var a := if n.negative then i + 1 else i;
    AtConcat(s, i, if n.negative then [MINUS] else [], n.whole);
    CharAfter(s, i, WholeText(n));
    AtHead(s, a, n.whole);
    DigitsEndAt(s, a, n.whole);
    DigitsEndAt(s, a + 1, n.whole[1..]);
    if n.whole[0] == ZERO {
      assert |n.whole| == 1;
    }
  }

  lemma FractionAt(s: bytes, b: nat, n: NumberSyntax)
    requires b <= |s|
    requires GoodNumber(n) && At(s, b, FractionText(n)) && !IsDigit(CharAt(s, b + |FractionText(n)|))
    requires n.fraction == [] ==> CharAt(s, b) != POINT
    ensures FractionEnd(s, b) == Ok((), b + |FractionText(n)|)
    ensures n.fraction != [] ==> CharAt(s, b) == POINT && DigitsEnd(s, b + 1) == b + |FractionText(n)|
                                 && s[b + 1..b + |FractionText(n)|] == n.fraction
  {
    if n.fraction != [] {
      AtConcat(s, b, [POINT], n.fraction);
      CharAfter(s, b, [POINT]);
      CharAfter(s, b + 1, n.fraction);
      DigitsEndAt(s, b + 1, n.fraction);
    }
  }

  lemma ExponentAt(s: bytes, c: nat, n: NumberSyntax)
    requires c <= |s|
    requires GoodNumber(n) && At(s, c, ExponentText(n.exponent))
    requires !IsDigit(CharAt(s, c + |ExponentText(n.exponent)|))
    requires n.exponent.NoExponent? ==> !IsExponentMark(CharAt(s, c))
    ensures ExponentEnd(s, c) == Ok((), c + |ExponentText(n.exponent)|)
    ensures ExponentOf(s, c) == ExponentValue(n.exponent)
  {
    match n.exponent
    case NoExponent =>
    case Exponent(mark, sign, digits) =>
      AtConcat(s, c, [mark] + sign, digits);
      AtConcat(s, c, [mark], sign);
      CharAfter(s, c, [mark]);
      var d := c + 1 + |sign|;
      CharAfter(s, d, digits);
      DigitsEndAt(s, d, digits);
      if sign != [] {
        CharAfter(s, c + 1, sign);
        assert sign == [sign[0]];
      }
  }

  /** `b`, `c` and `d` are the ends of the three parts of the literal `n` standing at `i`. */
  predicate Cut(n: NumberSyntax, i: nat, b: nat, c: nat, d: nat) {
    b == i + |WholeText(n)| && c == b + |FractionText(n)| && d == c + |ExponentText(n.exponent)|
  }

  lemma CutStart(s: bytes, i: nat, n: NumberSyntax, b: nat, c: nat, d: nat)
    requires GoodNumber(n) && Cut(n, i, b, c, d)
    requires At(s, b, FractionText(n)) && At(s, c, ExponentText(n.exponent)) && NumberEnds(n, CharAt(s, d))
    ensures !IsDigit(CharAt(s, b)) && !IsDigit(CharAt(s, c)) && !IsDigit(CharAt(s, d))
    ensures n.fraction == [] ==> CharAt(s, b) != POINT
    ensures n.exponent.NoExponent? ==> !IsExponentMark(CharAt(s, c))
    ensures IsShortInt(s, i, b) <==> IsInt(n)
  {
    if n.fraction != [] {
      CharAfter(s, b, FractionText(n));
    }
    if n.exponent.Exponent? {
      CharAfter(s, c, ExponentText(n.exponent));
    }
  }

  lemma PartsAre(t: bytes, i: nat, negative: bool, whole: bytes, fraction: bytes, b: nat, c: nat, exponent: int)
    requires i <= b <= c <= |t| && (CharAt(t, i) == MINUS <==> negative)
    requires var a := if negative then i + 1 else i; a <= b && DigitsEnd(t, a) == b && t[a..b] == whole
    requires if fraction == [] then CharAt(t, b) != POINT && c == b
             else CharAt(t, b) == POINT && DigitsEnd(t, b + 1) == c && b + 1 <= c && t[b + 1..c] == fraction
    requires ExponentOf(t, c) == exponent
    ensures LiteralFrom(t, i) == (negative, whole, fraction, exponent)
  {
  }

  lemma SliceAt(s: bytes, i: nat, t: bytes, j: nat)
    requires At(s, i, t) && j == i + |t|
    ensures j <= |s| && s[i..j] == t
  {
  }

  /** The three scans of a literal end where its parts end. */
  lemma ScansAt(s: bytes, i: nat, n: NumberSyntax, b: nat, c: nat, d: nat)
    requires GoodNumber(n) && At(s, i, NumberText(n)) && Cut(n, i, b, c, d) && NumberEnds(n, CharAt(s, d))
    ensures WholeEnd(s, i) == Ok((), b) && FractionEnd(s, b) == Ok((), c) && ExponentEnd(s, c) == Ok((), d)
    ensures LiteralFrom(s, i) == (n.negative, n.whole, n.fraction, ExponentValue(n.exponent))
    ensures IsShortInt(s, i, b) <==> IsInt(n)
    ensures i <= b <= c <= d <= |s| && s[i..b] == WholeText(n) && s[i..d] == NumberText(n)
  {
    hide WholeEnd, FractionEnd, ExponentEnd, LiteralFrom, ExponentOf, DigitsEnd, At, ExponentText,
         IsShortInt, IsInt, NumberEnds;
    AtNumber(s, i, n);
    SliceAt(s, i, WholeText(n), b);
    SliceAt(s, b, FractionText(n), c);
    SliceAt(s, c, ExponentText(n.exponent), d);
    SliceAt(s, i, NumberText(n), d);
    CutStart(s, i, n, b, c, d);
    ExponentAt(s, c, n);
    FractionAt(s, b, n);
    WholeAt(s, i, n);
    PartsAre(s, i, n.negative, n.whole, n.fraction, b, c, ExponentValue(n.exponent));
  }

  /** `strtod` on the text of a literal gives the number the literal denotes. */
  lemma StrtodText(n: NumberSyntax, t: bytes)
    requires GoodNumber(n) && t == NumberText(n)
    ensures Strtod(t) == LiteralValue(n.negative, n.whole, n.fraction, ExponentValue(n.exponent))
  {
    var zero: nat := 0;
    assert t[zero..zero + |t|] == t;
    var b := |WholeText(n)|;
    var c := b + |FractionText(n)|;
    ScansAt(t, zero, n, b, c, |t|);
  }

  /** `atoi` on the text of an integer gives that integer. */
  lemma AtoiText(n: NumberSyntax, t: bytes)
    requires GoodNumber(n) && t == WholeText(n)
    ensures Atoi(t) == IntValue(n)
  {
    assert t[0..0 + |t|] == t;
    WholeAt(t, 0, n);
  }

  lemma ShortComplete(s: bytes, i: nat, b: nat, n: NumberSyntax)
    requires GoodNumber(n) && IsInt(n) && i <= b <= |s| && s[i..b] == WholeText(n)
    requires WholeEnd(s, i) == Ok((), b) && IsShortInt(s, i, b)
    ensures NumberAt(s, i) == Ok(NumberJson(n), b)
  {
    AtoiText(n, s[i..b]);
  }

  lemma LongComplete(s: bytes, i: nat, b: nat, c: nat, d: nat, n: NumberSyntax)
    requires GoodNumber(n) && !IsInt(n) && i <= b <= c <= d <= |s| && s[i..d] == NumberText(n)
    requires WholeEnd(s, i) == Ok((), b) && !IsShortInt(s, i, b)
    requires FractionEnd(s, b) == Ok((), c) && ExponentEnd(s, c) == Ok((), d)
    ensures NumberAt(s, i) == Ok(NumberJson(n), d)
  {
    StrtodText(n, s[i..d]);
  }

  /** Where a literal stands and nothing that continues it follows, the scanner reads all of it. */
  lemma NumberComplete(s: bytes, i: nat, n: NumberSyntax, d: nat)
    requires GoodNumber(n) && At(s, i, NumberText(n)) && d == i + |NumberText(n)| && NumberEnds(n, CharAt(s, d))
    ensures NumberAt(s, i) == Ok(NumberJson(n), d)
  {
    var b := i + |WholeText(n)|;
    var c := b + |FractionText(n)|;
    ScansAt(s, i, n, b, c, d);
    if IsInt(n) {
      assert b == d;
      ShortComplete(s, i, b, n);
    } else {
      LongComplete(s, i, b, c, d, n);
    }
  }

  lemma SliceSplit(s: bytes, i: nat, a: nat, b: nat)
    requires i <= a <= b <= |s|
    ensures s[i..b] == s[i..a] + s[a..b]
  {
  }

  lemma WholeSound(s: bytes, i: nat) returns (n: NumberSyntax)
    requires i <= |s| && WholeEnd(s, i).Ok?
    ensures GoodNumber(n) && n.fraction == [] && n.exponent == NoExponent
    ensures s[i..WholeEnd(s, i).next] == WholeText(n) && !IsDigit(CharAt(s, WholeEnd(s, i).next))
  {
    var negative := CharAt(s, i) == MINUS;
    var a := if negative then i + 1 else i;
    var b := WholeEnd(s, i).next;
    n := NumberSyntax(negative, s[a..b], [], NoExponent);
    if CharAt(s, a) != ZERO {
      DigitsRun(s, a + 1);
    }
    hide DigitsEnd;
    assert s[a..b] == [s[a]] + s[a + 1..b];
    SliceSplit(s, i, a, b);
    if negative {
      assert s[i..a] == [MINUS];
    }
  }

  lemma FractionSound(s: bytes, b: nat, n: NumberSyntax) returns (n': NumberSyntax)
    requires b <= |s| && FractionEnd(s, b).Ok? && GoodNumber(n) && n.exponent == NoExponent
    requires !IsDigit(CharAt(s, b))
    ensures GoodNumber(n') && n'.exponent == NoExponent && WholeText(n') == WholeText(n)
    ensures s[b..FractionEnd(s, b).next] == FractionText(n') && !IsDigit(CharAt(s, FractionEnd(s, b).next))
    ensures n'.fraction == [] ==> FractionEnd(s, b).next == b && CharAt(s, b) != POINT
  {
    var c := FractionEnd(s, b).next;
    n' := n.(fraction := if c == b then [] else s[b + 1..c]);
    if c != b {
      DigitsRun(s, b + 1);
      assert s[b..c] == [POINT] + s[b + 1..c];
    }
  }

  lemma ExponentSound(s: bytes, c: nat) returns (e: ExponentSyntax)
    requires c <= |s| && ExponentEnd(s, c).Ok? && !IsDigit(CharAt(s, c))
    ensures e.Exponent? ==> IsExponentMark(e.mark) && e.digits != [] && AllDigits(e.digits)
    ensures e.Exponent? ==> e.sign == [] || (|e.sign| == 1 && IsSign(e.sign[0]))
    ensures s[c..ExponentEnd(s, c).next] == ExponentText(e) && !IsDigit(CharAt(s, ExponentEnd(s, c).next))
    ensures e.NoExponent? ==> ExponentEnd(s, c).next == c && !IsExponentMark(CharAt(s, c))
  {
    var f := ExponentEnd(s, c).next;
    if f == c {
      return NoExponent;
    }
    var d := if IsSign(CharAt(s, c + 1)) then c + 2 else c + 1;
    DigitsRun(s, d);
    e := Exponent(s[c], s[c + 1..d], s[d..f]);
    assert s[c..f] == [s[c]] + s[c + 1..d] + s[d..f];
  }

  lemma JoinSlices(s: bytes, i: nat, b: nat, c: nat, d: nat)
    requires i <= b <= c <= d <= |s|
    ensures s[i..d] == s[i..b] + s[b..c] + s[c..d]
  {
  }

  /** Whatever the scanner accepts is a literal of the grammar that ends there. */
  lemma NumberSound(s: bytes, i: nat) returns (n: NumberSyntax)
    requires i <= |s| && NumberAt(s, i).Ok?
    ensures GoodNumber(n) && At(s, i, NumberText(n)) && NumberAt(s, i).next == i + |NumberText(n)|
    ensures NumberEnds(n, CharAt(s, i + |NumberText(n)|))
  {
    var b := WholeEnd(s, i).next;
    n := WholeSound(s, i);
    if IsShortInt(s, i, b) {
      assert NumberText(n) == WholeText(n);
    } else {
      n := FractionSound(s, b, n);
      var c := FractionEnd(s, b).next;
      var e := ExponentSound(s, c);
      n := n.(exponent := e);
      JoinSlices(s, i, b, c, ExponentEnd(s, c).next);
    }
  }
}
