/** The number a JSON number literal is read as: its digits, without the point, times a power of ten. */
module JsonDecimal {
  import opened Bytes
  import opened JsonLexemes
  import opened JsonValue
  import opened JsonScan
  import opened JsonGrammar
  import opened JsonTheorems

  // Digits and powers.

  lemma DigitLaws(t: bytes, d: nat, c: byte)
    requires d < 10
    ensures NatOf([]) == 0 && NatOf(t + [Ascii("0123456789")[d]]) == 10 * NatOf(t) + d
    ensures IsDigit(c) <==> c in Ascii("0123456789")
  {
    var digits := Ascii("0123456789");
    assert (t + [digits[d]])[..|t|] == t;
    assert forall k | 0 <= k < 10 :: digits[k] == 0x30 + k;
    if IsDigit(c) {
      assert digits[c - 0x30] == c;
    }
  }

  lemma PowerLaws(k: nat)
    ensures Pow10(0) == 1 && Pow10(k + 1) == 10 * Pow10(k)
  {
  }

  lemma {:induction false} PowerSum(j: nat, k: nat)
    ensures Pow10(j + k) == Pow10(j) * Pow10(k)
  {
    if j > 0 {
      PowerSum(j - 1, k);
      Tenfold(Pow10(j - 1), Pow10(k));
    }
  }

  lemma Tenfold(a: int, b: int)
    ensures 10 * (a * b) == (10 * a) * b
  {
  }

  lemma {:induction false} NatOfConcat(a: bytes, b: bytes)
    ensures NatOf(a + b) == NatOf(a) * Pow10(|b|) + NatOf(b)
    decreases |b|
  {
    if b == [] {
      assert a + b == a;
    } else {
      var n := |b| - 1;
      NatOfConcat(a, b[..n]);
      assert (a + b)[..|a + b| - 1] == a + b[..n];
      Tenfold(NatOf(a), Pow10(n));
      assert NatOf(a) * (10 * Pow10(n)) == 10 * (NatOf(a) * Pow10(n));
    }
  }

  // Literals.

  /** `x` is `m` times ten to the power `e`. */
  predicate Denotes(x: real, m: int, e: int) {
    if e >= 0 then x == (m * Pow10(e)) as real else x * Pow10(-e) as real == m as real
  }

  lemma Associate(a: real, b: real, c: real)
    ensures (a * b) * c == a * (b * c)
  {
  }

  lemma IntProduct(a: int, b: int)
    ensures (a * b) as real == a as real * b as real
  {
  }

  lemma Inverse(q: real)
    requires q != 0.0
    ensures (1.0 / q) * q == 1.0
  {
  }

  lemma SumTimes(w: real, f: real, p: real)
    requires p != 0.0
    ensures (w + f / p) * p == w * p + f
  {
    assert f / p * p == f;
  }

  lemma DownTimes(x: real, r: real, p: real, q: real)
    requires r * q == 1.0
    ensures (x * r) * (p * q) == x * p
  {
    Associate(x, r, p * q);
    Associate(r, q, p);
    assert p * q == q * p;
  }

  lemma ShiftedUp(x: real, m: int, k: nat, e: nat)
    requires x * Pow10(k) as real == m as real && e >= k
    ensures x * Pow10(e) as real == (m * Pow10(e - k)) as real
  {
    hide Pow10;
    var p, q := Pow10(k), Pow10(e - k);
    PowerSum(k, e - k);
    IntProduct(p, q);
    IntProduct(m, q);
    Associate(x, p as real, q as real);
  }

  lemma ShiftedWithin(x: real, m: int, k: nat, e: nat)
    requires x * Pow10(k) as real == m as real && e < k
    ensures (x * Pow10(e) as real) * Pow10(k - e) as real == m as real
  {
    hide Pow10;
    var p, q := Pow10(e), Pow10(k - e);
    PowerSum(e, k - e);
    IntProduct(p, q);
    Associate(x, p as real, q as real);
  }

  lemma ShiftedDown(x: real, m: int, k: nat, d: nat)
    requires x * Pow10(k) as real == m as real
    ensures (x * (1.0 / Pow10(d) as real)) * Pow10(k + d) as real == m as real
  {
    hide Pow10;
    var p, q := Pow10(k), Pow10(d);
    PowerSum(k, d);
    IntProduct(p, q);
    Inverse(q as real);
    DownTimes(x, 1.0 / q as real, p as real, q as real);
  }

  lemma Powers(e: int)
    ensures RealPow10(e) == if e >= 0 then Pow10(e) as real else 1.0 / Pow10(-e) as real
  {
  }

  lemma Shifted(x: real, m: int, k: nat, e: int)
    requires x * Pow10(k) as real == m as real
    ensures Denotes(x * RealPow10(e), m, e - k)
  {
    hide Pow10, RealPow10;
    Powers(e);
    if e >= k {
      ShiftedUp(x, m, k, e);
    } else if e >= 0 {
      ShiftedWithin(x, m, k, e);
    } else {
      ShiftedDown(x, m, k, -e);
    }
  }

  lemma Negated(x: real, m: int, e: int)
    requires Denotes(x, m, e)
    ensures Denotes(-x, -m, e)
  {
    if e >= 0 {
      assert (-m) * Pow10(e) == -(m * Pow10(e));
    } else {
      assert -x * Pow10(-e) as real == -(x * Pow10(-e) as real);
    }
  }

  lemma Magnitude(whole: bytes, fraction: bytes) returns (x: real)
    ensures x == NatOf(whole) as real + NatOf(fraction) as real / Pow10(|fraction|) as real
    ensures x * Pow10(|fraction|) as real == NatOf(whole + fraction) as real
  {
    hide Pow10, NatOf;
    var w, f, p := NatOf(whole), NatOf(fraction), Pow10(|fraction|);
    x := w as real + f as real / p as real;
    NatOfConcat(whole, fraction);
    IntProduct(w, p);
    SumTimes(w as real, f as real, p as real);
  }

  /** A literal denotes its digits, read as one integer, times the power of ten its exponent and fraction leave. */
  lemma LiteralMeans(negative: bool, whole: bytes, fraction: bytes, e: int)
    ensures var m := NatOf(whole + fraction);
      Denotes(LiteralValue(negative, whole, fraction, e), if negative then -m else m, e - |fraction|)
  {
    hide Pow10, NatOf, RealPow10, Denotes;
    var x := Magnitude(whole, fraction);
    var m := NatOf(whole + fraction);
    Shifted(x, m, |fraction|, e);
    Negated(x * RealPow10(e), m, e - |fraction|);
    assert LiteralValue(negative, whole, fraction, e) == if negative then -(x * RealPow10(e)) else x * RealPow10(e);
  }

  /** How a literal is spelled. */
  lemma NumberSpelled(n: NumberSyntax)
    ensures NumberText(n) ==
      (if n.negative then Ascii("-") else []) + n.whole +
      (if n.fraction == [] then [] else Ascii(".") + n.fraction) +
      match n.exponent case NoExponent => [] case Exponent(mark, sign, digits) => [mark] + sign + digits
    ensures GoodNumber(n) && n.exponent.Exponent? ==>
      n.exponent.mark in Ascii("eE") && n.exponent.sign in {[], Ascii("+"), Ascii("-")}
  {
    assert Ascii("-") == [MINUS] && Ascii(".") == [POINT] && Ascii("+") == [0x2B] && Ascii("eE") == [0x65, 0x45];
    if GoodNumber(n) && n.exponent.Exponent? && n.exponent.sign != [] {
      assert n.exponent.sign == [n.exponent.sign[0]];
    }
  }

  /** Every number literal, as a whole text: an integer of at most nine characters is read as an `int`, every other
      literal as a double; either is the digits times the power of ten. */
  lemma NumberMeans(n: NumberSyntax, e: int)
    requires GoodNumber(n)
    requires match n.exponent
             case NoExponent => e == 0
             case Exponent(_, sign, digits) => e == if sign == Ascii("-") then -NatOf(digits) else NatOf(digits)
    ensures var r := ParseText(NumberText(n));
      var digits := NatOf(n.whole + n.fraction);
      var m := if n.negative then -digits else digits;
      && r.Ok?
      && (r.value.Int? || r.value.Double?)
      && (r.value.Int? <==> n.fraction == [] && n.exponent.NoExponent? && |NumberText(n)| <= 9)
      && (r.value.Int? ==> r.value.n as int == m)
      && (r.value.Double? ==> Denotes(r.value.x, m, e - |n.fraction|))
  {
    hide *;
    NumberParsed(n);
    NumberValueIs(n, e);
  }

  lemma NumberParsed(n: NumberSyntax)
    requires GoodNumber(n)
    ensures ParseText(NumberText(n)) == Ok(NumberJson(n), |NumberText(n)|)
  {
    hide NumberText, ParseText, NumberJson;
    var t := Number(n);
    assert NumberText(n) == [] + (Text(t) + []);
    ParseExact(NumberText(n), [], t, []);
  }

  lemma NumberValueIs(n: NumberSyntax, e: int)
    requires GoodNumber(n)
    requires match n.exponent
             case NoExponent => e == 0
             case Exponent(_, sign, digits) => e == if sign == Ascii("-") then -NatOf(digits) else NatOf(digits)
    ensures var v := NumberJson(n);
      var digits := NatOf(n.whole + n.fraction);
      var m := if n.negative then -digits else digits;
      && (v.Int? || v.Double?)
      && (v.Int? <==> n.fraction == [] && n.exponent.NoExponent? && |NumberText(n)| <= 9)
      && (v.Int? ==> v.n as int == m)
      && (v.Double? ==> Denotes(v.x, m, e - |n.fraction|))
  {
    assert Ascii("-") == [MINUS];
    assert n.whole + [] == n.whole;
    hide NumberText, LiteralValue, Denotes, NatOf, Pow10, AllDigits;
    LiteralMeans(n.negative, n.whole, n.fraction, e);
    if n.fraction == [] && n.exponent.NoExponent? {
      IntLength(n);
    }
  }

  lemma IntLength(n: NumberSyntax)
    requires n.fraction == [] && n.exponent.NoExponent?
    ensures NumberText(n) == WholeText(n)
  {
  }

  lemma FiveQuartersText() returns (n: NumberSyntax)
    ensures n == NumberSyntax(true, Ascii("12"), Ascii("5"), Exponent(0x65, [0x2D], Ascii("1")))
    ensures GoodNumber(n) && NumberText(n) == Ascii("-12.5e-1") && n.whole + n.fraction == Ascii("125")
    ensures Ascii("-") == [0x2D]
  {
    n := NumberSyntax(true, Ascii("12"), Ascii("5"), Exponent(0x65, [0x2D], Ascii("1")));
    assert WholeText(n) == Ascii("-12") && FractionText(n) == Ascii(".5") && ExponentText(n.exponent) == Ascii("e-1");
  }

  /** `-12.5e-1` is minus five quarters. */
  lemma FiveQuarters()
    ensures ParseText(Ascii("-12.5e-1")) == Ok(Double(-1.25), 8)
  {
    hide *;
    var n := FiveQuartersText();
    NatOfText();
    NumberParsed(n);
    NumberMeans(n, -1);
    AsciiLengths();
    MinusFiveQuarters(ParseText(NumberText(n)).value.x);
  }

  lemma AsciiLengths()
    ensures |Ascii("-12.5e-1")| == 8 && |Ascii("5")| == 1 && Ascii("5") != []
  {
  }

  lemma MinusFiveQuarters(x: real)
    requires Denotes(x, -125, -2)
    ensures x == -1.25
  {
    assert Pow10(1) == 10 && Pow10(2) == 100;
  }

  lemma NatOfText()
    ensures NatOf(Ascii("125")) == 125 && NatOf(Ascii("1")) == 1
  {
    assert Ascii("125")[..2] == Ascii("12") && Ascii("12")[..1] == Ascii("1") && Ascii("1")[..0] == [];
  }
}
