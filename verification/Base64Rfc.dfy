/** The text libb64 writes is the encoding of section 4 of RFC 4648, broken into lines of 72 characters. */
module Base64Rfc {
  import opened Bytes
  import opened Base64

  /** Table 1 of RFC 4648. */
  function Letter(v: nat): byte
    requires v < 64
  {
    if v < 26 then 0x41 + v else if v < 52 then 0x61 + (v - 26)
    else if v < 62 then 0x30 + (v - 52) else if v == 62 then 0x2B else 0x2F
  }

  /** Three bytes as one 24-bit number, most significant first. */
  function Group24(a: byte, b: byte, c: byte): (n: nat)
    ensures n < 0x1000000
  {
    a * 65536 + b * 256 + c
  }

  /** The four letters of a 24-bit group. */
  function Letters(n: nat): (t: bytes)
    requires n < 0x1000000
    ensures |t| == 4
  {
    [Letter(n / 262144), Letter(n / 4096 % 64), Letter(n / 64 % 64), Letter(n % 64)]
  }

  /** Section 4 of RFC 4648, with its three cases for the end of the data. */
  function Rfc4648(plain: bytes): bytes
    decreases |plain|
  {
    if |plain| >= 3 then Letters(Group24(plain[0], plain[1], plain[2])) + Rfc4648(plain[3..])
    else if |plain| == 2 then Letters(Group24(plain[0], plain[1], 0))[..3] + [PAD]
    else if |plain| == 1 then Letters(Group24(plain[0], 0, 0))[..2] + [PAD, PAD]
    else []
  }

  // The four letters against the encoder's shifts and masks.

  lemma SextetsOfGroup(a: byte, b: byte, c: byte)
    ensures var n := Group24(a, b, c);
            && n / 262144 == a / 4 && n / 4096 % 64 == a % 4 * 16 + b / 16
            && n / 64 % 64 == b % 16 * 4 + c / 64 && n % 64 == c % 64
  {
    var n := Group24(a, b, c);
    assert n == 262144 * (a / 4) + 4096 * (a % 4 * 16 + b / 16) + 64 * (b % 16 * 4 + c / 64) + c % 64;
    Digits64(a / 4, a % 4 * 16 + b / 16, b % 16 * 4 + c / 64, c % 64, n);
  }

  lemma Digits64(p: nat, q: nat, r: nat, s: nat, n: nat)
    requires p < 64 && q < 64 && r < 64 && s < 64 && n == 262144 * p + 4096 * q + 64 * r + s
    ensures n / 262144 == p && n / 4096 % 64 == q && n / 64 % 64 == r && n % 64 == s
  {
    assert n / 64 == 4096 * p + 64 * q + r;
    assert n / 4096 == 64 * p + q;
  }

  lemma LetterIs(v: byte)
    requires v < 64
    ensures EncodeValue(v) == Letter(v)
  {
    EncodeValueIs(v);
  }

  /** The text of the rest of a stream when `k` groups are already on the current line. */
  function Wrapped(plain: bytes, k: nat): bytes
    requires k < GROUPS_PER_LINE
    decreases |plain|
  {
    if |plain| < 3 then Rfc4648(plain) + [NEWLINE]
    else
      Rfc4648(plain[..3]) +
      (if k + 1 == GROUPS_PER_LINE then [NEWLINE] + Wrapped(plain[3..], 0) else Wrapped(plain[3..], k + 1))
  }

  function FromHere(st: Encoding, plain: bytes): bytes
    requires GoodEncoding(st)
  {
    EncodeBlock(st, plain).1 + EncodeEnd(EncodeBlock(st, plain).0)
  }

  lemma FromHereStep(st: Encoding, plain: bytes)
    requires GoodEncoding(st) && plain != []
    ensures FromHere(st, plain) == EncodeByte(st, plain[0]).1 + FromHere(EncodeByte(st, plain[0]).0, plain[1..])
  {
    hide EncodeByte, EncodeEnd, GoodEncoding;
  }

  lemma LettersOf(a: byte, b: byte, c: byte)
    ensures Letters(Group24(a, b, c)) ==
            [EncodeValue(a / 4), EncodeValue(a % 4 * 16 + b / 16), EncodeValue(b % 16 * 4 + c / 64),
             EncodeValue(c % 64)]
  {
    hide EncodeValue, Letter, Group24;
    SextetsOfGroup(a, b, c);
    LetterIs(a / 4);
    LetterIs(a % 4 * 16 + b / 16);
    LetterIs(b % 16 * 4 + c / 64);
    LetterIs(c % 64);
  }

  lemma RfcOfThree(plain: bytes)
    requires |plain| == 3
    ensures Rfc4648(plain) == Letters(Group24(plain[0], plain[1], plain[2]))
  {
    hide Letters, Group24;
    assert plain[3..] == [];
  }

  /** Three bytes from the start of a group. */
  lemma EncodeGroup(st: Encoding, plain: bytes)
    requires GoodEncoding(st) && st.step.StepA? && |plain| >= 3
    ensures var st' := Encoding(StepA, plain[2] % 64, (st.stepcount + 1) % GROUPS_PER_LINE);
            && GoodEncoding(st')
            && FromHere(st, plain) ==
               Rfc4648(plain[..3]) +
               ((if st.stepcount + 1 == GROUPS_PER_LINE then [NEWLINE] else []) + FromHere(st', plain[3..]))
  {
    hide FromHere, EncodeValue, Letters, Rfc4648, Group24;
    var a, b, c := plain[0], plain[1], plain[2];
    var st1 := Encoding(StepB, a % 4 * 16, st.stepcount);
    var st2 := Encoding(StepC, b % 16 * 4, st.stepcount);
    var st' := Encoding(StepA, c % 64, (st.stepcount + 1) % GROUPS_PER_LINE);
    var end := if st.stepcount + 1 == GROUPS_PER_LINE then [NEWLINE] else [];
    FromHereStep(st, plain);
    FromHereStep(st1, plain[1..]);
    FromHereStep(st2, plain[2..]);
    assert plain[1..][1..] == plain[2..] && plain[2..][1..] == plain[3..];
    var w, x := EncodeValue(a / 4), EncodeValue(a % 4 * 16 + b / 16);
    var y, z := EncodeValue(b % 16 * 4 + c / 64), EncodeValue(c % 64);
    assert EncodeByte(st2, c).0 == st' && EncodeByte(st2, c).1 == [y, z] + end;
    Quartet(w, x, y, z, end, FromHere(st', plain[3..]));
    LettersOf(a, b, c);
    RfcOfThree(plain[..3]);
  }

  lemma Quartet(w: byte, x: byte, y: byte, z: byte, end: bytes, rest: bytes)
    ensures [w] + ([x] + (([y, z] + end) + rest)) == [w, x, y, z] + (end + rest)
  {
  }

  lemma FromHereEnd(st: Encoding)
    requires GoodEncoding(st)
    ensures FromHere(st, []) == EncodeEnd(st)
  {
    assert EncodeBlock(st, []) == (st, []);
  }

  lemma EncodeNoneLeft(st: Encoding)
    requires GoodEncoding(st) && st.step.StepA?
    ensures FromHere(st, []) == Rfc4648([]) + [NEWLINE]
  {
    hide FromHere;
    FromHereEnd(st);
  }

  lemma EncodeOneLeft(st: Encoding, a: byte)
    requires GoodEncoding(st) && st.step.StepA?
    ensures FromHere(st, [a]) == Rfc4648([a]) + [NEWLINE]
  {
    hide EncodeValue, Letters, Group24, FromHere;
    var st1 := Encoding(StepB, a % 4 * 16, st.stepcount);
    FromHereStep(st, [a]);
    FromHereEnd(st1);
    LettersOf(a, 0, 0);
    assert [a][1..] == [];
  }

  lemma EncodeTwoLeft(st: Encoding, a: byte, b: byte)
    requires GoodEncoding(st) && st.step.StepA?
    ensures FromHere(st, [a, b]) == Rfc4648([a, b]) + [NEWLINE]
  {
    hide EncodeValue, Letters, Group24, FromHere;
    var st1 := Encoding(StepB, a % 4 * 16, st.stepcount);
    var st2 := Encoding(StepC, b % 16 * 4, st.stepcount);
    FromHereStep(st, [a, b]);
    FromHereStep(st1, [b]);
    FromHereEnd(st2);
    LettersOf(a, b, 0);
    assert [a, b][1..] == [b] && [b][1..] == [];
  }

  /** At most two bytes and the end of the stream. */
  lemma EncodeRest(st: Encoding, plain: bytes)
    requires GoodEncoding(st) && st.step.StepA? && |plain| < 3
    ensures FromHere(st, plain) == Rfc4648(plain) + [NEWLINE]
  {
    hide *;
    if |plain| == 0 {
      assert plain == [];
      EncodeNoneLeft(st);
    } else if |plain| == 1 {
      assert plain == [plain[0]];
      EncodeOneLeft(st, plain[0]);
    } else {
      assert plain == [plain[0], plain[1]];
      EncodeTwoLeft(st, plain[0], plain[1]);
    }
  }

  lemma {:induction false} EncodeWraps(st: Encoding, plain: bytes)
    requires GoodEncoding(st) && st.step.StepA?
    ensures FromHere(st, plain) == Wrapped(plain, st.stepcount)
    decreases |plain|
  {
    hide FromHere, Rfc4648;
    if |plain| < 3 {
      EncodeRest(st, plain);
    } else {
      EncodeGroup(st, plain);
      EncodeWraps(Encoding(StepA, plain[2] % 64, (st.stepcount + 1) % GROUPS_PER_LINE), plain[3..]);
      var rest := Wrapped(plain[3..], (st.stepcount + 1) % GROUPS_PER_LINE);
      assert [] + rest == rest;
    }
  }

  // What the wrapped text looks like.

  /** Rfc4648 of a whole number of groups and more. */
  lemma {:induction false} RfcConcat(a: bytes, b: bytes)
    requires |a| % 3 == 0
    ensures Rfc4648(a + b) == Rfc4648(a) + Rfc4648(b)
    decreases |a|
  {
    hide Letters;
    if a == [] {
      assert a + b == b && [] + Rfc4648(b) == Rfc4648(b);
    } else {
      RfcConcat(a[3..], b);
      assert (a + b)[3..] == a[3..] + b;
    }
  }

  /** A full line: the groups still missing on it, then the line break. */
  lemma {:induction false} WrappedLine(plain: bytes, k: nat, n: nat)
    requires k < GROUPS_PER_LINE && n == 3 * (GROUPS_PER_LINE - k)
    ensures Wrapped(plain, k) ==
            if |plain| >= n then Rfc4648(plain[..n]) + ([NEWLINE] + Wrapped(plain[n..], 0))
            else Rfc4648(plain) + [NEWLINE]
    decreases |plain|
  {
    hide Rfc4648;
    if |plain| >= 3 && k + 1 < GROUPS_PER_LINE {
      var head, rest := plain[..3], plain[3..];
      WrappedLine(rest, k + 1, n - 3);
      Slices(plain, n);
      if |plain| >= n {
        var line, tail := rest[..n - 3], [NEWLINE] + Wrapped(plain[n..], 0);
        RfcConcat(head, line);
        assert Rfc4648(head) + (Rfc4648(line) + tail) == Rfc4648(head) + Rfc4648(line) + tail;
      } else {
        RfcConcat(head, rest);
        assert Rfc4648(head) + (Rfc4648(rest) + [NEWLINE]) == Rfc4648(head) + Rfc4648(rest) + [NEWLINE];
      }
    }
  }

  lemma Slices(plain: bytes, n: nat)
    requires |plain| >= 3 && n >= 3
    ensures plain == plain[..3] + plain[3..]
    ensures |plain| >= n ==> plain[..n] == plain[..3] + plain[3..][..n - 3] && plain[3..][n - 3..] == plain[n..]
  {
  }

  lemma {:induction false} RfcLength(plain: bytes)
    ensures |Rfc4648(plain)| == 4 * ((|plain| + 2) / 3)
    decreases |plain|
  {
    hide Letters, Group24;
    if |plain| >= 3 {
      RfcLength(plain[3..]);
    }
  }

  /** The exact form of the stream: while 54 bytes or more are left, a line of their 72 characters; then the
      rest on a last line, which may be empty. */
  lemma StreamForm(plain: bytes)
    ensures EncodedStream(plain) ==
            if |plain| >= 54 then Rfc4648(plain[..54]) + ([NEWLINE] + EncodedStream(plain[54..]))
            else Rfc4648(plain) + [NEWLINE]
    ensures |plain| >= 54 ==> |Rfc4648(plain[..54])| == 72
  {
    hide EncodeBlock, EncodeEnd, Wrapped, Rfc4648;
    EncodeWraps(ENCODING_START, plain);
    WrappedLine(plain, 0, 54);
    if |plain| >= 54 {
      EncodeWraps(ENCODING_START, plain[54..]);
      RfcLength(plain[..54]);
    }
  }

  /** Its exact length. */
  lemma {:induction false} StreamLength(plain: bytes)
    ensures |EncodedStream(plain)| == 4 * ((|plain| + 2) / 3) + |plain| / 54 + 1
    decreases |plain|
  {
    hide EncodedStream, Rfc4648;
    StreamForm(plain);
    if |plain| >= 54 {
      var n := |plain| - 54;
      StreamLength(plain[54..]);
      assert (n + 54 + 2) / 3 == (n + 2) / 3 + 18 && (n + 54) / 54 == n / 54 + 1;
    } else {
      RfcLength(plain);
    }
  }

  function WithoutNewlines(t: bytes): bytes {
    if t == [] then []
    else if t[0] == NEWLINE then WithoutNewlines(t[1..])
    else [t[0]] + WithoutNewlines(t[1..])
  }

  lemma {:induction false} WithoutNewlinesConcat(a: bytes, b: bytes)
    ensures WithoutNewlines(a + b) == WithoutNewlines(a) + WithoutNewlines(b)
  {
    if a == [] {
      assert a + b == b && [] + WithoutNewlines(b) == WithoutNewlines(b);
    } else {
      assert (a + b)[1..] == a[1..] + b;
      WithoutNewlinesConcat(a[1..], b);
    }
  }

  lemma {:induction false} NoNewlines(t: bytes)
    requires NEWLINE !in t
    ensures WithoutNewlines(t) == t
  {
    if t != [] {
      NoNewlines(t[1..]);
    }
  }

  lemma {:induction false} RfcHasNoNewline(plain: bytes)
    ensures NEWLINE !in Rfc4648(plain)
    decreases |plain|
  {
    if |plain| >= 3 {
      RfcHasNoNewline(plain[3..]);
    }
  }

  /** Without its line breaks the stream is the encoding of RFC 4648. */
  lemma {:induction false} StreamIsRfc4648(plain: bytes)
    ensures WithoutNewlines(EncodedStream(plain)) == Rfc4648(plain)
    decreases |plain|
  {
    hide EncodedStream, Rfc4648, WithoutNewlines;
    StreamForm(plain);
    OneNewline();
    if |plain| >= 54 {
      var head, rest := plain[..54], EncodedStream(plain[54..]);
      StreamIsRfc4648(plain[54..]);
      WithoutNewlinesConcat(Rfc4648(head), [NEWLINE] + rest);
      WithoutNewlinesConcat([NEWLINE], rest);
      RfcHasNoNewline(head);
      NoNewlines(Rfc4648(head));
      RfcConcat(head, plain[54..]);
      assert plain == head + plain[54..];
      assert [] + WithoutNewlines(rest) == WithoutNewlines(rest);
    } else {
      WithoutNewlinesConcat(Rfc4648(plain), [NEWLINE]);
      RfcHasNoNewline(plain);
      NoNewlines(Rfc4648(plain));
      assert Rfc4648(plain) + [] == Rfc4648(plain);
    }
  }

  lemma OneNewline()
    ensures WithoutNewlines([NEWLINE]) == []
  {
  }
}
