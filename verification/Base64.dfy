/** The two state machines of libb64, one byte or character at a time: what they write, the state they
    carry from block to block, and what the two do to each other. */
module Base64 {
  import opened Bytes

  const NEWLINE: byte := 0x0A
  const PAD: byte := 0x3D
  const GROUPS_PER_LINE: nat := 18 // CHARS_PER_LINE / 4

  lemma Separators()
    ensures Ascii("\n=") == [NEWLINE, PAD] && 4 * GROUPS_PER_LINE == 72
  {
  }

  // Alphabet.

  /** `n` consecutive numbers of a table, from `from` on. */
  function Run(from: int, n: nat): (r: seq<int>)
    ensures |r| == n && forall i | 0 <= i < n :: r[i] == from + i
  {
    seq(n, i => from + i)
  }

  /** The table of 64 characters. */
  function Encoding64(): (t: bytes)
    ensures |t| == 64
  {
    Run(0x41, 26) + Run(0x61, 26) + Run(0x30, 10) + [0x2B, 0x2F]
  }

  /** The table of the values of the characters 43 to 122. */
  function Decoding80(): (t: seq<int>)
    ensures |t| == 80
  {
    [62, -1, -1, -1, 63] + Run(52, 10) + [-1, -1, -1, -2, -1, -1, -1] + Run(0, 26) +
    [-1, -1, -1, -1, -1, -1] + Run(26, 26)
  }

  /** `base64_encode_value`, whose argument is a `char` that must not be negative. */
  function EncodeValue(v: byte): byte
    requires v < 128
  {
    if v > 63 then PAD else Encoding64()[v]
  }

  /** The value of a byte as a signed 8-bit `char`. */
  function Signed(b: byte): (r: int)
    ensures -128 <= r < 128 && (r == b || r == b - 256)
  {
    if b < 128 then b else b - 256
  }

  /** Conversion of an `int` to a signed 8-bit `char`. */
  function ToChar(x: int): (r: int)
    ensures -128 <= r < 128 && (r - x) % 256 == 0
  {
    (x + 128) % 256 - 128
  }

  /** `base64_decode_value`: negative for every byte outside the alphabet. */
  function DecodeValue(c: byte): (r: int)
    ensures -2 <= r < 64
  {
    var v := ToChar(Signed(c) - 43);
    if v < 0 || v >= |Decoding80()| then -1 else Decoding80()[v]
  }

  predicate InAlphabet(c: byte) {
    0x41 <= c <= 0x5A || 0x61 <= c <= 0x7A || 0x30 <= c <= 0x39 || c == 0x2B || c == 0x2F
  }

  lemma EncodeValueIs(v: byte)
    requires v < 64
    ensures EncodeValue(v) ==
            if v < 26 then 0x41 + v else if v < 52 then 0x61 + (v - 26)
            else if v < 62 then 0x30 + (v - 52) else if v == 62 then 0x2B else 0x2F
  {
  }

  /** On all 256 bytes: the decoder recognises the 64 characters of the alphabet and no others, also where
      the subtraction wraps around. */
  lemma DecodeValueIs(c: byte)
    ensures DecodeValue(c) ==
            if 0x41 <= c <= 0x5A then c as int - 0x41 else if 0x61 <= c <= 0x7A then c as int - 0x61 + 26
            else if 0x30 <= c <= 0x39 then c as int - 0x30 + 52 else if c == 0x2B then 62 else if c == 0x2F then 63
            else if c == PAD then -2 else -1
    ensures DecodeValue(c) >= 0 <==> InAlphabet(c)
  {
    var v := ToChar(Signed(c) - 43);
    assert v == if c < 128 then (c as int) - 43 else if c < 171 then (c as int) - 43 else (c as int) - 299;
    if 0 <= v < 80 {
      TableIs(v);
    }
    hide Decoding80, ToChar, Signed;
  }

  lemma TableIs(v: nat)
    requires v < 80
    ensures Decoding80()[v] ==
            if 22 <= v <= 47 then v - 22 else if 54 <= v then v - 28 else if 5 <= v <= 14 then v + 47
            else if v == 0 then 62 else if v == 4 then 63 else if v == 18 then -2 else -1
  {
  }

  lemma DecodeEncodeValue(v: byte)
    requires v < 64
    ensures DecodeValue(EncodeValue(v)) == v && InAlphabet(EncodeValue(v))
  {
    EncodeValueIs(v);
    DecodeValueIs(EncodeValue(v));
  }

  // Encoder.

  datatype EncodeStep = StepA | StepB | StepC

  datatype Encoding = Encoding(step: EncodeStep, result: byte, stepcount: nat)

  const ENCODING_START := Encoding(StepA, 0, 0)

  /** What holds in every state the encoder reaches. The bits that `|=` adds to `result` are clear. */
  predicate GoodEncoding(st: Encoding) {
    && st.stepcount < GROUPS_PER_LINE && st.result < 64
    && (st.step.StepB? ==> st.result % 16 == 0)
    && (st.step.StepC? ==> st.result % 4 == 0)
  }

  /** One turn of the encoder: the state after byte `b`, and the characters written for it. */
  function EncodeByte(st: Encoding, b: byte): (r: (Encoding, bytes))
    requires GoodEncoding(st)
    ensures GoodEncoding(r.0)
  {
    hide EncodeValue;
    match st.step
    case StepA => (Encoding(StepB, b % 4 * 16, st.stepcount), [EncodeValue(b / 4)])
    case StepB => (Encoding(StepC, b % 16 * 4, st.stepcount), [EncodeValue(st.result + b / 16)])
    case StepC =>
      var code := [EncodeValue(st.result + b / 64), EncodeValue(b % 64)];
      if st.stepcount + 1 == GROUPS_PER_LINE then (Encoding(StepA, b % 64, 0), code + [NEWLINE])
      else (Encoding(StepA, b % 64, st.stepcount + 1), code)
  }

  /** `base64_encode_block`. */
  function EncodeBlock(st: Encoding, plain: bytes): (r: (Encoding, bytes))
    requires GoodEncoding(st)
    ensures GoodEncoding(r.0)
    decreases |plain|
  {
    if plain == [] then (st, [])
    else
      var (mid, code) := EncodeByte(st, plain[0]);
      var (end, rest) := EncodeBlock(mid, plain[1..]);
      (end, code + rest)
  }

  /** `base64_encode_blockend`. */
  function EncodeEnd(st: Encoding): bytes
    requires GoodEncoding(st)
  {
    match st.step
    case StepA => [NEWLINE]
    case StepB => [EncodeValue(st.result), PAD, PAD, NEWLINE]
    case StepC => [EncodeValue(st.result), PAD, NEWLINE]
  }

  /** Splitting the input over two calls changes neither the output nor the state. */
  lemma {:induction false} EncodeChunks(st: Encoding, a: bytes, b: bytes)
    requires GoodEncoding(st)
    ensures EncodeBlock(st, a + b) ==
            (EncodeBlock(EncodeBlock(st, a).0, b).0,
             EncodeBlock(st, a).1 + EncodeBlock(EncodeBlock(st, a).0, b).1)
    decreases |a|
  {
    hide EncodeByte;
    if a == [] {
      assert a + b == b && [] + EncodeBlock(st, b).1 == EncodeBlock(st, b).1;
    } else {
      assert (a + b)[0] == a[0] && (a + b)[1..] == a[1..] + b;
      var (mid, code) := EncodeByte(st, a[0]);
      EncodeChunks(mid, a[1..], b);
      var first, second := EncodeBlock(mid, a[1..]).1, EncodeBlock(EncodeBlock(mid, a[1..]).0, b).1;
      assert code + (first + second) == code + first + second;
    }
  }

  /** Characters written for `n` bytes never exceed twice their number, except for one byte that
      completes a line. */
  lemma {:induction false} EncodeBound(st: Encoding, plain: bytes)
    requires GoodEncoding(st)
    ensures var n := |EncodeBlock(st, plain).1|;
            match st.step
            case StepA => n <= 2 * |plain| && (plain != [] ==> n < 2 * |plain|)
            case StepB => n <= 2 * |plain|
            case StepC => n <= 2 * |plain| + 1 && (|plain| >= 2 ==> n <= 2 * |plain|)
    decreases |plain|
  {
    if plain != [] {
      EncodeBound(EncodeByte(st, plain[0]).0, plain[1..]);
    }
  }

  /** A code buffer of twice the plaintext buffer is enough from every state, for a block of any length and
      for the end of the stream. */
  lemma EncodeBufferSuffices(st: Encoding, plain: bytes, size: nat)
    requires GoodEncoding(st) && |plain| <= size && size >= 2
    ensures |EncodeBlock(st, plain).1| <= 2 * size && |EncodeEnd(st)| <= 4
  {
    EncodeBound(st, plain);
  }

  /** With a plaintext buffer of size 1 the byte that completes a line can write three characters. */
  lemma EncodeBufferOfOne()
    ensures var st := Encoding(StepC, 0, 17); GoodEncoding(st) && |EncodeBlock(st, [0]).1| == 3
  {
    assert EncodeBlock(Encoding(StepC, 0, 17), [0]).1 == EncodeByte(Encoding(StepC, 0, 17), 0).1 + [];
  }

  /** Twice the plaintext buffer is enough for every block and every end of a stream exactly from size 2 on. */
  lemma EncodeBufferExact(size: nat)
    ensures (forall st, plain | GoodEncoding(st) && |plain| <= size ::
               |EncodeBlock(st, plain).1| <= 2 * size && |EncodeEnd(st)| <= 2 * size) <==> size >= 2
  {
    hide EncodeBlock, EncodeByte;
    if size >= 2 {
      forall st, plain | GoodEncoding(st) && |plain| <= size
        ensures |EncodeBlock(st, plain).1| <= 2 * size && |EncodeEnd(st)| <= 2 * size
      {
        EncodeBufferSuffices(st, plain, size);
      }
    } else {
      var st := Encoding(StepB, 0, 0);
      var none: bytes := [];
      assert GoodEncoding(st) && |none| <= size && |EncodeBlock(st, none).1| >= 0 && |EncodeEnd(st)| == 4;
    }
  }

  // Decoder.

  datatype DecodeStep = Step0 | Step1 | Step2 | Step3

  /** `carry` is the partly filled byte; between groups it is of no use and held as 0. */
  datatype Decoding = Decoding(step: DecodeStep, carry: byte)

  const DECODING_START := Decoding(Step0, 0)

  /** What holds in every state the decoder reaches. The bits that `|=` adds to `carry` are clear. */
  predicate GoodDecoding(st: Decoding) {
    match st.step
    case Step0 => st.carry == 0
    case Step1 => st.carry % 4 == 0
    case Step2 => st.carry % 16 == 0
    case Step3 => st.carry % 64 == 0
  }

  /** The clear low bits of a good state leave room for what is added to it. */
  lemma CarryRoom(st: Decoding)
    requires GoodDecoding(st)
    ensures st.carry as int <= match st.step case Step0 => 0 case Step1 => 252 case Step2 => 240 case Step3 => 192
  {
  }

  /** The parts of six bits that go to either side of a byte boundary. */
  lemma Fragments(f: int)
    requires 0 <= f < 64
    ensures 0 <= f / 16 <= 3 && 0 <= f % 16 * 16 <= 240 && f % 16 * 16 % 16 == 0 && f * 4 % 4 == 0
    ensures 0 <= f / 4 <= 15 && 0 <= f % 4 * 64 <= 192 && f % 4 * 64 % 64 == 0
  {
  }

  /** One turn of the decoder: the state after character `c`, and the bytes it completes. */
  function DecodeChar(st: Decoding, c: byte): (r: (Decoding, bytes))
    requires GoodDecoding(st)
    ensures GoodDecoding(r.0) && |r.1| <= 1
  {
    hide DecodeValue;
    var fragment := DecodeValue(c);
    if fragment < 0 then (st, [])
    else
      CarryRoom(st);
      Fragments(fragment);
      match st.step
      case Step0 => (Decoding(Step1, fragment * 4), [])
      case Step1 => (Decoding(Step2, fragment % 16 * 16), [st.carry + fragment / 16])
      case Step2 => (Decoding(Step3, fragment % 4 * 64), [st.carry + fragment / 4])
      case Step3 => (Decoding(Step0, 0), [st.carry + fragment])
  }

  /** `base64_decode_block`. */
  function DecodeBlock(st: Decoding, code: bytes): (r: (Decoding, bytes))
    requires GoodDecoding(st)
    ensures GoodDecoding(r.0)
    decreases |code|
  {
    if code == [] then (st, [])
    else
      var (mid, plain) := DecodeChar(st, code[0]);
      var (end, rest) := DecodeBlock(mid, code[1..]);
      (end, plain + rest)
  }

  lemma {:induction false} DecodeChunks(st: Decoding, a: bytes, b: bytes)
    requires GoodDecoding(st)
    ensures DecodeBlock(st, a + b) ==
            (DecodeBlock(DecodeBlock(st, a).0, b).0,
             DecodeBlock(st, a).1 + DecodeBlock(DecodeBlock(st, a).0, b).1)
    decreases |a|
  {
    hide DecodeChar;
    if a == [] {
      assert a + b == b && [] + DecodeBlock(st, b).1 == DecodeBlock(st, b).1;
    } else {
      assert (a + b)[0] == a[0] && (a + b)[1..] == a[1..] + b;
      var (mid, plain) := DecodeChar(st, a[0]);
      DecodeChunks(mid, a[1..], b);
      var first, second := DecodeBlock(mid, a[1..]).1, DecodeBlock(DecodeBlock(mid, a[1..]).0, b).1;
      assert plain + (first + second) == plain + first + second;
    }
  }

  /** The characters of the alphabet, in order. */
  function AlphabetOnly(code: bytes): bytes {
    if code == [] then []
    else if InAlphabet(code[0]) then [code[0]] + AlphabetOnly(code[1..])
    else AlphabetOnly(code[1..])
  }

  lemma DecodeOther(st: Decoding, c: byte)
    requires GoodDecoding(st) && !InAlphabet(c)
    ensures DecodeChar(st, c) == (st, [])
  {
    DecodeValueIs(c);
  }

  /** Padding, line breaks and any other byte are skipped: only the alphabet matters. */
  lemma {:induction false} DecodeAlphabetOnly(st: Decoding, code: bytes)
    requires GoodDecoding(st)
    ensures DecodeBlock(st, code) == DecodeBlock(st, AlphabetOnly(code))
    decreases |code|
  {
    hide DecodeChar, InAlphabet, GoodDecoding;
    if code != [] {
      var (mid, plain) := DecodeChar(st, code[0]);
      DecodeAlphabetOnly(mid, code[1..]);
      if InAlphabet(code[0]) {
        assert AlphabetOnly(code)[1..] == AlphabetOnly(code[1..]);
      } else {
        DecodeOther(st, code[0]);
        assert [] + DecodeBlock(st, code[1..]).1 == DecodeBlock(st, code[1..]).1;
      }
    }
  }

  /** Bytes outside the alphabet after `code` change nothing. */
  lemma {:induction false} DecodeIgnored(st: Decoding, code: bytes, tail: bytes)
    requires GoodDecoding(st) && AlphabetOnly(tail) == []
    ensures DecodeBlock(st, code + tail) == DecodeBlock(st, code)
  {
    hide DecodeChar, GoodDecoding;
    DecodeChunks(st, code, tail);
    var (mid, plain) := DecodeBlock(st, code);
    DecodeAlphabetOnly(mid, tail);
    assert plain + [] == plain;
  }

  /** Of four characters in a row at least one completes no byte. */
  lemma {:induction false} DecodeBound(st: Decoding, code: bytes)
    requires GoodDecoding(st)
    ensures var n := |DecodeBlock(st, code).1|;
            && n <= |code|
            && (|code| >= (match st.step case Step0 => 1 case Step3 => 2 case Step2 => 3 case Step1 => 4) ==>
                  n < |code|)
    decreases |code|
  {
    if code != [] {
      DecodeBound(DecodeChar(st, code[0]).0, code[1..]);
    }
  }

  /** A plaintext buffer as large as the code buffer has room for every completed byte and for the
      partly filled one, from every state. */
  lemma DecodeBufferSuffices(st: Decoding, code: bytes, size: nat)
    requires GoodDecoding(st) && |code| <= size && size >= 4
    ensures |DecodeBlock(st, code).1| < size
  {
    DecodeBound(st, code);
  }

  /** From a state with two bits missing, up to three characters complete a byte each. */
  lemma DecodeRun(code: bytes)
    requires |code| <= 3 && forall k | 0 <= k < |code| :: InAlphabet(code[k])
    ensures |DecodeBlock(Decoding(Step1, 0), code).1| == |code|
  {
    hide InAlphabet;
    var st := Decoding(Step1, 0);
    for k := 0 to |code|
      invariant GoodDecoding(st) && DecodeBlock(Decoding(Step1, 0), code[..k]).0 == st
      invariant |DecodeBlock(Decoding(Step1, 0), code[..k]).1| == k
      invariant st.step == if k == 0 then Step1 else if k == 1 then Step2 else if k == 2 then Step3 else Step0
    {
      var c := code[k];
      assert code[..k + 1] == code[..k] + [c];
      DecodeChunks(Decoding(Step1, 0), code[..k], [c]);
      DecodeValueIs(c);
      assert DecodeBlock(st, [c]) == (DecodeChar(st, c).0, DecodeChar(st, c).1 + []);
      st := DecodeChar(st, c).0;
    }
    assert code[..|code|] == code;
  }

  /** There is room for the completed bytes and the partly filled one, whatever the state and the block, exactly from
      size 4 on: in a smaller buffer the partly filled byte can lie beyond the end. */
  lemma DecodeBufferExact(size: nat)
    ensures (forall st, code | GoodDecoding(st) && |code| <= size :: |DecodeBlock(st, code).1| < size) <==> size >= 4
  {
    hide DecodeBlock, DecodeChar;
    if size >= 4 {
      forall st, code | GoodDecoding(st) && |code| <= size
        ensures |DecodeBlock(st, code).1| < size
      {
        DecodeBufferSuffices(st, code, size);
      }
    } else {
      var code := seq(size, k => 0x41);
      DecodeRun(code);
      assert GoodDecoding(Decoding(Step1, 0));
    }
  }

  // Round trip.

  /** The encoder has read byte `x` and not yet written all of it; the decoder has read what was written. */
  predicate Coupled(e: Encoding, d: Decoding, x: byte) {
    match e.step
    case StepA => d.step.Step0?
    case StepB => d.step.Step1? && e.result == x % 4 * 16 && d.carry == x / 4 * 4
    case StepC => d.step.Step2? && e.result == x % 16 * 4 && d.carry == x / 16 * 16
  }

  /** The byte the decoder still owes. */
  function Owed(e: Encoding, x: byte): bytes {
    if e.step.StepA? then [] else [x]
  }

  /** Decoding what the encoder writes for one byte completes the byte owed before. */
  lemma CoupledByte(e: Encoding, d: Decoding, x: byte, b: byte)
    requires GoodEncoding(e) && GoodDecoding(d) && Coupled(e, d, x)
    ensures var (e', code) := EncodeByte(e, b); var (d', plain) := DecodeBlock(d, code);
            Coupled(e', d', b) && plain + Owed(e', b) == Owed(e, x) + [b]
  {
    match e.step
    case StepA => CoupledA(e, d, b);
    case StepB => CoupledB(e, d, x, b);
    case StepC => CoupledC(e, d, x, b);
  }

  lemma DecodeOne(d: Decoding, v: byte)
    requires GoodDecoding(d) && v < 64
    ensures DecodeBlock(d, [EncodeValue(v)]) == DecodeChar(d, EncodeValue(v))
    ensures DecodeValue(EncodeValue(v)) == v
  {
    DecodeEncodeValue(v);
    var r := DecodeChar(d, EncodeValue(v));
    assert r.1 + [] == r.1;
  }

  lemma CoupledA(e: Encoding, d: Decoding, b: byte)
    requires GoodEncoding(e) && GoodDecoding(d) && e.step.StepA? && d.step.Step0?
    ensures var (e', code) := EncodeByte(e, b); var (d', plain) := DecodeBlock(d, code);
            Coupled(e', d', b) && plain + Owed(e', b) == [b]
  {
    hide EncodeValue, DecodeValue, DecodeBlock;
    DecodeOne(d, b / 4);
  }

  lemma CoupledB(e: Encoding, d: Decoding, x: byte, b: byte)
    requires GoodEncoding(e) && GoodDecoding(d) && e.step.StepB? && Coupled(e, d, x)
    ensures var (e', code) := EncodeByte(e, b); var (d', plain) := DecodeBlock(d, code);
            Coupled(e', d', b) && plain + Owed(e', b) == [x] + [b]
  {
    hide EncodeValue, DecodeValue, DecodeBlock;
    DecodeOne(d, e.result + b / 16);
  }

  lemma CoupledC(e: Encoding, d: Decoding, x: byte, b: byte)
    requires GoodEncoding(e) && GoodDecoding(d) && e.step.StepC? && Coupled(e, d, x)
    ensures var (e', code) := EncodeByte(e, b); var (d', plain) := DecodeBlock(d, code);
            Coupled(e', d', b) && plain + Owed(e', b) == [x] + [b]
  {
    hide DecodeBlock, DecodeChar, EncodeValue, AlphabetOnly;
    var v, w := e.result + b / 64, b % 64;
    DecodeTwo(d, v, w);
    assert d.carry + v / 4 == x && v % 4 * 64 + w == b;
    assert [x, b] + [] == [x] + [b];
    if e.stepcount + 1 == GROUPS_PER_LINE {
      NotInAlphabet();
      DecodeIgnored(d, [EncodeValue(v), EncodeValue(w)], [NEWLINE]);
    }
  }

  lemma DecodeTwo(d: Decoding, v: byte, w: byte)
    requires GoodDecoding(d) && d.step.Step2? && v < 64 && w < 64
    ensures DecodeBlock(d, [EncodeValue(v), EncodeValue(w)]) ==
            (Decoding(Step0, 0), [d.carry + v / 4, v % 4 * 64 + w])
  {
    var a, b := [EncodeValue(v)], [EncodeValue(w)];
    assert [EncodeValue(v), EncodeValue(w)] == a + b;
    DecodeChunks(d, a, b);
    DecodeOne(d, v);
    var mid := Decoding(Step3, v % 4 * 64);
    assert DecodeBlock(d, a) == (mid, [d.carry + v / 4]);
    DecodeOne(mid, w);
    assert DecodeBlock(mid, b) == (Decoding(Step0, 0), [v % 4 * 64 + w]);
    var p, q: byte := d.carry + v / 4, v % 4 * 64 + w;
    assert [p] + [q] == [p, q];
  }

  /** The end of the stream delivers the byte owed. */
  lemma CoupledEnd(e: Encoding, d: Decoding, x: byte)
    requires GoodEncoding(e) && GoodDecoding(d) && Coupled(e, d, x)
    ensures DecodeBlock(d, EncodeEnd(e)).1 == Owed(e, x)
  {
    hide EncodeValue, DecodeValue, DecodeBlock;
    var c := EncodeValue(e.result);
    match e.step
    case StepA =>
      NotInAlphabet();
      DecodeIgnored(d, [], [NEWLINE]);
      assert [] + [NEWLINE] == [NEWLINE];
      DecodeNothing(d);
    case StepB =>
      NotInAlphabet();
      DecodeIgnored(d, [c], [PAD, PAD, NEWLINE]);
      assert [c] + [PAD, PAD, NEWLINE] == EncodeEnd(e);
      DecodeOne(d, e.result);
    case StepC =>
      NotInAlphabet();
      DecodeIgnored(d, [c], [PAD, NEWLINE]);
      assert [c] + [PAD, NEWLINE] == EncodeEnd(e);
      DecodeOne(d, e.result);
  }

  lemma DecodeNothing(d: Decoding)
    requires GoodDecoding(d)
    ensures DecodeBlock(d, []) == (d, [])
  {
  }

  lemma NotInAlphabet()
    ensures AlphabetOnly([NEWLINE]) == [] && AlphabetOnly([PAD, NEWLINE]) == []
    ensures AlphabetOnly([PAD, PAD, NEWLINE]) == []
  {
    assert [PAD, PAD, NEWLINE][1..] == [PAD, NEWLINE] && [PAD, NEWLINE][1..] == [NEWLINE];
  }

  /** From coupled states, decoding the rest of the encoder's output gives the rest of its input. */
  lemma {:induction false} RoundTripFrom(e: Encoding, d: Decoding, x: byte, plain: bytes)
    requires GoodEncoding(e) && GoodDecoding(d) && Coupled(e, d, x)
    ensures DecodeBlock(d, EncodeBlock(e, plain).1 + EncodeEnd(EncodeBlock(e, plain).0)).1 == Owed(e, x) + plain
    decreases |plain|
  {
    hide EncodeByte, EncodeEnd, DecodeChar, Coupled, Owed, GoodEncoding, GoodDecoding;
    if plain == [] {
      CoupledEnd(e, d, x);
      assert [] + EncodeEnd(e) == EncodeEnd(e);
      assert Owed(e, x) + [] == Owed(e, x);
    } else {
      var b, rest := plain[0], plain[1..];
      var (e', code) := EncodeByte(e, b);
      var (d', out) := DecodeBlock(d, code);
      var tail := EncodeBlock(e', rest).1 + EncodeEnd(EncodeBlock(e', rest).0);
      CoupledByte(e, d, x, b);
      RoundTripFrom(e', d', b, rest);
      DecodeChunks(d, code, tail);
      assert EncodeBlock(e, plain).1 + EncodeEnd(EncodeBlock(e, plain).0) == code + tail;
      assert out + (Owed(e', b) + rest) == Owed(e, x) + [b] + rest;
      assert [b] + rest == plain;
    }
  }

  /** The whole text the encoder writes for a stream. */
  function EncodedStream(plain: bytes): bytes {
    EncodeBlock(ENCODING_START, plain).1 + EncodeEnd(EncodeBlock(ENCODING_START, plain).0)
  }

  function DecodedStream(code: bytes): bytes {
    DecodeBlock(DECODING_START, code).1
  }

  /** Decoding an encoded stream gives the stream back. */
  lemma StreamRoundTrip(plain: bytes)
    ensures DecodedStream(EncodedStream(plain)) == plain
  {
    RoundTripFrom(ENCODING_START, DECODING_START, 0, plain);
    assert Owed(ENCODING_START, 0) + plain == plain;
  }
}
