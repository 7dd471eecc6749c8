/** The block functions of libb64 over caller-supplied buffers, and the stream loops around them. Every
    access to a buffer is shown to be within it. */
module Base64Codec {
  import opened Bytes
  import opened Base64

  // Streams.

  class InputStream {
    const data: bytes
    var pos: nat
    var good: bool

    constructor (input: bytes)
      ensures data == input && pos == 0 && good
    {
      data, pos, good := input, 0, true;
    }

    ghost predicate Valid()
      reads this
    {
      pos <= |data|
    }

    /** `read(buf, n)` followed by `gcount()`: reading less than `n` bytes ends the stream. */
    method Read(buf: array<byte>, n: nat) returns (count: nat)
      requires Valid() && good && n <= buf.Length
      modifies this, buf
      ensures Valid() && count <= n && pos == old(pos) + count
      ensures buf[..count] == data[old(pos)..pos]
      ensures if good then count == n else pos == |data|
    {
      count := if n <= |data| - pos then n else |data| - pos;
      for k := 0 to count
        invariant pos == old(pos) && buf[..k] == data[pos..pos + k]
      {
        buf[k] := data[pos + k];
      }
      pos := pos + count;
      good := count == n;
    }
  }

  class OutputStream {
    var text: bytes

    constructor ()
      ensures text == []
    {
      text := [];
    }

    method Write(buf: array<byte>, n: nat)
      requires n <= buf.Length
      modifies this
      ensures text == old(text) + buf[..n]
    {
      text := text + buf[..n];
    }
  }

  // Encoder.

  class EncodeState {
    var step: EncodeStep
    var result: byte
    var stepcount: nat

    constructor ()
      ensures State() == ENCODING_START
    {
      step, result, stepcount := StepA, 0, 0;
    }

    ghost function State(): Encoding
      reads this
    {
      Encoding(step, result, stepcount)
    }

    /** `base64_init_encodestate`. */
    method Init()
      modifies this
      ensures State() == ENCODING_START
    {
      step, result, stepcount := StepA, 0, 0;
    }
  }

  lemma EncodeSnoc(st: Encoding, plain: bytes, b: byte)
    requires GoodEncoding(st)
    ensures var (mid, code) := EncodeBlock(st, plain);
            EncodeBlock(st, plain + [b]) == (EncodeByte(mid, b).0, code + EncodeByte(mid, b).1)
  {
    hide EncodeByte, GoodEncoding;
    EncodeChunks(st, plain, [b]);
    var (mid, code) := EncodeBlock(st, plain);
    EncodeOnly(mid, b);
  }

  lemma EncodeOnly(st: Encoding, b: byte)
    requires GoodEncoding(st)
    ensures EncodeBlock(st, [b]) == EncodeByte(st, b)
  {
    hide EncodeByte, GoodEncoding;
    var r := EncodeByte(st, b);
    assert [b][1..] == [] && r.1 + [] == r.1;
  }

  lemma EncodeShorter(st: Encoding, plain: bytes, a: bytes, b: bytes)
    requires GoodEncoding(st) && plain == a + b
    ensures |EncodeBlock(st, a).1| <= |EncodeBlock(st, plain).1|
  {
    hide EncodeByte, GoodEncoding, EncodeBlock;
    EncodeChunks(st, a, b);
  }

  /** A prefix of the input never needs more room than the whole. */
  lemma EncodePrefixFits(st: Encoding, plain: bytes, k: nat)
    requires GoodEncoding(st) && k < |plain|
    ensures var (mid, code) := EncodeBlock(st, plain[..k]);
            && EncodeBlock(st, plain[..k + 1]) == (EncodeByte(mid, plain[k]).0, code + EncodeByte(mid, plain[k]).1)
            && |code + EncodeByte(mid, plain[k]).1| <= |EncodeBlock(st, plain).1|
  {
    hide EncodeByte, GoodEncoding, EncodeBlock;
    var a, c, b := plain[..k], plain[k], plain[k + 1..];
    var longer := plain[..k + 1];
    assert longer == a + [c];
    EncodeSnoc(st, a, c);
    assert plain == longer + b;
    EncodeShorter(st, plain, longer, b);
  }

  /** The body of the loop in `base64_encode_block`, for one byte: writes at `n` what the state demands. */
  method EncodeOne(fragment: byte, codeOut: array<byte>, n: nat, state: EncodeState) returns (next: nat)
    requires GoodEncoding(state.State())
    requires n + |EncodeByte(state.State(), fragment).1| <= codeOut.Length
    modifies codeOut, state
    ensures n <= next <= codeOut.Length && state.State() == EncodeByte(old(state.State()), fragment).0
    ensures codeOut[n..next] == EncodeByte(old(state.State()), fragment).1
    ensures codeOut[..n] == old(codeOut[..n]) && codeOut[next..] == old(codeOut[next..])
  {
    var result := state.result;
    next := n;
    match state.step {
      case StepA =>
        result := fragment / 4;
        codeOut[next] := EncodeValue(result);
        next := next + 1;
        result := fragment % 4 * 16;
        state.step := StepB;
      case StepB =>
        result := result + fragment / 16;
        codeOut[next] := EncodeValue(result);
        next := next + 1;
        result := fragment % 16 * 4;
        state.step := StepC;
      case StepC =>
        result := result + fragment / 64;
        codeOut[next] := EncodeValue(result);
        next := next + 1;
        result := fragment % 64;
        codeOut[next] := EncodeValue(result);
        next := next + 1;
        state.stepcount := state.stepcount + 1;
        if state.stepcount == GROUPS_PER_LINE {
          codeOut[next] := NEWLINE;
          next := next + 1;
          state.stepcount := 0;
        }
        state.step := StepA;
    }
    state.result := result;
    assert codeOut[n..next] == EncodeByte(old(state.State()), fragment).1;
  }

  /** `base64_encode_block`. */
  method EncodeBlockInto(plaintext: array<byte>, length: nat, codeOut: array<byte>, state: EncodeState) returns (n: nat)
    requires length <= plaintext.Length && plaintext != codeOut && GoodEncoding(state.State())
    requires |EncodeBlock(state.State(), plaintext[..length]).1| <= codeOut.Length
    modifies codeOut, state
    ensures n <= codeOut.Length
    ensures (state.State(), codeOut[..n]) == EncodeBlock(old(state.State()), plaintext[..length])
    ensures codeOut[n..] == old(codeOut[n..])
  {
    hide EncodeByte, GoodEncoding, EncodeBlock;
    ghost var st, plain := state.State(), plaintext[..length];
    n := 0;
    EncodeEmpty(st);
    assert plain[..0] == [] && codeOut[..0] == [];
    for k := 0 to length
      invariant n <= codeOut.Length
      invariant GoodEncoding(state.State())
      invariant state.State() == EncodeBlock(st, plain[..k]).0 && codeOut[..n] == EncodeBlock(st, plain[..k]).1
      invariant codeOut[n..] == old(codeOut[n..])
    {
      EncodePrefixFits(st, plain, k);
      ghost var before := codeOut[..n];
      var next := EncodeOne(plaintext[k], codeOut, n, state);
      assert codeOut[..next] == before + codeOut[n..next];
      n := next;
    }
    assert plain[..length] == plain;
  }

  lemma EncodeEmpty(st: Encoding)
    requires GoodEncoding(st)
    ensures EncodeBlock(st, []) == (st, [])
  {
  }

  /** `base64_encode_blockend`. */
  method EncodeBlockEnd(codeOut: array<byte>, state: EncodeState) returns (n: nat)
    requires GoodEncoding(state.State()) && |EncodeEnd(state.State())| <= codeOut.Length
    modifies codeOut
    ensures n <= codeOut.Length && codeOut[..n] == EncodeEnd(state.State())
  {
    n := 0;
    match state.step {
      case StepB =>
        codeOut[0], codeOut[1], codeOut[2] := EncodeValue(state.result), PAD, PAD;
        n := 3;
      case StepC =>
        codeOut[0], codeOut[1] := EncodeValue(state.result), PAD;
        n := 2;
      case StepA =>
    }
    codeOut[n] := NEWLINE;
    n := n + 1;
  }

  class Encoder {
    const state: EncodeState
    const buffersize: nat

    constructor (size: nat)
      ensures buffersize == size && fresh(state)
    {
      state := new EncodeState();
      buffersize := size;
    }

    /** `encoder::encode(istream, ostream)`. */
    method Encode(input: InputStream, output: OutputStream)
      requires buffersize >= 2 && input.Valid() && input.good
      modifies input, output, state
      ensures output.text == old(output.text) + EncodedStream(input.data[old(input.pos)..])
      ensures state.State() == ENCODING_START && input.pos == |input.data|
    {
      hide EncodeByte, GoodEncoding, EncodeBlock, EncodeEnd;
      state.Init();
      var plaintext := new byte[buffersize](_ => 0);
      var code := new byte[2 * buffersize](_ => 0);
      ghost var start, before := input.pos, output.text;
      ghost var done: bytes := [];
      EncodeEmpty(ENCODING_START);
      StartIsGood();
      while true
        invariant input.Valid() && input.good && start <= input.pos && done == input.data[start..input.pos]
        invariant GoodEncoding(state.State()) && state.State() == EncodeBlock(ENCODING_START, done).0
        invariant output.text == before + EncodeBlock(ENCODING_START, done).1
        decreases |input.data| - input.pos
      {
        ghost var at := input.pos;
        var plainlength := input.Read(plaintext, buffersize);
        ghost var chunk := plaintext[..plainlength];
        EncodeBufferSuffices(state.State(), chunk, buffersize);
        EncodeChunks(ENCODING_START, done, chunk);
        var codelength := EncodeBlockInto(plaintext, plainlength, code, state);
        output.Write(code, codelength);
        assert input.data[start..input.pos] == input.data[start..at] + input.data[at..input.pos];
        done := done + chunk;
        assert output.text == before + EncodeBlock(ENCODING_START, done).1;
        if !(input.good && plainlength > 0) {
          break;
        }
      }
      EncodeBufferSuffices(state.State(), [], buffersize);
      var endlength := EncodeBlockEnd(code, state);
      output.Write(code, endlength);
      assert done == input.data[start..];
      state.Init();
    }
  }

  lemma StartIsGood()
    ensures GoodEncoding(ENCODING_START) && GoodDecoding(DECODING_START)
  {
  }

  // Decoder.

  class DecodeState {
    var step: DecodeStep
    var plainchar: byte

    constructor ()
      ensures State() == DECODING_START
    {
      step, plainchar := Step0, 0;
    }

    /** Between groups `plainchar` holds whatever was in the buffer and is never used. */
    ghost function State(): Decoding
      reads this
    {
      Decoding(step, if step.Step0? then 0 else plainchar)
    }

    /** `base64_init_decodestate`. */
    method Init()
      modifies this
      ensures State() == DECODING_START
    {
      step, plainchar := Step0, 0;
    }
  }

  lemma DecodeSnoc(st: Decoding, code: bytes, c: byte)
    requires GoodDecoding(st)
    ensures var (mid, plain) := DecodeBlock(st, code);
            DecodeBlock(st, code + [c]) == (DecodeChar(mid, c).0, plain + DecodeChar(mid, c).1)
  {
    hide DecodeChar, GoodDecoding;
    DecodeChunks(st, code, [c]);
    var (mid, plain) := DecodeBlock(st, code);
    DecodeOnly(mid, c);
  }

  lemma DecodeOnly(st: Decoding, c: byte)
    requires GoodDecoding(st)
    ensures DecodeBlock(st, [c]) == DecodeChar(st, c)
  {
    hide DecodeChar, GoodDecoding;
    var r := DecodeChar(st, c);
    assert [c][1..] == [] && r.1 + [] == r.1;
  }

  lemma DecodePrefixFits(st: Decoding, code: bytes, k: nat)
    requires GoodDecoding(st) && k < |code|
    ensures |DecodeBlock(st, code[..k + 1]).1| <= |DecodeBlock(st, code).1|
    ensures DecodeBlock(st, code[..k + 1]) ==
            (DecodeChar(DecodeBlock(st, code[..k]).0, code[k]).0,
             DecodeBlock(st, code[..k]).1 + DecodeChar(DecodeBlock(st, code[..k]).0, code[k]).1)
  {
    hide DecodeChar, GoodDecoding, DecodeBlock;
    assert code[..k + 1] == code[..k] + [code[k]];
    DecodeSnoc(st, code[..k], code[k]);
    assert code == code[..k + 1] + code[k + 1..];
    DecodeChunks(st, code[..k + 1], code[k + 1..]);
  }

  /** The partly filled byte lies at `p`, unless the decoder is between groups. */
  predicate CarryAt(st: Decoding, plain: bytes, p: nat) {
    p < |plain| && (!st.step.Step0? ==> plain[p] == st.carry)
  }

  /** The body of the loop in `base64_decode_block`, for one character: completes the byte at `p` or not,
      and leaves the next partly filled byte after it. */
  method DecodeOneChar(c: byte, plaintextOut: array<byte>, p: nat, step: DecodeStep, ghost st: Decoding)
    returns (next: nat, step': DecodeStep)
    requires GoodDecoding(st) && st.step == step && p < plaintextOut.Length && CarryAt(st, plaintextOut[..], p)
    requires p + |DecodeChar(st, c).1| < plaintextOut.Length
    modifies plaintextOut
    ensures p <= next < plaintextOut.Length && plaintextOut[p..next] == DecodeChar(st, c).1
    ensures step' == DecodeChar(st, c).0.step && CarryAt(DecodeChar(st, c).0, plaintextOut[..], next)
    ensures plaintextOut[..p] == old(plaintextOut[..p])
  {
    hide DecodeValue, GoodDecoding;
    var fragment := DecodeValue(c);
    next, step' := p, step;
    if fragment >= 0 {
      CarryRoom(st);
      Fragments(fragment);
      match step
      case Step0 =>
        plaintextOut[p] := fragment * 4;
        step' := Step1;
      case Step1 =>
        plaintextOut[p] := plaintextOut[p] + fragment / 16;
        next := p + 1;
        plaintextOut[next] := fragment % 16 * 16;
        step' := Step2;
      case Step2 =>
        plaintextOut[p] := plaintextOut[p] + fragment / 4;
        next := p + 1;
        plaintextOut[next] := fragment % 4 * 64;
        step' := Step3;
      case Step3 =>
        plaintextOut[p] := plaintextOut[p] + fragment;
        next := p + 1;
        step' := Step0;
    }
    assert plaintextOut[p..next] == DecodeChar(st, c).1;
  }

  /** `base64_decode_block`. The output buffer must have room for the completed bytes and one more, which
      holds the partly filled byte. */
  method DecodeBlockInto(codeIn: array<byte>, length: nat, plaintextOut: array<byte>, state: DecodeState)
    returns (n: nat)
    requires length <= codeIn.Length && codeIn != plaintextOut && GoodDecoding(state.State())
    requires |DecodeBlock(state.State(), codeIn[..length]).1| < plaintextOut.Length
    modifies plaintextOut, state
    ensures n < plaintextOut.Length && state.State() == DecodeBlock(old(state.State()), codeIn[..length]).0
    ensures plaintextOut[..n] == DecodeBlock(old(state.State()), codeIn[..length]).1
  {
    hide DecodeChar, GoodDecoding, DecodeBlock;
    ghost var st, code := state.State(), codeIn[..length];
    var p := 0;
    DecodeEmpty(st);
    plaintextOut[0] := state.plainchar;
    var step := state.step;
    assert code[..0] == [] && plaintextOut[..0] == [];
    for k := 0 to length
      invariant p < plaintextOut.Length && CarryAt(DecodeBlock(st, code[..k]).0, plaintextOut[..], p)
      invariant step == DecodeBlock(st, code[..k]).0.step
      invariant plaintextOut[..p] == DecodeBlock(st, code[..k]).1
      invariant codeIn[..length] == code && state.State() == st
    {
      DecodePrefixFits(st, code, k);
      ghost var before := plaintextOut[..p];
      var next, step' := DecodeOneChar(codeIn[k], plaintextOut, p, step, DecodeBlock(st, code[..k]).0);
      assert plaintextOut[..next] == before + plaintextOut[p..next];
      p, step := next, step';
    }
    assert code[..length] == code;
    state.step, state.plainchar := step, plaintextOut[p];
    CarryIsZero(DecodeBlock(st, code).0);
    return p;
  }

  lemma CarryIsZero(st: Decoding)
    requires GoodDecoding(st)
    ensures st.step.Step0? ==> st.carry == 0
  {
  }

  lemma DecodeEmpty(st: Decoding)
    requires GoodDecoding(st)
    ensures DecodeBlock(st, []) == (st, [])
  {
  }

  class Decoder {
    const state: DecodeState
    const buffersize: nat

    constructor (size: nat)
      ensures buffersize == size && fresh(state)
    {
      state := new DecodeState();
      buffersize := size;
    }

    /** `decoder::decode(istream, ostream)`. */
    method Decode(input: InputStream, output: OutputStream)
      requires buffersize >= 4 && input.Valid() && input.good
      modifies input, output, state
      ensures output.text == old(output.text) + DecodedStream(input.data[old(input.pos)..])
      ensures state.State() == DECODING_START && input.pos == |input.data|
    {
      hide DecodeChar, GoodDecoding, DecodeBlock;
      state.Init();
      var code := new byte[buffersize](_ => 0);
      var plaintext := new byte[buffersize](_ => 0);
      ghost var start, before := input.pos, output.text;
      ghost var done: bytes := [];
      DecodeEmpty(DECODING_START);
      StartIsGood();
      while true
        invariant input.Valid() && input.good && start <= input.pos && done == input.data[start..input.pos]
        invariant GoodDecoding(state.State()) && state.State() == DecodeBlock(DECODING_START, done).0
        invariant output.text == before + DecodeBlock(DECODING_START, done).1
        decreases |input.data| - input.pos
      {
        ghost var at := input.pos;
        var codelength := input.Read(code, buffersize);
        ghost var chunk := code[..codelength];
        DecodeBufferSuffices(state.State(), chunk, buffersize);
        DecodeChunks(DECODING_START, done, chunk);
        var plainlength := DecodeBlockInto(code, codelength, plaintext, state);
        output.Write(plaintext, plainlength);
        assert input.data[start..input.pos] == input.data[start..at] + input.data[at..input.pos];
        done := done + chunk;
        assert output.text == before + DecodeBlock(DECODING_START, done).1;
        if !(input.good && codelength > 0) {
          break;
        }
      }
      assert done == input.data[start..];
      state.Init();
    }
  }
}
