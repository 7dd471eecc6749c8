# Verified model of the codecs and parsers vendored by a PostgreSQL extension for consul

The extension keeps the libraries it depends on as source. This project models those of them that compute, and the
consul types that compose them, and proves what they are for:

- **json11**: the recursive-descent parser (an object with a cursor, a one-way failure flag, a depth limit of 200 and a
  code point held back for surrogate pairs), the printer and the order on values. The parser is proved against a
  functional scan (`JsonScan`), the scan against syntax trees of RFC 8259 (`JsonGrammar`), in both directions and with
  the error for depth; what numbers denote and what bears out each error; from there, the round trip of printing and
  parsing, several values in one input, and the handling of `\u` escapes. The printed text and the order are stated
  by their cases.
- **libb64**: encoder and decoder as state machines that carry half a group from call to call, over caller-supplied
  buffers. Round trip through any chunking, the exact form and length of the output, and that buffers suffice.
- **TCLAP**: how arguments look at the words of a command line, and the one counter that stands for all requirements
  and all groups of exclusive arguments. The invariant holds in every run; where the code counts less than it should
  is stated exactly; and which words are refused, and which values a run leaves, is said of words and definitions
  alone. Also its word wrapping.
- **easylogging++**: the typed configuration compressed to one Global value and exceptions, the wildcard matcher, and
  the wrapping counter for every n-th log message.
- **cpr** and **consul**: percent-encoded query strings, peers written as `host:port` in JSON, key-value pairs with a
  base64 value, and Boost's conversion of a decimal port in 16-bit arithmetic.

Strings are sequences of bytes, and reading a string at its size gives NUL. Numbers are integers of the width the code
uses, written out; a number literal too long for `int` is an exact real. Exceptions and error returns are results.
What a method does to an object is stated through functions of the old state; the theorems are lemmas about these
functions.

Where the code does not do what it is for, a lemma names the inputs and another says exactly when it does:
`TclapExact.ParseExact` with `LostSwitch` and `ResetLosesCount`, `JsonUnicode.StringUtf8` with `LoneSurrogate`,
`TypedConfig.SettingsExact` with `LevelBeforeGlobal`, `HitCounters.EveryNthExact`, `Query.ReadExact`, `Peers.ReadStr`,
`KvPairs.PairRefused` with `ReadExact`, `WordWrap.WidthExact` with `LetterLines`, `WordWrap.WrapsExactly`.

`dafny verify dfyconfig.toml` checks the project.

## Model

| member | source | states |
|---|---|---|
| `Utf8.EncodeDecode` | src/json11--json11.cpp:384-403 | `encode_utf8` of any code point up to U+10FFFF, whatever follows it, is read back by an independent decoder of section 3 of RFC 3629 if and only if it is a scalar value; for a surrogate the result is malformed |
| `Utf8.EncodeInjective` | src/json11--json11.cpp:384-403 | two scalar values with a common continuation of their encodings are the same, and so is what follows: injective and prefix-free |
| `Utf8.Examples` | src/json11--json11.cpp:384-403 | one character of each length, among them the examples of section 7 of RFC 3629, byte by byte |
| `JsonParser.JsonParser.SetFailed` | src/json11--json11.cpp:346-356 | the failure flag is set for good and the first message is kept |
| `JsonParser.JsonParser.ConsumeWhitespace` | src/json11--json11.cpp:362-365 | the loop ends, inside the text, on the first character that is no white space |
| `JsonParser.JsonParser.GetNextToken` | src/json11--json11.cpp:372-378 | returns the next token and steps past it; at the end of the text returns NUL and records the failure only if there was none |
| `JsonParser.JsonParser.ParseString` | src/json11--json11.cpp:409-496 | the loop with its delayed code point computes the specified scan of a string; cursor, flag and message are those of the scan, and the cursor also after a failure |
| `JsonParser.JsonParser.CheckHex` | src/json11--json11.cpp:446-453 | the checks of length and digits accept exactly four hexadecimal digits |
| `JsonParser.JsonParser.SkipDigits` | src/json11--json11.cpp:515-516 | the digit loop stops, at the sentinel at the latest, at the end of the run of digits |
| `JsonParser.JsonParser.ParseWhole` | src/json11--json11.cpp:503-519 | sign and integer part, with leading zeros refused |
| `JsonParser.JsonParser.ParseFraction` | src/json11--json11.cpp:526-534 | the optional fraction, which needs a digit |
| `JsonParser.JsonParser.ParseExponent` | src/json11--json11.cpp:536-548 | the optional exponent, which needs a digit |
| `JsonParser.JsonParser.ParseNumber` | src/json11--json11.cpp:502-551 | on success the value and the cursor of the specified number scan, on failure its message: `int` for a text of at most nine characters, else the decimal value of the text |
| `JsonParser.JsonParser.Expect` | src/json11--json11.cpp:558-567 | after stepping back one character the word is there and is passed, or the failure shows what was there |
| `JsonParser.JsonParser.ParseJson` | src/json11--json11.cpp:573-657 | terminates at every depth; the cursor stays in the text; on success value and cursor are those of the specified scan, on failure flag and first message are, and the value is null, or an empty string left by a string that failed; a parser that had failed keeps flag and message and gives null |
| `JsonParser.JsonParser.ParseMembers` | src/json11--json11.cpp:599-630 | the object loop, with a measure for a failed read in the middle |
| `JsonParser.JsonParser.ParseElements` | src/json11--json11.cpp:632-655 | the array loop, which steps back each turn: net progress while nothing failed, one more turn at most afterwards |
| `JsonParser.Parse` | src/json11--json11.cpp:660-670 | success leaves the message passed in, failure overwrites it; trailing input is refused; the value beside an error is null, except that it is an empty string exactly when the text opens with a string whose scan fails with nothing but white space after the place where it stops |
| `JsonParser.ParseMulti` | src/json11--json11.cpp:673-683 | terminates; all values of the input, or the first error with the values read before it and what the failed one left |
| `JsonScan.ValueAt` | src/json11--json11.cpp:573-657 | every value read moves the cursor forward and not past the end |
| `JsonNumbers.AtoiText` | src/json11--json11.cpp:521-524 | on a literal that is short enough, `atoi` is the integer it denotes |
| `JsonNumbers.StrtodText` | src/json11--json11.cpp:550 | `strtod` on a literal takes its sign, digits, fraction and exponent for those of the literal; which number that is says `NumberMeans` |
| `JsonDecimal.DigitLaws` | src/json11--json11.cpp:521-524 | what digits denote: each more multiplies by ten and adds its value, and ten of them have the values 0 to 9 |
| `JsonDecimal.NumberSpelled` | src/json11--json11.cpp:502-551 | how a literal is spelled, with the characters themselves |
| `JsonDecimal.LiteralMeans` | src/json11--json11.cpp:550 | digits with a point `k` places before their end and an exponent `e` denote these digits, read as one integer, times ten to the power `e - k`, exactly, for either sign |
| `JsonDecimal.PowerLaws` | src/json11--json11.cpp:550 | powers of ten: 1 for the exponent 0, and tenfold at each step up |
| `JsonDecimal.NumberMeans` | src/json11--json11.cpp:502-551 | every number literal, parsed as a whole text: an `int` exactly when it has at most nine characters and neither fraction nor exponent, else a double; its digits, read as one integer, times the power of ten that exponent and fraction leave |
| `JsonDecimal.FiveQuarters` | src/json11--json11.cpp:502-551 | `-12.5e-1` is read as -1.25 |
| `JsonNumbers.NumberComplete` | src/json11--json11.cpp:502-551 | every number literal of section 6 is read as a whole, to its value |
| `JsonNumbers.NumberSound` | src/json11--json11.cpp:502-551 | whatever the scan accepts is a number literal, and nothing that continues it follows |
| `JsonStrings.StringComplete` | src/json11--json11.cpp:409-496 | from any state of the loop, every string of section 7 is read to the end, giving the joined code units after what was collected |
| `JsonStrings.StringSound` | src/json11--json11.cpp:409-496 | whatever the scan of a string accepts is a string of section 7 |
| `JsonStrings.StringExact` | src/json11--json11.cpp:409-496 | the value read is the value the grammar gives the string, and the cursor stands after its closing mark |
| `JsonComplete.ValueComplete` | src/json11--json11.cpp:573-657 | on the text of any syntax tree after white space the scan gives the value of the tree, or the depth error exactly when depth plus nesting exceeds 200 |
| `JsonSound.ValueSound` | src/json11--json11.cpp:573-657 | whatever the scan accepts is the text of a syntax tree after white space |
| `JsonTheorems.ParseExact` | src/json11--json11.cpp:660-670 | on every JSON text by sections 2 to 7 of RFC 8259: its value when nested at most 200 deep, else the depth error |
| `JsonTheorems.ParseSound` | src/json11--json11.cpp:660-670 | every accepted input is a JSON text |
| `JsonTheorems.ParseIffJson` | src/json11--json11.cpp:660-670 | the parser succeeds with a value if and only if the input is a JSON text of nesting at most 200 with that value |
| `JsonTheorems.ParseFailsIff` | src/json11--json11.cpp:660-670 | it fails if and only if the input is no JSON text, or only one nested deeper |
| `JsonErrors.ErrorsMean` | src/json11--json11.cpp:346-670 | whatever error is reported on a text, what stands at some place of the text bears it out, for each of the seventeen: an unexpected end where more is awaited and only white space is left, a wrong token where another one must stand, a word that is not there, an open string with the control character or the escape that is refused, the missing digit of a number, 201 brackets opened, a JSON text before trailing input |
| `JsonErrors.StringFails` | src/json11--json11.cpp:409-496 | a string is refused at a place inside it that bears the error out, and the cursor is left behind what was looked at there |
| `JsonErrors.LeftoverIs` | src/json11--json11.cpp:573-597 | what a refused value leaves is the empty string if a string was ahead within the depth limit, and else null |
| `JsonErrors.ParseLeftoverIs` | src/json11--json11.cpp:660-670 | what is returned beside an error is null, and the empty string only for a refused string with nothing but white space behind the cursor |
| `JsonText.Characters` | src/json11--json11.cpp:573-657 | the punctuation, the three words, the depth limit of 200 and the nine digits of an `int`, said with the characters and numbers themselves |
| `JsonText.Classes` | src/json11--json11.cpp:362-365 | white space, exponent marks, signs and two-character escapes, said with the characters themselves |
| `JsonText.ShortEscapes` | src/json11--json11.cpp:476-491 | the byte that each of the eight two-character escapes stands for |
| `JsonText.HexDigits` | src/json11--json11.cpp:446-455 | the digits of either case with their values, and no others |
| `JsonText.HexNumber` | src/json11--json11.cpp:446-455 | four of them denote the number with the most significant one first |
| `JsonText.Words` | src/json11--json11.cpp:580-590 | `null`, `true` and `false` with white space around them are read as these values |
| `JsonTheorems.LastValueWins` | src/json11--json11.cpp:599-630 | in any object, for any key, the value found is that of the last member with the name; keys stay sorted and unique |
| `JsonTheorems.PutLookup` | src/json11--json11.cpp:617 | assignment to a key changes what is found under it and nothing else |
| `JsonTheorems.EvalIsMap` | src/json11--json11.cpp:599-630 | objects of parsed values are sorted maps at every depth |
| `JsonMulti.DocumentsComplete` | src/json11--json11.cpp:673-683 | values laid out one after the other, from any place, are read in order, and reading goes on behind them |
| `JsonMulti.DocumentsSound` | src/json11--json11.cpp:673-683 | whatever is read is white space and texts of values nested at most 200 deep, each number ended by what follows it |
| `JsonMulti.ReadIff` | src/json11--json11.cpp:673-683 | `parse_multi` reads a list of values and stops at a place if and only if texts of these values lie before it, and there the input ends or no value nested at most 200 deep stands |
| `JsonMulti.ParseTextsIs` | src/json11--json11.cpp:673-683 | it succeeds exactly when the reading reaches the end, and else reports the error of the value it stopped at |
| `JsonMulti.ParseMultiIff` | src/json11--json11.cpp:673-683 | it accepts exactly the inputs that are texts of values in the grammar, with white space where a number would run into the next text, and returns their values |
| `JsonUnicode.JoinCharacters` | src/json11--json11.cpp:409-496 | code units of any list of scalar values and verbatim bytes, with pairs above U+FFFF, join to the concatenated UTF-8 |
| `JsonUnicode.EscapedCharacters` | src/json11--json11.cpp:409-496 | `parse_string` on a string whose escapes spell such a list returns that UTF-8 |
| `JsonUnicode.Utf8Injective` | src/json11--json11.cpp:384-403 | different lists of escaped characters give different strings |
| `JsonUnicode.JoinUtf8` | src/json11--json11.cpp:409-496 | code units and bytes join to UTF-8 (ABNF of section 4 of RFC 3629) if and only if the bytes between code units are UTF-8 and every surrogate is one of a pair |
| `JsonUnicode.StringUtf8` | src/json11--json11.cpp:409-496 | the same of what `parse_string` returns for any string; when the string itself is UTF-8 only the pairing of surrogates decides |
| `JsonUnicode.LoneSurrogate` | src/json11--json11.cpp:461-471 | a low surrogate, or a high one that no low one follows, at the head of code units makes the result begin with bytes that are no character |
| `JsonPrinter.WriteChar` | src/json11--json11.cpp:70-101 | one turn of the escaping loop, which passes three bytes for a line or paragraph separator |
| `JsonPrinter.WriteString` | src/json11--json11.cpp:68-103 | appends the escaped string in quotation marks |
| `JsonPrinter.WriteItems` | src/json11--json11.cpp:105-115 | appends the array, with the separator between elements only |
| `JsonPrinter.WriteMember` | src/json11--json11.cpp:117-129 | appends one member |
| `JsonPrinter.WriteMembers` | src/json11--json11.cpp:117-129 | appends the object |
| `JsonPrinter.Write` | src/json11--json11.cpp:131-135 | appends the text of any value |
| `JsonText.DumpScalars` | src/json11--json11.cpp:44-66 | null, booleans and integers are printed as words and decimal numerals |
| `JsonText.DumpText` | src/json11--json11.cpp:68-103 | a string is printed in quotation marks, byte by byte: the seven escapes with a letter or mark, `\u00xx` for other control characters, `\u2028` and `\u2029` for the two separators, and every other byte as it is |
| `JsonText.DumpArray` | src/json11--json11.cpp:105-115 | an array is printed as its elements in brackets with a comma and a space between them |
| `JsonText.DumpObject` | src/json11--json11.cpp:117-129 | an object is printed as its members in braces with a comma and a space between them, each as name, colon, space and value |
| `JsonRoundTrip.EscapedText` | src/json11--json11.cpp:68-103 | the escaped text is the text of a string of the grammar |
| `JsonRoundTrip.EscapedValue` | src/json11--json11.cpp:68-103 | whose value is the original byte string, for every byte string |
| `JsonRoundTrip.TreeText` | src/json11--json11.cpp:105-135 | the printed text of a value is the text of its syntax tree |
| `JsonRoundTrip.TreeValue` | src/json11--json11.cpp:105-135 | which evaluates to the value, numbers in the form the parser chooses |
| `JsonRoundTrip.TreeNesting` | src/json11--json11.cpp:105-135 | and nests as deep as the value |
| `JsonRoundTrip.ReparsedEqual` | src/json11--json11.cpp:153-158 | that value is equal, by the equality of the library, to the one printed |
| `JsonRoundTrip.LibraryPrints` | src/json11--json11.cpp:48-56 | a library that prints integers below 10^17 as such does so at every depth of a value, which is all the round trip asks of it; of a value without doubles it asks nothing |
| `JsonRoundTrip.RoundTrip` | src/json11--json11.cpp:573-670 | parsing what was printed succeeds with an equal value exactly when the nesting height is at most 200, and reports the depth otherwise |
| `JsonRoundTrip.LinesRoundTrip` | src/json11--json11.cpp:673-683 | `parse_multi` reads back every value of a text printed line by line, in order |
| `JsonOrder.CmpBytesMeaning` | src/json11--json11.cpp:164-180 | byte order and equality of strings as the sign of one comparison |
| `JsonOrder.CmpMeaning` | src/json11--json11.cpp:293-305 | `operator<` and `operator==` on all values are the signs of one three-way comparison, through arrays, objects and mixed numbers; what it decides say the next six rows |
| `JsonCompare.NumbersByValue` | src/json11--json11.cpp:164-180 | numbers of either form are less or equal exactly when what they denote is |
| `JsonCompare.NullAndBools` | src/json11--json11.cpp:152-157 | null equals null, false is less than true |
| `JsonCompare.TypesInOrder` | src/json11--json11.cpp:293-305 | between types: null, numbers, booleans, strings, arrays, objects |
| `JsonCompare.StringsByByte` | src/json11--json11.cpp:156-157 | a string is less than another exactly when it is a proper prefix of it or has the smaller byte at the first place where they differ |
| `JsonCompare.ArraysByElement` | src/json11--json11.cpp:156-157 | an array is less than another exactly when, at the first place where the elements are not equal, its element is less or it has ended; equal when all elements are |
| `JsonCompare.ObjectsByMember` | src/json11--json11.cpp:156-157 | the same of objects, member by member in the order of the keys, the key deciding before the value |
| `JsonOrder.CmpTransitive` | src/json11--json11.cpp:293-305 | the comparison is transitive, and equal only through equals |
| `JsonOrder.StrictTotalOrder` | src/json11--json11.cpp:293-305 | `<` is irreflexive and transitive, exactly one of less, equal and greater holds, and equal values are interchangeable |
| `Base64.Separators` | src/b64--cencode.cpp:12-110 | lines of 72 characters end with a newline, and groups are padded with `=` |
| `Base64.EncodeValueIs` | src/b64--cencode.cpp:21-26 | the table is the alphabet of section 4 of RFC 4648 |
| `Base64.DecodeValueIs` | src/b64--cdecode.cpp:12-19 | for all 256 byte values, also where the signed subtraction wraps: the value in the alphabet, -2 for the padding, -1 for the rest |
| `Base64.DecodeEncodeValue` | src/b64--cdecode.cpp:12-19 | the tables are inverse to each other |
| `Base64.EncodeByte` | src/b64--cencode.cpp:36-84 | every reachable state has clear low bits where the next byte is joined, and 0 <= stepcount < 18 |
| `Base64.EncodeChunks` | src/b64--cencode.cpp:28-87 | chunking is invisible: output and state for `a` then `b` are those for `a + b`, from every state |
| `Base64.EncodeBound` | src/b64--cencode.cpp:28-87 | the exact margin by which the output stays within twice the input, per state |
| `Base64.EncodeBufferSuffices` | include/b64/encode.hpp:53-70 | for every N >= 2 and every state, at most 2N characters for a block of N bytes and at most 4 at the end |
| `Base64.EncodeBufferOfOne` | include/b64/encode.hpp:53-70 | N = 1 does not suffice for a block: three characters for one byte |
| `Base64.EncodeBufferExact` | include/b64/encode.hpp:53-70 | every block of at most N bytes and every end fit 2N characters, from every state, if and only if N >= 2 |
| `Base64.DecodeChar` | src/b64--cdecode.cpp:35-86 | every reachable state has clear bits where the next sextet is joined |
| `Base64.DecodeChunks` | src/b64--cdecode.cpp:27-89 | chunking is invisible to the decoder |
| `Base64.DecodeAlphabetOnly` | src/b64--cdecode.cpp:39-84 | the result depends only on the 64 characters of the alphabet |
| `Base64.DecodeIgnored` | src/b64--cdecode.cpp:39-84 | other characters at the end change neither output nor state |
| `Base64.DecodeBound` | src/b64--cdecode.cpp:27-89 | how many of the characters complete no byte, per state |
| `Base64.DecodeBufferSuffices` | include/b64/decode.hpp:48-61 | for every M >= 4 and every state, the completed bytes and the partly filled one fit M bytes |
| `Base64.DecodeBufferExact` | include/b64/decode.hpp:48-61 | the completed bytes of every block of at most M characters and the partly filled one fit M bytes, from every state, if and only if M >= 4 |
| `Base64.CoupledByte` | src/b64--cdecode.cpp:33-86 | feeding the decoder what the encoder writes for one byte keeps the two states coupled, the decoder owing the bits the encoder holds |
| `Base64.RoundTripFrom` | src/b64--cdecode.cpp:27-89 | from any coupled states, decoding the rest of the encoding gives the owed byte and the rest of the input |
| `Base64.StreamRoundTrip` | include/b64/decode.hpp:44-67 | decoding an encoded stream gives the stream, line breaks and padding included |
| `Base64Rfc.StreamForm` | src/b64--cencode.cpp:36-110 | the stream is lines of exactly 72 characters, each the encoding of 54 bytes, and a last line with the rest |
| `Base64Rfc.StreamLength` | include/b64/encode.hpp:49-70 | its length is 4 * ceil(n / 3) + floor(n / 54) + 1 |
| `Base64Rfc.StreamIsRfc4648` | src/b64--cencode.cpp:36-110 | without its newlines it is the encoding of section 4 of RFC 4648, defined independently by 24-bit groups |
| `Base64Codec.EncodeOne` | src/b64--cencode.cpp:40-83 | one turn of the loop writes within the buffer what the state demands and nothing else |
| `Base64Codec.EncodeBlockInto` | src/b64--cencode.cpp:28-87 | the block function: output, new state, and no access outside the buffers |
| `Base64Codec.EncodeBlockEnd` | src/b64--cencode.cpp:89-110 | the end of a stream |
| `Base64Codec.Encoder.Encode` | include/b64/encode.hpp:49-76 | for every buffer size N >= 2 the chunk loop writes the encoded stream of all input |
| `Base64Codec.DecodeOneChar` | src/b64--cdecode.cpp:39-84 | one turn completes the byte at the pointer or not and leaves the partly filled one after it, touching nothing before |
| `Base64Codec.DecodeBlockInto` | src/b64--cdecode.cpp:27-89 | the block function, with the carried byte written at entry within the buffer |
| `Base64Codec.Decoder.Decode` | include/b64/decode.hpp:44-67 | for every buffer size M >= 4 the chunk loop writes the decoded stream of all input |
| `KvPairs.ValueDecodes` | include/consul/kv_pair.hpp:229-241 | the value decoded from `valueEncoded`, its trailing newline stripped, is the stored value |
| `KvPairs.ReadReparsed` | include/consul/kv_pair.hpp:43-191 | a printed and parsed member list, whose numbers may come back in another form, gives the same pair as the list itself |
| `KvPairs.ReadExact` | include/consul/kv_pair.hpp:43-191 | `InitFromJson` succeeds if and only if the object has members and every known key that is present has a value of its type |
| `KvPairs.FieldsExact` | include/consul/kv_pair.hpp:43-191 | for every object with members and the first key `j` in the order of the source whose value has another type, if any: every field before it is what stands under its own name (for a number its integer part, plus 2^64 if negative; for `Value` the decoded text), or what it was when the name is missing; the fields from it on are unchanged; and the message names it |
| `KvPairs.NoMembersRefused` | include/consul/kv_pair.hpp:43-48 | an object without members, and what is no object, is refused with nothing taken |
| `KvPairs.PrintedFields` | include/consul/kv_pair.hpp:215-227 | a pair is printed as its seven fields, each under its own name, numbers as numerals in strings and the value as base64 text that decodes to it |
| `KvPairs.ValueThroughJson` | include/consul/kv_pair.hpp:169-189 | sent among any other well-typed members of a printed JSON object and read by `InitFromJson` it is the stored value, and every other field is taken as from the object sent |
| `KvPairs.PairRefused` | include/consul/kv_pair.hpp:43-66 | no pair can be read from its own JSON: whatever the two pairs, the first index is refused and nothing is taken |
| `KvPairs.ParseStrings` | src/json11--json11.cpp:117-135 | an object of strings is parsed as it was printed |
| `KvPairs.KVPair.InitFromJson` | include/consul/kv_pair.hpp:43-191 | takes the fields one after the other, up to the first of a wrong type; and the message, which stays as it was on success |
| `KvPairs.KVPair.ValueEncoded` | include/consul/kv_pair.hpp:229-241 | computes the encoded value through the streams |
| `TclapCmdLine.SplitFlag` | include/tclap/Arg.h:620-636 | flag and value around the first delimiter, which only counts past index 1 |
| `TclapCmdLine.FindBlank` | include/tclap/Arg.h:641-648 | whether a character after the first was blanked |
| `TclapCmdLine.LastCombined` | include/tclap/SwitchArg.h:164-171 | whether all characters after the first were |
| `TclapCmdLine.IsEmptyCombined` | include/tclap/CmdLine.h:524-534 | the empty word, or a dash with nothing but blanked characters |
| `TclapCmdLine.Argument.CombinedSwitchesMatch` | include/tclap/SwitchArg.h:173-206 | blanks the first character that matches, in place, or leaves every word alone |
| `TclapCmdLine.Argument.CommonProcessing` | include/tclap/SwitchArg.h:208-225 | sets the switch once, toggles it and runs the visitor |
| `TclapCmdLine.Argument.ProcessSwitchArg` | include/tclap/SwitchArg.h:227-257 | reports a match for a whole word, or for the last switch found in a word of several |
| `TclapCmdLine.Argument.ProcessValueArg` | include/tclap/ValueArg.h:332-379 | values of ValueArg: exceptions, consumed words and new state |
| `TclapCmdLine.Argument.ProcessArg` | include/tclap/MultiArg.h:305-353 | any of the three kinds at one word |
| `TclapCmdLine.Argument.AllowMore` | include/tclap/MultiArg.h:414-419 | false the first time a MultiArg is asked, true afterwards |
| `TclapCmdLine.XorHandler.Check` | include/tclap/XorHandler.h:100-139 | what a match adds to the count, or that another of its group was chosen; marks the others as excluded |
| `TclapCmdLine.CmdLine.Add` | include/tclap/CmdLine.h:431-443 | refuses an argument like one already listed; else lists it in front and counts it if required; keeps a command line fit for its first parse, and one that was parsed before fit for a reset |
| `TclapCmdLine.CmdLine.XorAdd` | include/tclap/CmdLine.h:406-416 | requires and lists all members or refuses; keeps a command line fit for its first parse, and one that was parsed before fit for a reset |
| `TclapCmdLine.CmdLine.Offer` | include/tclap/CmdLine.h:470-475 | one argument looks at the current word; no other argument changes |
| `TclapCmdLine.CmdLine.TryArguments` | include/tclap/CmdLine.h:470-481 | the inner loop, as a function of words, arguments and position |
| `TclapCmdLine.CmdLine.Parse` | include/tclap/CmdLine.h:457-496 | the whole parse; on a command line built by `add` and `xorAdd`, a normal return means every requirement is met, and the exception for too many arguments is never thrown |
| `TclapDefine.AddDefined` | include/tclap/CmdLine.h:431-443 | the required arguments stay counted exactly when one more is put in front |
| `TclapDefine.XorAddDefined` | include/tclap/CmdLine.h:406-416 | and when a whole group is |
| `TclapRequired.ProcessMeaning` | include/tclap/SwitchArg.h:227-257 | what any look of any argument at any word can change |
| `TclapRequired.UnmatchedStep` | include/tclap/CmdLine.h:470-481 | a look without a match keeps the invariant: the count is the number of requirements counted, open groups are untouched, taken ones have one chosen member and all others excluded |
| `TclapRequired.PlainStep` | include/tclap/XorHandler.h:135-138 | a match outside the groups keeps it; a repeated MultiArg adds nothing |
| `TclapRequired.GroupStep` | include/tclap/XorHandler.h:100-133 | a match in a group keeps it: refused after another member, counted once for all members |
| `TclapRequired.LoopKeeps` | include/tclap/CmdLine.h:466-490 | every run of the loop keeps it |
| `TclapRequired.CountMeans` | include/tclap/CmdLine.h:492-496 | the count never exceeds the number of required arguments, and equals it if and only if the requirements are met, every set one was reported and no group was chosen by a MultiArg used before a reset |
| `TclapRequired.RunExact` | include/tclap/CmdLine.h:457-496 | from every initial state, new or reset: success of a run through all words, in terms of the looks of the run |
| `TclapLooks.LookedExact` | include/tclap/CmdLine.h:470-481 | what the definitions alone say of one word (which argument takes it, whether the next word is taken, whether the rest is ignored, whether a required switch is set unreported) is what the loop does |
| `TclapLooks.RunLooked` | include/tclap/CmdLine.h:466-490 | a finished run reports every switch it sets if and only if the words and definitions say so |
| `TclapValues.TriedExactly` | include/tclap/CmdLine.h:470-481 | a word throws nothing if and only if, by words and definitions and by which arguments are set, it names no switch twice, the switches it names are not set yet, the argument it is for can take the text it gives, and no other member of the group of that argument is or gets set |
| `TclapValues.WordNeeded` | include/tclap/CmdLine.h:483-490 | a word that throws nothing is passed, together with the next one if that gave the text, unless no argument is for it and it is not empty, nor the first to be ignored, nor ignored by setting |
| `TclapValues.ValueRefusals` | include/tclap/ValueArg.h:332-379 | which exception an argument with a value throws at a word that names it, each exactly when |
| `TclapValues.SwitchRefusals` | include/tclap/SwitchArg.h:207-258 | the same of a switch |
| `TclapValues.RivalRefused` | include/tclap/XorHandler.h:109-125 | a match is refused, as exclusive, exactly when another member of the group is set |
| `TclapValues.NamedBy` | include/tclap/Arg.h:590-597 | a word names an argument when it is a dash and the flag, or two dashes and the name |
| `TclapValues.Divided` | include/tclap/Arg.h:620-636 | a name of two characters or more is divided from the text after the first delimiter |
| `TclapValues.NotDivided` | include/tclap/Arg.h:620-636 | a delimiter among the first two characters divides nothing |
| `TclapValues.EmptyWords` | include/tclap/CmdLine.h:524-534 | the words that count as matched although no argument is for them: the empty one, and a dash with nothing but placeholders behind it |
| `TclapValues.TakerNamed` | include/tclap/ValueArg.h:332-379 | the argument with a value that a word is for is one that the part before the delimiter names, and its own text is the part after it |
| `TclapValues.RunLeaves` | include/tclap/CmdLine.h:466-490 | from any state, a finished run leaves each argument with the texts that words and definitions give it, in order, after what a MultiArg held; each switch flipped exactly when a word names it; and whoever is set stays set |
| `TclapLooks.LosesExactly` | include/tclap/SwitchArg.h:240-254 | a word that names no switch twice loses one if and only if it is a word of several that names a required switch together with a character that is not for a switch listed up to it, and names no switch listed before it after which the rest is ignored |
| `TclapExact.ParseExact` | include/tclap/CmdLine.h:457-496 | for every command line, also a reset one, and every input: never too many arguments; a run through all words succeeds if and only if the requirements are met, no word loses a switch, and no word is for a MultiArg of a group that had been used before the reset, all but the first said of words and definitions alone |
| `TclapExact.ParsedValues` | include/tclap/ValueArg.h:332-379 | after a run through all words from a new or reset command line, said of words and definitions alone: exactly those arguments are set that a word is for; a ValueArg holds the one text it was given, after the delimiter of its word or in the next word; a MultiArg all of them in order; and exactly those switches are flipped that some word names |
| `TclapExact.ResetForgets` | include/tclap/CmdLine.h:631-635 | after a reset and such a run the texts are those of these words alone, and a switch has its default, flipped if a word names it |
| `TclapExact.ParseMeets` | include/tclap/CmdLine.h:457-496 | after a successful parse every required argument outside the groups is set, and in every group exactly one |
| `TclapExact.ParseDecides` | include/tclap/CmdLine.h:457-496 | on words that lose no switch, with no used MultiArg in a group, success is the same as the requirements being met |
| `TclapExact.FreshExact` | include/tclap/MultiArg.h:414-426 | for a command line each MultiArg of whose groups some words can use, success is the same as the requirements being met, on all words that lose no switch, if and only if none of these MultiArgs was used before |
| `TclapExact.NoWordLoses` | include/tclap/SwitchArg.h:240-254 | a condition on the characters of the words under which none loses a switch |
| `TclapExact.LostSwitch` | include/tclap/SwitchArg.h:240-254 | `-ac`, with `-a` in a group and `-c` optional, meets the requirements and is refused |
| `TclapExact.ResetInitial` | include/tclap/CmdLine.h:631-635 | a reset after any parse makes a command line fit for the next |
| `TclapExact.ResetLosesCount` | include/tclap/MultiArg.h:414-426 | a group chosen by a MultiArg is accepted the first time and refused after a reset |
| `TclapCmdLine.CmdLine.Reset` | include/tclap/CmdLine.h:631-635 | resets every argument, and leaves a command line built by `add` and `xorAdd` fit for the next parse, whatever was parsed before |
| `WordWrap.EndsLineUnique` | include/tclap/StdOutput.h:248-266 | from a given place a line can end in one place only |
| `WordWrap.Breaks` | include/tclap/StdOutput.h:248-256 | a line may end before a space, a comma or a vertical bar, and ends after a newline |
| `WordWrap.PrintedLine` | include/tclap/StdOutput.h:268-281 | a line is printed as as many spaces as it is indented, none for a negative number, its text and a line break |
| `WordWrap.Width` | include/tclap/StdOutput.h:240-288 | when neither the first line nor the others have a negative indentation, no line is empty, and none is printed wider than the width, indentation included |
| `WordWrap.WidthExact` | include/tclap/StdOutput.h:269-278 | every text is printed within the width if and only if neither indentation is negative; otherwise a text of letters is printed wider |
| `WordWrap.WrapsExactly` | include/tclap/StdOutput.h:240-288 | the loop, for any values of its variables, comes to an end without reading before the text if and only if the lines have room for a character, or only spaces are left where they do not; and then it has printed the lines |
| `WordWrap.Wrapping` | include/tclap/StdOutput.h:240-288 | the lines are consecutive pieces of the text with runs of spaces between them, which alone are lost: each begins where the gap after the one before ends, ends at the one place where a line of the width may, and only the first can begin with a space |
| `WordWrap.WordLength` | include/tclap/StdOutput.h:248-261 | the loop back to a break character finds where the line ends as far as words go |
| `WordWrap.LineLength` | include/tclap/StdOutput.h:248-266 | with the loop over newlines it finds that place |
| `WordWrap.PrintLine` | include/tclap/StdOutput.h:268-287 | one line, and the next start after the spaces |
| `WordWrap.SpacePrint` | include/tclap/StdOutput.h:230-296 | prints those lines whenever the code comes to an end, and the text as it is when it fits or the width is not positive, for any indentation and offset |
| `TypedConfig.PutGet` | include/easylogging++.h:2812-2818 | an entry set is found with its value; all others as before |
| `TypedConfig.PutAllAgain` | include/easylogging++.h:2553-2559 | setting the levels below Global twice is the same as once |
| `TypedConfig.RunHolds` | include/easylogging++.h:2553-2559 | after any run of `set`, pairs are unique and every pair holds what the last setting for it said |
| `TypedConfig.RunFirst` | include/easylogging++.h:2812-2848 | the first entry of a type is for the level that was set first |
| `TypedConfig.BuildGlobal` | include/easylogging++.h:2990-3010 | the Global value of the compressed map is that of the Global entry, or else that of the first entry |
| `TypedConfig.BuildExact` | include/easylogging++.h:2957-3010 | the compressed map agrees with a list of unique pairs at every listed level if and only if there is no Global entry, or it parses to the value of the first entry |
| `TypedConfig.SettingsExact` | include/easylogging++.h:2957-3010 | for all runs of `set` of a type: all lookups equal the parsed last settings if and only if Global was never set, or its last value parses to that of the level set first |
| `TypedConfig.GlobalFirstAnswered` | include/easylogging++.h:2957-3010 | they do when Global is set first |
| `TypedConfig.LevelBeforeGlobal` | include/easylogging++.h:2990-3010 | they do not when a level is set before Global and again, to another value, after it |
| `TypedConfigBuild.Configurations.GetEntry` | include/easylogging++.h:2075-2080 | the first entry of the pair |
| `TypedConfigBuild.Configurations.UnsafeSet` | include/easylogging++.h:2812-2822 | updates in place or adds; Global writes all levels |
| `TypedConfigBuild.Configurations.UnsafeSetGlobally` | include/easylogging++.h:2839-2848 | the loop over the levels 2, 4, ..., 128 |
| `TypedConfigBuild.Configurations.Set` | include/easylogging++.h:2553-2559 | the list after one setting |
| `TypedConfigBuild.TypedConfigurations.SetConfig` | include/easylogging++.h:2990-3010 | one entry into one map |
| `TypedConfigBuild.TypedConfigurations.constructor` | include/easylogging++.h:3012-3050 | one pass over the list fills the four maps |
| `TypedConfigBuild.TypedConfigurations.GetConfigByVal` | include/easylogging++.h:2957-2971 | lookup with fallback to Global |
| `TypedConfigBuild.ConsistentExact` | include/easylogging++.h:2957-3010 | the same for every run of settings, also of a type that was never set |
| `TypedConfigBuild.SetBuildLookup` | include/easylogging++.h:2957-3050 | set, build and look up, for all four types: every level set answers with its last setting, a boolean being true exactly for `TRUE`, `true` or `1` with white space around it, and a number what its numeral denotes, if and only if the settings of the type are consistent |
| `TypedConfigBuild.GetBoolExact` | include/easylogging++.h:3014-3017 | for every text: true exactly when it is `TRUE`, `true` or `1` with any white space on both sides |
| `TypedConfigBuild.GetULongExact` | include/easylogging++.h:3065-3076 | for every text: the number its numeral denotes, with any white space on both sides, and 0 when there is no numeral |
| `TypedConfigBuild.GetULongPrinted` | include/easylogging++.h:3065-3076 | every number that was printed is read back, whatever white space surrounds it |
| `TypedConfigBuild.TrimPadded` | include/easylogging++.h:1257-1274 | `trim` takes off the white space on both sides and nothing else |
| `TypedConfigBuild.AffectsExact` | include/easylogging++.h:2553-2559 | the last setting of a level is the last one for it or, if it is one of the seven from Trace to Info, for Global |
| `TypedConfigBuild.Enumerators` | include/easylogging++.h:502-526 | the numbers of the levels |
| `Glob.MatchesOne` | include/easylogging++.h:1231-1250 | a pattern character other than `*` takes exactly one character of the string |
| `Glob.MatchesRun` | include/easylogging++.h:1239-1245 | a `*` takes nothing, or one character and again what a `*` takes |
| `Glob.Wildcards` | include/easylogging++.h:1230-1253 | the two characters that are not taken literally, themselves |
| `Glob.WildCardMatch` | include/easylogging++.h:1230-1253 | terminates, and answers true if and only if the string splits into pieces that fit the pattern |
| `HitCounters.HitsModulo` | include/easylogging++.h:3216-3221 | for a period up to 100000 the count differs from the number of calls by a multiple of the period and never exceeds 100000 |
| `HitCounters.EveryNth` | include/easylogging++.h:3266-3275 | whatever other sites do, a call fires if and only if the period divides the number of calls from its site |
| `HitCounters.EveryNthExact` | include/easylogging++.h:3266-3275 | this holds for ever if and only if the period is at most 100000 |
| `HitCounters.HitCounter.ValidateHitCounts` | include/easylogging++.h:3216-3221 | one step of the wrapping counter |
| `HitCounters.RegisteredHitCounters.ValidateEveryN` | include/easylogging++.h:3266-3275 | the registry answers for a site from its own calls and keeps one counter for each site |
| `Query.UrlEncode` | src/cpr--util.cpp:70-87 | the loop computes the encoding |
| `Query.EncodedCharacters` | src/cpr--util.cpp:70-87 | only unreserved characters and percent signs are left |
| `Query.EncodedByte` | src/cpr--util.cpp:75-84 | letters, digits and `-_.~` stay as they are, every other byte is a percent sign and its two hexadecimal digits in lower case |
| `Query.EncodedConcat` | src/cpr--util.cpp:75-84 | a text is encoded byte by byte |
| `Query.ContentJoined` | src/cpr--parameters.cpp:10-28 | a query that does not begin with empty parameters is the parameters joined with `&`, each its encoded key, and `=` and its encoded value if it has one |
| `Query.DecodeEncoded` | src/cpr--util.cpp:70-87 | percent-decoding by section 2.1 of RFC 3986 gives every byte string back |
| `Query.ReadContent` | src/cpr--parameters.cpp:10-28 | the query of any list of parameters, split and decoded, is the list without the empty parameters it starts with |
| `Query.ReadExact` | src/cpr--parameters.cpp:10-28 | it is the list if and only if the list does not start with the empty parameter |
| `Query.Parameters.AddParameter` | src/cpr--parameters.cpp:16-28 | appends one parameter |
| `Query.Parameters.FromList` | src/cpr--parameters.cpp:10-14 | the query of a list |
| `LexicalCast.ChecksExact` | include/boost/lexical_cast/detail/lcast_unsigned_converters.hpp:255-273 | the three overflow checks in 16-bit arithmetic fail exactly when the number does not fit |
| `LexicalCast.ConvertIteration` | include/boost/lexical_cast/detail/lcast_unsigned_converters.hpp:255-278 | one digit from the right |
| `LexicalCast.Convert` | include/boost/lexical_cast/detail/lcast_unsigned_converters.hpp:184-199 | succeeds if and only if the text is a non-empty string of digits below 2^16, with its value |
| `LexicalCast.LexicalCastUint16` | include/boost/lexical_cast/detail/converter_lexical_streams.hpp:515-533 | the same with an optional sign, a minus negating modulo 2^16 |
| `LexicalCast.ReadPrintedPort` | include/consul/peer.hpp:127-135 | every 16-bit port is printed so that it is read back |
| `LexicalCast.ReadSigned` | include/boost/lexical_cast/detail/converter_lexical_streams.hpp:515-533 | a plus sign before a printed number changes nothing, a minus sign gives the complement modulo 2^16 |
| `LexicalCast.ReadRefused` | include/boost/lexical_cast/detail/converter_lexical_streams.hpp:515-533 | after the sign there must be a digit, and nothing but digits |
| `Splits.SplitRunsPair` | include/consul/peer.hpp:42-43 | two strings free of the separator are divided at it |
| `Splits.SplitRunsRun` | include/consul/peer.hpp:42-43 | so are they at any number of separators in a row |
| `Splits.SplitRunsTwo` | include/consul/peer.hpp:42-43 | and only such strings are divided in two |
| `Peers.ReadExact` | include/consul/peer.hpp:26-66 | a value is read as a host and a port if and only if it is a string of two parts free of colons, one or more colons between them, the second of which is read as that port |
| `Peers.ReadOthers` | include/consul/peer.hpp:26-66 | the empty string names no leader; such a string with another second part is refused for the port; every other string, and what is no string, is refused |
| `Peers.Peer.SetPort` | include/consul/peer.hpp:127-135 | the port is set exactly when the text is one, and stays as it was otherwise |
| `Peers.Peer.InitFromValue` | include/consul/peer.hpp:26-66 | refused with nothing changed, refused for the port with the host already taken, no leader, or host and port read; and the message, which stays as it was on success |
| `Peers.Peer.InitFromText` | include/consul/peer.hpp:68-87 | the same from a JSON text; a message left over from before is a failure, quoted in the new message |
| `Peers.Peer.ToText` | include/consul/peer.hpp:94-99 | the JSON text of a peer |
| `Peers.ReadStr` | include/consul/peer.hpp:26-66 | `host:port` reads back as host and port if and only if the host has no colon |
| `Peers.PeerRoundTrip` | include/consul/peer.hpp:68-99 | the same through printing and parsing JSON, for every host and every 16-bit port |
| `Peers.CopyPeer` | include/consul/peer.hpp:137-140 | a peer read from the text of another is equal to it exactly in that case |

## Left out

- libcurl sessions, HTTP, cookies and headers, the Postgres entry points and the command-line tools: foreign calls and I/O.
- JsonPrinter.Write: what `snprintf("%.17g")` prints is a parameter, and the round trip covers values whose doubles are integers below 10^17 and are printed as integers; NaN, infinities and negative zero are not modelled.
- JsonNumbers.StrtodText: `strtod` is the exact decimal value; its rounding to a double is not modelled.
- JsonParser.Parse: error messages are data that name the offending byte or text, not their wording.
- JsonOrder.StrictTotalOrder: doubles are reals, so values with NaN are outside it.
- `Json::has_shape`, the accessors by index or key and the sharing of values by pointers would only add easy members.
- Base64Codec.DecodeBlockInto: between groups the code saves whatever lies under the pointer as the carried byte, which it never uses; the model holds it as 0. Chunking is invisible up to that byte.
- Base64Codec.Encoder.Encode: reading and writing streams never fail; `decode` and `encode` with the buffers of a caller are the block functions.
- KvPairs.KVPair.InitFromJson: messages are data, not their wording, and a double outside the range of `int` is truncated to an unbounded integer first (in the code its conversion is undefined).
- TclapCmdLine.CmdLine.Parse: after an exception the state is not specified, and what handling it prints is left out; reading a value is a predicate on its text; the static flag `ignoreRest` is a field of an object shared by all arguments.
- MultiSwitchArg and the unlabeled arguments are left out; a repeated MultiSwitchArg in a group would be counted again.
- TypedConfigBuild.TypedConfigurations.constructor: ToFile, Filename, Format, MillisecondsWidth and PerformanceTracking are left out; entries are values in a list, so pointers to them are not modelled; `atol` is unbounded.
- HitCounters.RegisteredHitCounters.ValidateEveryN: counters are not removed, and locks are left out.
- Glob.WildCardMatch: pointers are suffixes of the strings.
- Query.UrlEncode: `isalnum` is that of the C locale, where bytes from 128 on are not alphanumeric.
- Peers.Peer.InitFromValue: `boost::split` is its specification, not its code; messages are data that hold the texts they quote, not their wording.
- LexicalCast.Convert: the classic locale, without digit grouping.
- File streams, threads, crash handling and macros of easylogging++, the output formats of TCLAP other than word wrapping, and the URL cache of the consul agent are left out.
